/** The websocket guard's checks that run before any token verification:
    reading the `jwt` cookie out of a `Cookie` header. */
module JwtGuard {
  import opened Wrappers
  import opened Seqs

  // ---------------------------------------------------------------------
  // String primitives with JavaScript's meaning

  /** The characters `String.prototype.trim` removes: ECMAScript
      WhiteSpace and LineTerminator code points. */
  predicate IsTrimmable(c: char)
  {
    || c == '\t' || c == '\n' || c == '\U{000B}' || c == '\U{000C}' || c == '\r'
    || c == ' ' || c == '\U{00A0}' || c == '\U{1680}'
    || ('\U{2000}' <= c <= '\U{200A}')
    || c == '\U{2028}' || c == '\U{2029}' || c == '\U{202F}' || c == '\U{205F}'
    || c == '\U{3000}' || c == '\U{FEFF}'
  }

  /** `parts` glued back together with `sep` between neighbours. */
  function Join(parts: seq<string>, sep: char): string
  {
    if |parts| == 0 then ""
    else if |parts| == 1 then parts[0]
    else parts[0] + [sep] + Join(parts[1..], sep)
  }

  /** `s.split(sep)` for a one-character separator: the maximal pieces
      between separators, an empty piece wherever two separators touch or
      the string starts or ends with one. */
  function Split(s: string, sep: char): (parts: seq<string>)
    ensures |parts| >= 1
    decreases |s|
  {
    if |s| == 0 then [""]
    else
      var rest := Split(s[1..], sep);
      if s[0] == sep then [""] + rest
      else [[s[0]] + rest[0]] + rest[1..]
  }

  /** The pieces hold no separator and glue back into the string. */
  lemma {:induction false} SplitSpec(s: string, sep: char)
    ensures forall k :: 0 <= k < |Split(s, sep)| ==> sep !in Split(s, sep)[k]
    ensures Join(Split(s, sep), sep) == s
    decreases |s|
  {
    if |s| > 0 {
      var rest := Split(s[1..], sep);
      SplitSpec(s[1..], sep);
      var parts := Split(s, sep);
      if s[0] == sep {
        assert s == [sep] + s[1..];
        assert parts[1..] == rest;
      } else {
        JoinConsHead(s[0], rest, sep);
        assert s == [s[0]] + s[1..];
        assert parts[1..] == rest[1..];
        assert parts[0] == [s[0]] + rest[0];
        forall k | 0 <= k < |parts| ensures sep !in parts[k] {
          if k == 0 {
            assert sep !in rest[0];
          } else {
            assert parts[k] == rest[k];
          }
        }
      }
    }
  }

  lemma JoinConsHead(c: char, parts: seq<string>, sep: char)
    requires |parts| >= 1
    ensures Join([[c] + parts[0]] + parts[1..], sep) == [c] + Join(parts, sep)
  {
    var q := [[c] + parts[0]] + parts[1..];
    assert q[1..] == parts[1..];
  }

  /** Splitting a string one character longer. */
  lemma SplitCons(c: char, x: string, sep: char)
    ensures Split([c] + x, sep) ==
      if c == sep then [""] + Split(x, sep)
      else [[c] + Split(x, sep)[0]] + Split(x, sep)[1..]
  {
    assert ([c] + x)[1..] == x;
  }

  /** Splitting undoes joining pieces that hold no separator. */
  lemma {:induction false} SplitJoin(parts: seq<string>, sep: char)
    requires |parts| >= 1
    requires forall k :: 0 <= k < |parts| ==> sep !in parts[k]
    ensures Split(Join(parts, sep), sep) == parts
    decreases |parts|, |parts[0]|
  {
    var p := parts[0];
    if |p| == 0 {
      if |parts| > 1 {
        var rest := parts[1..];
        assert forall k :: 0 <= k < |rest| ==> sep !in rest[k] by {
          forall k | 0 <= k < |rest| ensures sep !in rest[k] {
            assert rest[k] == parts[k + 1];
          }
        }
        calc {
          Split(Join(parts, sep), sep);
          { assert Join(parts, sep) == [sep] + Join(rest, sep); }
          Split([sep] + Join(rest, sep), sep);
          { SplitCons(sep, Join(rest, sep), sep); }
          [""] + Split(Join(rest, sep), sep);
          { SplitJoin(rest, sep); }
          [""] + rest;
          { assert parts == [p] + rest; }
          parts;
        }
      }
    } else {
      var c := p[0];
      assert c != sep by {
        assert c in p;
      }
      var tail := [p[1..]] + parts[1..];
      assert forall k :: 0 <= k < |tail| ==> sep !in tail[k] by {
        forall k | 0 <= k < |tail| ensures sep !in tail[k] {
          if k == 0 {
            assert p == [c] + p[1..];
          } else {
            assert tail[k] == parts[k];
          }
        }
      }
      assert parts == [[c] + tail[0]] + tail[1..] by {
        assert p == [c] + p[1..];
        assert tail[1..] == parts[1..];
      }
      var x := Join(tail, sep);
      calc {
        Split(Join(parts, sep), sep);
        { JoinConsHead(c, tail, sep); }
        Split([c] + x, sep);
        { SplitCons(c, x, sep); }
        [[c] + Split(x, sep)[0]] + Split(x, sep)[1..];
        { SplitJoin(tail, sep); }
        [[c] + tail[0]] + tail[1..];
        parts;
      }
    }
  }

  /** `s` with its leading trimmable characters removed. */
  function TrimStart(s: string): (r: string)
    ensures |r| <= |s| && r == s[|s| - |r|..]
    ensures forall k :: 0 <= k < |s| - |r| ==> IsTrimmable(s[k])
    ensures |r| > 0 ==> !IsTrimmable(r[0])
  {
    if |s| > 0 && IsTrimmable(s[0]) then TrimStart(s[1..]) else s
  }

  /** `s` with its trailing trimmable characters removed. */
  function TrimEnd(s: string): (r: string)
    ensures |r| <= |s| && r == s[..|r|]
    ensures forall k :: |r| <= k < |s| ==> IsTrimmable(s[k])
    ensures |r| > 0 ==> !IsTrimmable(r[|r| - 1])
  {
    if |s| > 0 && IsTrimmable(s[|s| - 1]) then TrimEnd(s[..|s| - 1]) else s
  }

  /** `r` is the piece of `s` starting at `i`, and everything of `s` around
      it is trimmable. */
  ghost predicate TrimmedAt(s: string, r: string, i: nat)
  {
    && i + |r| <= |s| && r == s[i..i + |r|]
    && (forall k :: 0 <= k < i ==> IsTrimmable(s[k]))
    && (forall k :: i + |r| <= k < |s| ==> IsTrimmable(s[k]))
  }

  lemma TrimmedAtParts(s: string, t: string, r: string)
    requires |t| <= |s| && t == s[|s| - |t|..]
    requires forall k :: 0 <= k < |s| - |t| ==> IsTrimmable(s[k])
    requires |r| <= |t| && r == t[..|r|]
    requires forall k :: |r| <= k < |t| ==> IsTrimmable(t[k])
    ensures TrimmedAt(s, r, |s| - |t|)
  {
    var i := |s| - |t|;
    assert r == s[i..i + |r|];
    forall k | i + |r| <= k < |s| ensures IsTrimmable(s[k]) {
      assert s[k] == t[k - i];
    }
  }

  /** `s.trim()`: `s` without its leading and trailing trimmable characters. */
  function Trim(s: string): (r: string)
    ensures exists i :: TrimmedAt(s, r, i)
    ensures |r| > 0 ==> !IsTrimmable(r[0]) && !IsTrimmable(r[|r| - 1])
  {
    var t := TrimStart(s);
    var r := TrimEnd(t);
    TrimmedAtParts(s, t, r);
    r
  }

  /** A string that starts and ends with a kept character is its own trim. */
  lemma TrimKeeps(s: string)
    requires |s| > 0 && !IsTrimmable(s[0]) && !IsTrimmable(s[|s| - 1])
    ensures Trim(s) == s
  {
  }

  /** ... also after one leading blank. */
  lemma TrimKeepsAfterBlank(s: string)
    requires |s| > 0 && !IsTrimmable(s[0]) && !IsTrimmable(s[|s| - 1])
    ensures Trim(" " + s) == s
  {
    assert (" " + s)[1..] == s;
  }

  // ---------------------------------------------------------------------
  // Cookie parsing

  /** What the parser returns: JavaScript `null` when no cookie is named
      `jwt`, and otherwise the text after the first `=`, which is
      `undefined` (here `None`) when the cookie has no `=`. */
  datatype Extracted = NoJwtCookie | JwtCookie(value: Option<string>)

  /** One `;`-separated piece of the header as the parser reads it: the
      trimmed piece up to its first `=`, and the text between its first
      and second `=` (`None` for JavaScript's `undefined` when it has no `=`). */
  datatype Segment = Segment(name: string, value: Option<string>)

  function ParseSegment(piece: string): (r: Segment)
  {
    var parts := Split(Trim(piece), '=');
    Segment(parts[0], if |parts| >= 2 then Some(parts[1]) else None)
  }

  /** The header's pieces, parsed, in header order. */
  function ParseHeader(cookies: string): (r: seq<Segment>)
  {
    ParseAll(Split(cookies, ';'))
  }

  function ParseAll(pieces: seq<string>): (r: seq<Segment>)
    ensures |r| == |pieces|
  {
    if |pieces| == 0 then [] else [ParseSegment(pieces[0])] + ParseAll(pieces[1..])
  }

  lemma ParseAllCons(piece: string, pieces: seq<string>)
    ensures ParseAll([piece] + pieces) == [ParseSegment(piece)] + ParseAll(pieces)
  {
    assert ([piece] + pieces)[1..] == pieces;
  }

  /** Index of the first segment named exactly `jwt`. */
  function FirstJwtSegment(segments: seq<Segment>): (r: Option<nat>)
    ensures r.Some? ==> r.value < |segments| && segments[r.value].name == "jwt"
    ensures r.Some? ==> forall k :: 0 <= k < r.value ==> segments[k].name != "jwt"
    ensures r.None? <==> forall k :: 0 <= k < |segments| ==> segments[k].name != "jwt"
  {
    if |segments| == 0 then None
    else if segments[0].name == "jwt" then Some(0)
    else match FirstJwtSegment(segments[1..])
      case None => None
      case Some(k) => Some(k + 1)
  }

  /** Reads the `jwt` cookie out of a `Cookie` header: the value of the
      first segment whose trimmed name is exactly `jwt`, or no cookie when
      no segment is so named. */
  function ExtractTokenFromCookies(cookies: string): (r: Extracted)
    ensures var segments := ParseHeader(cookies);
      r.NoJwtCookie? <==> forall k :: 0 <= k < |segments| ==> segments[k].name != "jwt"
    ensures var segments := ParseHeader(cookies);
      r.JwtCookie? ==>
        exists k :: 0 <= k < |segments| && segments[k].name == "jwt"
          && (forall m :: 0 <= m < k ==> segments[m].name != "jwt")
          && r.value == segments[k].value
  {
    var segments := ParseHeader(cookies);
    match FirstJwtSegment(segments)
    case None => NoJwtCookie
    case Some(k) => JwtCookie(segments[k].value)
  }

  // ---------------------------------------------------------------------
  // The header a browser sends

  /** One `name=value` pair of a `Cookie` header. */
  datatype Cookie = Cookie(name: string, value: string)

  /** A pair the parser can read back: no `;` or `=` inside, and nothing
      trimmable where trimming would eat it. */
  predicate WellFormed(c: Cookie)
  {
    && ';' !in c.name && '=' !in c.name && ';' !in c.value && '=' !in c.value
    && (|c.name| > 0 ==> !IsTrimmable(c.name[0]))
    && (|c.value| > 0 ==> !IsTrimmable(c.value[|c.value| - 1]))
  }

  /** The header segments for `cookies`; every pair after the first is
      preceded by the blank of the `; ` separator. */
  function Segments(cookies: seq<Cookie>, first: bool): (r: seq<string>)
    ensures |r| == |cookies|
  {
    if |cookies| == 0 then []
    else
      [(if first then "" else " ") + PairText(cookies[0])]
      + Segments(cookies[1..], false)
  }

  /** The `Cookie` header for a non-empty list of pairs, `a=1; b=2`. */
  function CookieHeader(cookies: seq<Cookie>): string
  {
    Join(Segments(cookies, true), ';')
  }

  /** The value of the first pair named `jwt`, as a reference answer. */
  function LookupJwt(cookies: seq<Cookie>): Option<string>
  {
    if |cookies| == 0 then None
    else if cookies[0].name == "jwt" then Some(cookies[0].value)
    else LookupJwt(cookies[1..])
  }

  /** The text of one pair, without the separator's blank. */
  function PairText(c: Cookie): string
  {
    c.name + "=" + c.value
  }

  /** A well-formed pair's text survives trimming, with or without the
      blank before it. */
  lemma TrimPair(c: Cookie, first: bool)
    requires WellFormed(c)
    ensures Trim((if first then "" else " ") + PairText(c)) == PairText(c)
  {
    var core := PairText(c);
    assert core[|c.name|] == '=';
    assert |c.name| > 0 ==> core[0] == c.name[0];
    assert |c.value| > 0 ==> core[|core| - 1] == c.value[|c.value| - 1];
    if first {
      assert "" + core == core;
      TrimKeeps(core);
    } else {
      TrimKeepsAfterBlank(core);
    }
  }

  /** A well-formed pair's text splits at `=` into its name and value. */
  lemma SplitPair(c: Cookie)
    requires WellFormed(c)
    ensures Split(PairText(c), '=') == [c.name, c.value]
  {
    assert Join([c.name, c.value], '=') == PairText(c);
    SplitJoin([c.name, c.value], '=');
  }

  /** A well-formed segment reads back as its name and value. */
  lemma SegmentReadsBack(c: Cookie, first: bool)
    requires WellFormed(c)
    ensures ParseSegment((if first then "" else " ") + PairText(c)) == Segment(c.name, Some(c.value))
  {
    TrimPair(c, first);
    SplitPair(c);
  }

  /** The segments of a header of well-formed pairs hold no `;`. */
  lemma SegmentsHaveNoSeparator(cookies: seq<Cookie>, first: bool)
    requires forall k :: 0 <= k < |cookies| ==> WellFormed(cookies[k])
    ensures forall k :: 0 <= k < |cookies| ==> ';' !in Segments(cookies, first)[k]
    decreases |cookies|
  {
    if |cookies| > 0 {
      SegmentsHaveNoSeparator(cookies[1..], false);
      var s := Segments(cookies, first);
      forall k | 0 <= k < |cookies| ensures ';' !in s[k] {
        if k > 0 {
          assert s[k] == Segments(cookies[1..], false)[k - 1];
        }
      }
    }
  }

  /** Parsing the segments of well-formed pairs gives back the pairs. */
  lemma {:induction false} ParseSegments(cookies: seq<Cookie>, first: bool)
    requires forall k :: 0 <= k < |cookies| ==> WellFormed(cookies[k])
    ensures ParseAll(Segments(cookies, first)) == Parsed(cookies)
    decreases |cookies|
  {
    if |cookies| > 0 {
      ParseStep(cookies, first);
      assert forall k :: 0 <= k < |cookies[1..]| ==> WellFormed(cookies[1..][k]) by {
        forall k | 0 <= k < |cookies[1..]| ensures WellFormed(cookies[1..][k]) {
          assert cookies[1..][k] == cookies[k + 1];
        }
      }
      ParseSegments(cookies[1..], false);
      ParsedCons(cookies);
    }
  }

  lemma ParsedCons(cookies: seq<Cookie>)
    requires |cookies| > 0
    ensures Parsed(cookies) == [Segment(cookies[0].name, Some(cookies[0].value))] + Parsed(cookies[1..])
  {
    var a := Parsed(cookies);
    var b := [Segment(cookies[0].name, Some(cookies[0].value))] + Parsed(cookies[1..]);
    assert |a| == |b|;
    forall k | 0 <= k < |a| ensures a[k] == b[k] {
      if k > 0 {
        assert b[k] == Parsed(cookies[1..])[k - 1];
      }
    }
  }

  lemma ParseStep(cookies: seq<Cookie>, first: bool)
    requires |cookies| > 0 && WellFormed(cookies[0])
    ensures ParseAll(Segments(cookies, first))
         == [Segment(cookies[0].name, Some(cookies[0].value))] + ParseAll(Segments(cookies[1..], false))
  {
    var head := (if first then "" else " ") + PairText(cookies[0]);
    assert Segments(cookies, first) == [head] + Segments(cookies[1..], false);
    SegmentReadsBack(cookies[0], first);
    ParseAllCons(head, Segments(cookies[1..], false));
  }

  /** The segments a list of pairs reads as. */
  function Parsed(cookies: seq<Cookie>): (r: seq<Segment>)
    ensures |r| == |cookies|
    ensures forall k :: 0 <= k < |r| ==> r[k] == Segment(cookies[k].name, Some(cookies[k].value))
  {
    seq(|cookies|, k requires 0 <= k < |cookies| => Segment(cookies[k].name, Some(cookies[k].value)))
  }

  /** The first `jwt` segment of parsed pairs is the first `jwt` pair. */
  lemma {:induction false} FindInParsed(cookies: seq<Cookie>)
    ensures LookupJwt(cookies).None? <==> FirstJwtSegment(Parsed(cookies)).None?
    ensures LookupJwt(cookies).Some? ==>
      Parsed(cookies)[FirstJwtSegment(Parsed(cookies)).value].value == LookupJwt(cookies)
    decreases |cookies|
  {
    if |cookies| > 0 {
      assert Parsed(cookies)[1..] == Parsed(cookies[1..]);
      FindInParsed(cookies[1..]);
    }
  }

  /** The parser reads back the header a browser builds: it finds the value
      of the first pair named `jwt`, and reports no cookie when none is. */
  lemma ExtractFromHeader(cookies: seq<Cookie>)
    requires |cookies| >= 1
    requires forall k :: 0 <= k < |cookies| ==> WellFormed(cookies[k])
    ensures ExtractTokenFromCookies(CookieHeader(cookies))
         == if LookupJwt(cookies).None? then NoJwtCookie else JwtCookie(LookupJwt(cookies))
  {
    SegmentsHaveNoSeparator(cookies, true);
    SplitJoin(Segments(cookies, true), ';');
    ParseSegments(cookies, true);
    FindInParsed(cookies);
  }

  // ---------------------------------------------------------------------
  // Reading quirks

  /** A header that is a single segment parses as that segment alone. */
  lemma SingleSegment(header: string)
    requires ';' !in header
    ensures ParseHeader(header) == [ParseSegment(header)]
  {
    SplitJoin([header], ';');
  }

  /** A one-segment header with nothing to trim reads as its own pieces
      around `=`. */
  lemma ReadSingle(header: string, parts: seq<string>)
    requires ';' !in header
    requires |header| > 0 && !IsTrimmable(header[0]) && !IsTrimmable(header[|header| - 1])
    requires |parts| >= 1 && Join(parts, '=') == header
    requires forall k :: 0 <= k < |parts| ==> '=' !in parts[k]
    ensures ExtractTokenFromCookies(header)
         == if parts[0] != "jwt" then NoJwtCookie
            else JwtCookie(if |parts| >= 2 then Some(parts[1]) else None)
  {
    SingleSegment(header);
    TrimKeeps(header);
    SplitJoin(parts, '=');
    var seg := Segment(parts[0], if |parts| >= 2 then Some(parts[1]) else None);
    assert ParseSegment(header) == seg;
    OneSegment(header, seg);
  }

  /** Reading a header that parses as one segment. */
  lemma OneSegment(header: string, seg: Segment)
    requires ParseHeader(header) == [seg]
    ensures ExtractTokenFromCookies(header)
         == if seg.name != "jwt" then NoJwtCookie else JwtCookie(seg.value)
  {
    assert FirstJwtSegment([seg]) == if seg.name == "jwt" then Some(0) else None;
  }

  /** The value ends at a second `=`: `jwt=v=w` yields `v`. */
  lemma ValueStopsAtSecondEquals(v: string, w: string)
    requires ';' !in v && '=' !in v && ';' !in w && '=' !in w
    requires |w| > 0 ==> !IsTrimmable(w[|w| - 1])
    ensures ExtractTokenFromCookies("jwt=" + v + "=" + w) == JwtCookie(Some(v))
  {
    var header := "jwt=" + v + "=" + w;
    assert ';' !in header by {
      assert forall k :: 0 <= k < |header| ==> header[k] in "jwt=" || header[k] in v || header[k] in "=" || header[k] in w;
    }
    assert !IsTrimmable(header[0]) && !IsTrimmable(header[|header| - 1]) by {
      assert header[0] == 'j';
      assert header[|header| - 1] == if |w| > 0 then w[|w| - 1] else '=';
    }
    assert Join(["jwt", v, w], '=') == header by {
      assert ["jwt", v, w][1..] == [v, w];
      assert Join([v, w], '=') == v + "=" + w;
      assert "jwt" + "=" + (v + "=" + w) == header;
    }
    ReadSingle(header, ["jwt", v, w]);
  }

  /** A bare `jwt` segment names the cookie but carries no value. */
  lemma BareJwtHasNoValue()
    ensures ExtractTokenFromCookies("jwt") == JwtCookie(None)
  {
    assert ';' !in "jwt" && '=' !in "jwt";
    ReadSingle("jwt", ["jwt"]);
  }

  /** Trimming applies to the whole segment only, so a blank before the
      `=` makes the name `jwt ` and the cookie is not found. */
  lemma BlankBeforeEqualsHidesJwt(v: string)
    requires ';' !in v && '=' !in v
    requires |v| > 0 ==> !IsTrimmable(v[|v| - 1])
    ensures ExtractTokenFromCookies("jwt =" + v) == NoJwtCookie
  {
    var header := "jwt =" + v;
    assert ';' !in header by {
      assert forall k :: 0 <= k < |header| ==> header[k] in "jwt =" || header[k] in v;
    }
    assert !IsTrimmable(header[0]) && !IsTrimmable(header[|header| - 1]) by {
      assert header[0] == 'j';
      assert header[|header| - 1] == if |v| > 0 then v[|v| - 1] else '=';
    }
    assert Join(["jwt ", v], '=') == header;
    assert "jwt " != "jwt";
    ReadSingle(header, ["jwt ", v]);
  }

  // ---------------------------------------------------------------------
  // The guard

  /** The token the guard goes on with: the extracted value when it is a
      non-empty string; `null`, `undefined` and `""` are all falsy. */
  function TokenOf(e: Extracted): (r: Option<string>)
    ensures r.Some? <==> e.JwtCookie? && e.value.Some? && e.value.value != ""
    ensures r.Some? ==> r == e.value
  {
    match e
    case JwtCookie(Some(v)) => if v != "" then Some(v) else None
    case _ => None
  }

  /** Why a connection is refused. A payload without a username is refused
      as an invalid token: the guard throws inside its own `try`, whose
      handler replaces the message. */
  datatype GuardError = MissingCookies | MissingJwtToken | InvalidJwtToken

  /** What token verification gives back: it throws, or it returns a
      payload whose `username` may be missing. Verification itself is a
      library call and not part of this model. */
  datatype Verification = Throws | Payload(username: Option<string>)

  /** The guard: the cookie header must be present and non-empty, must
      carry a `jwt` token, and the token must verify to a payload with a
      non-empty username, which is what the connection is admitted as. */
  function CanActivate(cookieHeader: Option<string>, verify: string -> Verification): (r: Result<string, GuardError>)
    ensures r == Err(MissingCookies) <==> cookieHeader.None? || cookieHeader.value == ""
    ensures r == Err(MissingJwtToken) <==>
      cookieHeader.Some? && cookieHeader.value != ""
      && TokenOf(ExtractTokenFromCookies(cookieHeader.value)).None?
    ensures r.Ok? ==>
      && cookieHeader.Some?
      && TokenOf(ExtractTokenFromCookies(cookieHeader.value)).Some?
      && verify(TokenOf(ExtractTokenFromCookies(cookieHeader.value)).value) == Payload(Some(r.value))
      && r.value != ""
    ensures cookieHeader.Some? && TokenOf(ExtractTokenFromCookies(cookieHeader.value)).Some? ==>
      var v := verify(TokenOf(ExtractTokenFromCookies(cookieHeader.value)).value);
      (r.Ok? <==> cookieHeader.value != "" && v.Payload? && v.username.Some? && v.username.value != "")
  {
    match cookieHeader
    case None => Err(MissingCookies)
    case Some(header) =>
      if header == "" then Err(MissingCookies)
      else match TokenOf(ExtractTokenFromCookies(header))
        case None => Err(MissingJwtToken)
        case Some(token) =>
          match verify(token)
          case Throws => Err(InvalidJwtToken)
          case Payload(username) =>
            if username.None? || username.value == "" then Err(InvalidJwtToken)
            else Ok(username.value)
  }

  /** Without a header or a token the guard refuses before verifying: the
      verifier cannot change the outcome. */
  lemma RejectsBeforeVerifying(cookieHeader: Option<string>, verify1: string -> Verification, verify2: string -> Verification)
    requires cookieHeader.None? || TokenOf(ExtractTokenFromCookies(cookieHeader.value)).None?
    ensures CanActivate(cookieHeader, verify1) == CanActivate(cookieHeader, verify2)
    ensures CanActivate(cookieHeader, verify1).Err?
    ensures CanActivate(cookieHeader, verify1).error != InvalidJwtToken
  {
  }
}
