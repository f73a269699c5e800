/** The card catalog service: a fixed catalog of twenty cards that is
    reordered in place by every random draw, plus lookups on it. */
module Cards {
  import opened Wrappers
  import opened Seqs

  /** A card as handed to the game; the database timestamps are left out. */
  datatype Card = Card(
    id: int,
    name: string,
    description: string,
    damage: int,
    defence: int,
    cost: int,
    imageUrl: string)
  {
    predicate HasNonNegativeStats()
    {
      cost >= 0 && damage >= 0 && defence >= 0
    }
  }

  /** The catalog in its initial order. */
  const AllCards: seq<Card> := [
    Card(1, "Ant-Man", "", 5, 3, 4, "cards/Ant-Man.png"),
    Card(2, "Black Panther", "", 7, 6, 6, "cards/Black Panther.png"),
    Card(3, "Black Widow", "", 6, 4, 5, "cards/Black Widow.png"),
    Card(4, "Captain America", "", 8, 8, 8, "cards/Captain America.png"),
    Card(5, "Captain Marvel", "", 9, 7, 8, "cards/Captain Marvel.png"),
    Card(6, "Deadpool", "", 7, 5, 6, "cards/Deadpool.png"),
    Card(7, "Doctor Strange", "", 8, 5, 8, "cards/Doctor Strange.png"),
    Card(8, "Falcon", "", 5, 4, 4, "cards/Falcon.png"),
    Card(9, "Groot", "", 4, 9, 6, "cards/Groot.png"),
    Card(10, "Hulk", "", 10, 6, 9, "cards/Hulk.png"),
    Card(11, "Iron Man", "", 8, 7, 8, "cards/Iron Man.png"),
    Card(12, "Ironheart", "", 7, 6, 7, "cards/Ironheart.png"),
    Card(13, "Loki", "", 6, 5, 7, "cards/Loki.png"),
    Card(14, "Rocket Raccoon", "", 6, 4, 5, "cards/Rocket Raccoon.png"),
    Card(15, "Scarlet Witch", "", 9, 6, 9, "cards/Scarlet Witch.png"),
    Card(16, "Shang-Chi", "", 8, 5, 7, "cards/Shang-Chi.png"),
    Card(17, "Spider-Man", "", 7, 5, 6, "cards/Spider Man.png"),
    Card(18, "Star-Lord", "", 6, 4, 5, "cards/Star-Lord.png"),
    Card(19, "Thor", "", 10, 6, 9, "cards/Thor.png"),
    Card(20, "Vision", "", 8, 7, 8, "cards/Vision.png")
  ]

  /** No two cards share a name. */
  predicate UniqueNames(s: seq<Card>)
  {
    forall i, j :: 0 <= i < j < |s| ==> s[i].name != s[j].name
  }

  /** The catalog holds twenty cards numbered 1..20 in order, with
      non-negative cost, damage and defence. */
  lemma CatalogShape()
    ensures |AllCards| == 20
    ensures forall i :: 0 <= i < |AllCards| ==> AllCards[i].id == i + 1
    ensures forall i :: 0 <= i < |AllCards| ==> AllCards[i].HasNonNegativeStats()
  {
  }

  /** No two catalog cards share a name. */
  lemma CatalogUniqueNames()
    ensures UniqueNames(AllCards)
  {
    CatalogNamesDiffer();
  }

  lemma CatalogNamesDiffer()
    ensures forall i, j :: 0 <= i < j < |AllCards| ==> AllCards[i].name != AllCards[j].name
  {
  }

  /** No card occurs twice in the catalog, since the ids differ. */
  lemma CatalogDistinct()
    ensures Distinct(AllCards)
  {
    CatalogShape();
    forall i, j | 0 <= i < j < |AllCards| ensures AllCards[i] != AllCards[j] {
      assert AllCards[i].id != AllCards[j].id;
    }
  }

  /** Any order the catalog can be in: a rearrangement of the initial one. */
  predicate IsCatalogOrder(c: seq<Card>)
  {
    multiset(c) == multiset(AllCards)
  }

  /** A rearrangement has the same size and the same elements. */
  lemma PermutationFacts(c: seq<Card>, base: seq<Card>)
    requires multiset(c) == multiset(base)
    ensures |c| == |base|
    ensures forall x :: x in c <==> x in base
  {
    assert |multiset(c)| == |multiset(base)|;
    forall x ensures x in c <==> x in base {
      PermutationMember(c, base, x);
    }
  }

  /** A rearrangement has the same elements. */
  lemma PermutationMember(c: seq<Card>, base: seq<Card>, x: Card)
    requires multiset(c) == multiset(base)
    ensures x in c <==> x in base
  {
    assert x in c <==> x in multiset(c);
    assert x in base <==> x in multiset(base);
  }

  // ---------------------------------------------------------------------
  // Shuffling

  /** One exchange of two positions; a position out of range leaves the
      order alone. */
  datatype Swap = Swap(i: nat, j: nat)

  function ApplySwap(s: seq<Card>, w: Swap): (r: seq<Card>)
    ensures |r| == |s|
  {
    if w.i < |s| && w.j < |s| then s[w.i := s[w.j]][w.j := s[w.i]] else s
  }

  /** An exchange only rearranges. */
  lemma ApplySwapPermutes(s: seq<Card>, w: Swap)
    ensures multiset(ApplySwap(s, w)) == multiset(s)
  {
  }

  /** Sorting with a comparator that answers at random rearranges the array
      in place; which rearrangement is chosen is given by the exchanges the
      sort performs. */
  function Shuffle(s: seq<Card>, swaps: seq<Swap>): (r: seq<Card>)
    ensures |r| == |s|
    decreases |swaps|
  {
    if |swaps| == 0 then s else Shuffle(ApplySwap(s, swaps[0]), swaps[1..])
  }

  /** A shuffle only rearranges: the catalog keeps its cards. */
  lemma {:induction false} ShufflePermutes(s: seq<Card>, swaps: seq<Swap>)
    ensures multiset(Shuffle(s, swaps)) == multiset(s)
    decreases |swaps|
  {
    if |swaps| > 0 {
      ApplySwapPermutes(s, swaps[0]);
      ShufflePermutes(ApplySwap(s, swaps[0]), swaps[1..]);
    }
  }

  /** The exchanges `ws` moved one position to the right. */
  function Shift(ws: seq<Swap>): (r: seq<Swap>)
    ensures |r| == |ws|
    ensures forall k :: 0 <= k < |ws| ==> r[k] == Swap(ws[k].i + 1, ws[k].j + 1)
  {
    if |ws| == 0 then [] else [Swap(ws[0].i + 1, ws[0].j + 1)] + Shift(ws[1..])
  }

  lemma ShiftCons(ws: seq<Swap>)
    requires |ws| > 0
    ensures Shift(ws) == [Swap(ws[0].i + 1, ws[0].j + 1)] + Shift(ws[1..])
  {
  }

  /** A shifted exchange leaves the head alone and exchanges in the tail. */
  lemma ApplySwapShift(x: Card, u: seq<Card>, w: Swap)
    ensures ApplySwap([x] + u, Swap(w.i + 1, w.j + 1)) == [x] + ApplySwap(u, w)
  {
    var s := [x] + u;
    if w.i < |u| && w.j < |u| {
      var a := s[w.i + 1 := s[w.j + 1]][w.j + 1 := s[w.i + 1]];
      var b := [x] + u[w.i := u[w.j]][w.j := u[w.i]];
      assert |a| == |b|;
      forall k | 0 <= k < |a| ensures a[k] == b[k] {
        if k > 0 {
          assert b[k] == u[w.i := u[w.j]][w.j := u[w.i]][k - 1];
        }
      }
    }
  }

  /** Shifted exchanges leave the head alone and shuffle the tail. */
  lemma {:induction false} ShuffleShift(x: Card, u: seq<Card>, ws: seq<Swap>)
    ensures Shuffle([x] + u, Shift(ws)) == [x] + Shuffle(u, ws)
    decreases |ws|
  {
    if |ws| > 0 {
      var w, tail := ws[0], ws[1..];
      var v := ApplySwap(u, w);
      calc {
        Shuffle([x] + u, Shift(ws));
        { ShiftCons(ws); }
        Shuffle([x] + u, [Swap(w.i + 1, w.j + 1)] + Shift(tail));
        { ShuffleCons([x] + u, Swap(w.i + 1, w.j + 1), Shift(tail)); }
        Shuffle(ApplySwap([x] + u, Swap(w.i + 1, w.j + 1)), Shift(tail));
        { ApplySwapShift(x, u, w); }
        Shuffle([x] + v, Shift(tail));
        { ShuffleShift(x, v, tail); }
        [x] + Shuffle(v, tail);
        { assert ws == [w] + tail; ShuffleCons(u, w, tail); }
        [x] + Shuffle(u, ws);
      }
    }
  }

  /** Removing equal heads from two rearrangements of each other leaves two
      rearrangements of each other. */
  lemma TailsPermute(s: seq<Card>, t: seq<Card>)
    requires |s| > 0 && |t| > 0 && s[0] == t[0]
    requires multiset(s) == multiset(t)
    ensures multiset(s[1..]) == multiset(t[1..])
  {
    assert s == [s[0]] + s[1..];
    assert t == [t[0]] + t[1..];
    calc {
      multiset(s[1..]);
      multiset(s) - multiset{s[0]};
      multiset(t) - multiset{t[0]};
      multiset(t[1..]);
    }
  }

  /** A position holding any card of the multiset. */
  lemma PositionOf(s: seq<Card>, c: Card) returns (j: nat)
    requires c in multiset(s)
    ensures j < |s| && s[j] == c
  {
    assert c in s;
    j :| 0 <= j < |s| && s[j] == c;
  }

  /** The first exchange of a shuffle is applied first. */
  lemma ShuffleCons(s: seq<Card>, w: Swap, rest: seq<Swap>)
    ensures Shuffle(s, [w] + rest) == Shuffle(ApplySwap(s, w), rest)
  {
    var ws := [w] + rest;
    assert ws[0] == w;
    assert ws[1..] == rest;
  }

  /** Every rearrangement of `s` is the outcome of some shuffle: the model
      of the random order is neither too narrow nor too wide. */
  lemma {:induction false} ShuffleReaches(s: seq<Card>, t: seq<Card>) returns (ws: seq<Swap>)
    requires multiset(t) == multiset(s)
    ensures Shuffle(s, ws) == t
    decreases |s|
  {
    assert |t| == |s| by {
      assert |multiset(t)| == |multiset(s)|;
    }
    if |s| == 0 {
      ws := [];
    } else {
      var j := FrontSwap(s, t);
      var rest := ShuffleReaches(ApplySwap(s, Swap(0, j))[1..], t[1..]);
      ReachStep(s, t, j, rest);
      ws := [Swap(0, j)] + Shift(rest);
    }
  }

  /** Bringing the right card to the front and shuffling the rest into
      place shuffles the whole. */
  lemma ReachStep(s: seq<Card>, t: seq<Card>, j: nat, rest: seq<Swap>)
    requires |t| > 0 && j < |s|
    requires ApplySwap(s, Swap(0, j))[0] == t[0]
    requires Shuffle(ApplySwap(s, Swap(0, j))[1..], rest) == t[1..]
    ensures Shuffle(s, [Swap(0, j)] + Shift(rest)) == t
  {
    var s1 := ApplySwap(s, Swap(0, j));
    ShuffleCons(s, Swap(0, j), Shift(rest));
    ShuffleShiftFront(s1, rest);
    assert t == [t[0]] + t[1..];
  }

  /** `ShuffleShift` for a sequence split at its head. */
  lemma ShuffleShiftFront(s: seq<Card>, ws: seq<Swap>)
    requires |s| > 0
    ensures Shuffle(s, Shift(ws)) == [s[0]] + Shuffle(s[1..], ws)
  {
    assert s == [s[0]] + s[1..];
    ShuffleShift(s[0], s[1..], ws);
  }

  /** An exchange that brings the first card of a rearrangement to the
      front, leaving the rest a rearrangement of its rest. */
  lemma FrontSwap(s: seq<Card>, t: seq<Card>) returns (j: nat)
    requires |s| > 0 && |t| == |s| && multiset(t) == multiset(s)
    ensures j < |s|
    ensures ApplySwap(s, Swap(0, j))[0] == t[0]
    ensures multiset(ApplySwap(s, Swap(0, j))[1..]) == multiset(t[1..])
  {
    var c := t[0];
    assert c in multiset(s) by {
      assert c in multiset(t);
    }
    j := PositionOf(s, c);
    var s1 := ApplySwap(s, Swap(0, j));
    assert s1[0] == c;
    ApplySwapPermutes(s, Swap(0, j));
    TailsPermute(s1, t);
  }

  // ---------------------------------------------------------------------
  // Drawing

  /** The catalog after a draw (the shuffle is kept) and the cards drawn. */
  datatype Draw = Draw(catalog: seq<Card>, cards: seq<Card>)

  /** Where JavaScript's `slice(0, end)` stops on a sequence of length `n`:
      a negative end counts back from the end of the sequence. */
  function SliceEnd(n: nat, end: int): (k: nat)
    ensures k <= n
    ensures 0 <= end ==> k == if end < n then end else n
    ensures end < 0 ==> k == if n + end < 0 then 0 else n + end
  {
    if end < 0 then (if n + end < 0 then 0 else n + end)
    else if end > n then n
    else end
  }

  /** Draws `count` cards: the whole catalog is shuffled in place and its
      first `count` cards (at most the catalog's size) are returned. */
  function GetRandomCards(catalog: seq<Card>, count: int, swaps: seq<Swap>): (r: Draw)
    ensures multiset(r.catalog) == multiset(catalog)
    ensures |r.cards| <= |r.catalog| && r.cards == r.catalog[..|r.cards|]
    ensures 0 <= count ==> |r.cards| == if count < |catalog| then count else |catalog|
    ensures count < 0 ==> |r.cards| == if |catalog| + count < 0 then 0 else |catalog| + count
  {
    var n := if count > |catalog| then |catalog| else count;
    var shuffled := Shuffle(catalog, swaps);
    ShufflePermutes(catalog, swaps);
    Draw(shuffled, shuffled[..SliceEnd(|shuffled|, n)])
  }

  /** Drawing from a rearrangement of a duplicate-free `base` keeps it a
      rearrangement and yields distinct cards of `base`. */
  lemma DrawFromOrder(base: seq<Card>, catalog: seq<Card>, count: int, swaps: seq<Swap>)
    requires Distinct(base) && multiset(catalog) == multiset(base)
    ensures multiset(GetRandomCards(catalog, count, swaps).catalog) == multiset(base)
    ensures Distinct(GetRandomCards(catalog, count, swaps).cards)
    ensures forall k :: 0 <= k < |GetRandomCards(catalog, count, swaps).cards| ==>
              GetRandomCards(catalog, count, swaps).cards[k] in base
  {
    var r := GetRandomCards(catalog, count, swaps);
    DistinctPermutation(base, r.catalog);
    DistinctPrefix(r.catalog, |r.cards|);
    forall k | 0 <= k < |r.cards| ensures r.cards[k] in base {
      assert r.cards[k] == r.catalog[k];
      assert r.cards[k] in multiset(base);
    }
  }

  /** Drawing from a catalog order keeps it a catalog order and yields
      distinct catalog cards. */
  lemma DrawFromCatalog(catalog: seq<Card>, count: int, swaps: seq<Swap>)
    requires IsCatalogOrder(catalog)
    ensures IsCatalogOrder(GetRandomCards(catalog, count, swaps).catalog)
    ensures Distinct(GetRandomCards(catalog, count, swaps).cards)
    ensures forall k :: 0 <= k < |GetRandomCards(catalog, count, swaps).cards| ==>
              GetRandomCards(catalog, count, swaps).cards[k] in AllCards
  {
    CatalogDistinct();
    DrawFromOrder(AllCards, catalog, count, swaps);
  }

  /** Conversely, every prefix of the right length of every rearrangement
      of the catalog is a possible draw. */
  lemma DrawReachesEveryPrefix(catalog: seq<Card>, count: nat, t: seq<Card>) returns (swaps: seq<Swap>)
    requires multiset(t) == multiset(catalog)
    ensures |t| == |catalog|
    ensures GetRandomCards(catalog, count, swaps).cards
         == t[..if count < |catalog| then count else |catalog|]
  {
    assert |t| == |multiset(t)| == |catalog|;
    swaps := ShuffleReaches(catalog, t);
  }

  // ---------------------------------------------------------------------
  // Lookups

  /** The unique-key filter a caller passes: by id, by name, or both. */
  datatype CardWhere = CardWhere(id: Option<int>, name: Option<string>)

  /** Index of the first card whose name is `name`, if any. */
  function FindByName(s: seq<Card>, name: string): (r: Option<nat>)
    ensures r.Some? ==> r.value < |s| && s[r.value].name == name
    ensures r.Some? ==> forall k :: 0 <= k < r.value ==> s[k].name != name
    ensures r.None? ==> forall k :: 0 <= k < |s| ==> s[k].name != name
  {
    if |s| == 0 then None
    else if s[0].name == name then Some(0)
    else match FindByName(s[1..], name)
      case None => None
      case Some(k) => Some(k + 1)
  }

  /** Looks a card up by name only; a filter that gives only an id never
      matches, since a card's name is never undefined. */
  function GetCard(catalog: seq<Card>, where: CardWhere): (r: Option<Card>)
    ensures r.Some? ==> r.value in catalog && where.name == Some(r.value.name)
    ensures r.None? <==> forall k :: 0 <= k < |catalog| ==> where.name != Some(catalog[k].name)
  {
    match where.name
    case None => None
    case Some(name) =>
      match FindByName(catalog, name)
      case None => None
      case Some(k) => Some(catalog[k])
  }

  /** When names are unique, rearranging never changes what a lookup finds. */
  lemma GetCardIgnoresOrderOf(base: seq<Card>, catalog: seq<Card>, where: CardWhere)
    requires UniqueNames(base) && multiset(catalog) == multiset(base)
    ensures GetCard(catalog, where) == GetCard(base, where)
  {
    var r := GetCard(catalog, where);
    var q := GetCard(base, where);
    if q.Some? {
      assert q.value in multiset(catalog);
      var k :| 0 <= k < |catalog| && catalog[k] == q.value;
      assert r.Some?;
    }
    if r.Some? {
      assert r.value in multiset(base);
      var i :| 0 <= i < |base| && base[i] == r.value;
      var j :| 0 <= j < |base| && base[j] == q.value;
      assert base[i].name == base[j].name;
    }
  }

  /** Shuffling the catalog never changes what a lookup by name finds. */
  lemma GetCardIgnoresOrder(catalog: seq<Card>, where: CardWhere)
    requires IsCatalogOrder(catalog)
    ensures GetCard(catalog, where) == GetCard(AllCards, where)
  {
    CatalogUniqueNames();
    GetCardIgnoresOrderOf(AllCards, catalog, where);
  }

  /** The whole catalog in its current order: every catalog card, each once. */
  function GetAllCards(catalog: seq<Card>): (r: seq<Card>)
    requires IsCatalogOrder(catalog)
    ensures |r| == |AllCards|
    ensures forall c :: c in r <==> c in AllCards
    ensures r == catalog
  {
    PermutationFacts(catalog, AllCards);
    catalog
  }

  /** The card count: the cached count is returned when it is zero (the
      service's initial state), and one more than the catalog size otherwise. */
  function GetCardCount(cached: int): (r: int)
    ensures cached == 0 ==> r == 0
    ensures cached != 0 ==> r == |AllCards| + 1
  {
    if cached == 0 then cached else |AllCards| + 1
  }
}
