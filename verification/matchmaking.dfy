/** The matchmaking service: a first-come-first-served queue of sockets,
    paired two at a time into matches that start after a countdown unless
    one of the players cancels. The clock is an explicit `now`; the
    countdown's expiry is the explicit step `Fire`. */
module Matchmaking {
  import opened Wrappers
  import opened Seqs

  type SocketId = string

  /** A match id; the service renders it as the text `match_<n>`. */
  type MatchId = int

  /** Seconds between a match being found and the game starting. */
  const CountdownSeconds := 5

  datatype Match = Match(id: MatchId, players: seq<SocketId>, startTime: int, cancelled: bool)

  /** What the service emits, and to which socket. */
  datatype Notice =
    | MatchFound(to: SocketId, matchId: MatchId, startTime: int, countdown: int)
    | MatchCancelled(to: SocketId)
    | GameStart(to: SocketId, matchId: MatchId, opponent: Option<SocketId>)

  /** The waiting queue, oldest first; the pending matches in insertion
      order (a map keyed by match id); and the next unused id, which only
      the corrected pairing uses. */
  datatype Lobby = Lobby(queue: seq<SocketId>, matches: seq<Match>, nextId: MatchId)

  /** A lobby after an operation, and the notices it sent, in order. */
  datatype Outcome = Outcome(lobby: Lobby, notices: seq<Notice>)

  const EmptyLobby := Lobby([], [], 0)

  // ---------------------------------------------------------------------
  // The match map

  /** Index of the match with id `id`. */
  function FindMatch(ms: seq<Match>, id: MatchId): (r: Option<nat>)
    ensures r.Some? ==> r.value < |ms| && ms[r.value].id == id
    ensures r.Some? ==> forall k :: 0 <= k < r.value ==> ms[k].id != id
    ensures r.None? <==> forall k :: 0 <= k < |ms| ==> ms[k].id != id
  {
    if |ms| == 0 then None
    else if ms[0].id == id then Some(0)
    else match FindMatch(ms[1..], id)
      case None => None
      case Some(k) => Some(k + 1)
  }

  /** Map `set`: replaces the match with the same id in place, or adds the
      match at the end. */
  function SetMatch(ms: seq<Match>, m: Match): (r: seq<Match>)
    ensures FindMatch(ms, m.id).Some? ==> |r| == |ms| && r == ms[FindMatch(ms, m.id).value := m]
    ensures FindMatch(ms, m.id).None? ==> r == ms + [m]
  {
    match FindMatch(ms, m.id)
    case Some(k) => ms[k := m]
    case None => ms + [m]
  }

  /** Map `delete`: drops the matches with id `id`, the rest in order. */
  function DeleteMatch(ms: seq<Match>, id: MatchId): (r: seq<Match>)
    ensures forall m :: m in r <==> m in ms && m.id != id
    ensures |r| <= |ms|
    ensures (forall k :: 0 <= k < |ms| ==> ms[k].id != id) ==> r == ms
  {
    if |ms| == 0 then []
    else if ms[0].id == id then DeleteMatch(ms[1..], id)
    else [ms[0]] + DeleteMatch(ms[1..], id)
  }

  /** Deletion works piece by piece: the pieces of a concatenation lose
      the id separately and stay in their order. */
  lemma {:induction false} DeleteMatchAppend(a: seq<Match>, b: seq<Match>, id: MatchId)
    ensures DeleteMatch(a + b, id) == DeleteMatch(a, id) + DeleteMatch(b, id)
  {
    if |a| == 0 {
      assert a + b == b;
    } else {
      assert (a + b)[1..] == a[1..] + b;
      DeleteMatchAppend(a[1..], b, id);
    }
  }

  /** Deletion keeps every match with another id: a single match is
      dropped exactly when it has the id. With `DeleteMatchAppend` and the
      no-op case of `DeleteMatch` this fixes the result completely. */
  lemma DeleteMatchSingle(m: Match, id: MatchId)
    ensures DeleteMatch([m], id) == if m.id == id then [] else [m]
  {
    assert [m][1..] == [];
  }

  /** A match in front of matches with other ids keeps the ids unique. */
  lemma ConsUnique(h: Match, rest: seq<Match>)
    requires UniqueIds(rest)
    requires forall m :: m in rest ==> m.id != h.id
    ensures UniqueIds([h] + rest)
  {
    var r := [h] + rest;
    forall i, j | 0 <= i < j < |r| ensures r[i].id != r[j].id {
      assert r[j] == rest[j - 1];
      if i > 0 {
        assert r[i] == rest[i - 1];
      } else {
        assert r[j] in rest;
      }
    }
  }

  /** The tail of a list of unique ids has unique ids, none of them the head's. */
  lemma UniqueTail(ms: seq<Match>)
    requires |ms| > 0 && UniqueIds(ms)
    ensures UniqueIds(ms[1..])
    ensures forall m :: m in ms[1..] ==> m.id != ms[0].id
  {
    var t := ms[1..];
    forall i, j | 0 <= i < j < |t| ensures t[i].id != t[j].id {
      assert t[i] == ms[i + 1] && t[j] == ms[j + 1];
    }
    forall m | m in t ensures m.id != ms[0].id {
      var j :| 0 <= j < |t| && t[j] == m;
      assert ms[j + 1] == m;
    }
  }

  /** Deleting keeps the ids unique. */
  lemma {:induction false} DeleteMatchUnique(ms: seq<Match>, id: MatchId)
    requires UniqueIds(ms)
    ensures UniqueIds(DeleteMatch(ms, id))
  {
    if |ms| > 0 {
      UniqueTail(ms);
      DeleteMatchUnique(ms[1..], id);
      if ms[0].id != id {
        ConsUnique(ms[0], DeleteMatch(ms[1..], id));
      }
    }
  }

  /** Index of the first match (in insertion order) that `socket` is in. */
  function FindMatchWith(ms: seq<Match>, socket: SocketId): (r: Option<nat>)
    ensures r.Some? ==> r.value < |ms| && socket in ms[r.value].players
    ensures r.Some? ==> forall k :: 0 <= k < r.value ==> socket !in ms[k].players
    ensures r.None? <==> forall k :: 0 <= k < |ms| ==> socket !in ms[k].players
  {
    if |ms| == 0 then None
    else if socket in ms[0].players then Some(0)
    else match FindMatchWith(ms[1..], socket)
      case None => None
      case Some(k) => Some(k + 1)
  }

  /** No two pending matches share an id. */
  predicate UniqueIds(ms: seq<Match>)
  {
    forall i, j :: 0 <= i < j < |ms| ==> ms[i].id != ms[j].id
  }

  // ---------------------------------------------------------------------
  // The queue

  /** Queues `socket` unless it is already queued; the service then tries
      to pair. */
  function AddToQueue(l: Lobby, socket: SocketId, now: int): (r: Outcome)
    ensures socket in l.queue ==> r == Outcome(l, [])
    ensures socket !in l.queue ==> r == TryMatchPlayers(l.(queue := l.queue + [socket]), now)
  {
    if socket in l.queue then Outcome(l, [])
    else TryMatchPlayers(l.(queue := l.queue + [socket]), now)
  }

  /** Takes `socket` out of the queue if it is there; the others keep
      their order, and the matches are untouched. */
  function RemoveFromQueue(l: Lobby, socket: SocketId): (r: Lobby)
    ensures socket !in l.queue ==> r == l
    ensures socket in l.queue ==> exists i :: (0 <= i < |l.queue| && l.queue[i] == socket
      && socket !in l.queue[..i] && r.queue == l.queue[..i] + l.queue[i + 1..])
    ensures r.matches == l.matches && r.nextId == l.nextId
    ensures Distinct(l.queue) ==> socket !in r.queue && Distinct(r.queue)
    ensures forall s :: s in r.queue <==> s in l.queue && (s != socket || multiset(l.queue)[socket] > 1)
  {
    match IndexOf(l.queue, socket)
    case None => l
    case Some(i) =>
      RemoveAtSplice(l.queue, i);
      RemoveAtMembers(l.queue, i);
      assert Distinct(l.queue) ==> socket !in RemoveAt(l.queue, i) && Distinct(RemoveAt(l.queue, i)) by {
        if Distinct(l.queue) {
          RemoveAtDistinct(l.queue, i);
        }
      }
      assert socket !in l.queue[..i] by {
        forall k | 0 <= k < i ensures l.queue[..i][k] != socket {
          assert l.queue[..i][k] == l.queue[k];
        }
      }
      l.(queue := RemoveAt(l.queue, i))
  }

  /** A new match of the two sockets at the front of the queue under id
      `id`: it starts `CountdownSeconds` after `now`, and both players
      are told so. The match is stored with map `set` semantics. */
  function Pair(l: Lobby, id: MatchId, now: int): (r: Outcome)
    requires |l.queue| >= 2
    ensures r.lobby.queue == l.queue[2..] && r.lobby.nextId == l.nextId
    ensures r.lobby.matches == SetMatch(l.matches, Match(id, l.queue[..2], now + CountdownSeconds * 1000, false))
    ensures r.notices == [MatchFound(l.queue[0], id, now + 5000, 5), MatchFound(l.queue[1], id, now + 5000, 5)]
  {
    var startTime := now + CountdownSeconds * 1000;
    var m := Match(id, [l.queue[0], l.queue[1]], startTime, false);
    assert [l.queue[0], l.queue[1]] == l.queue[..2];
    Outcome(l.(queue := l.queue[2..], matches := SetMatch(l.matches, m)),
            [MatchFound(l.queue[0], id, startTime, CountdownSeconds),
             MatchFound(l.queue[1], id, startTime, CountdownSeconds)])
  }

  /** Pairs the queue two at a time from the front, as long as two are
      waiting, each match under a fresh id. */
  function TryMatchPlayers(l: Lobby, now: int): (r: Outcome)
    ensures |r.lobby.queue| < 2
    ensures r.lobby.queue == l.queue[|l.queue| / 2 * 2..]
    ensures r.lobby.nextId == l.nextId + |l.queue| / 2
    ensures |r.notices| == |l.queue| / 2 * 2
    decreases |l.queue|
  {
    if |l.queue| < 2 then Outcome(l, [])
    else
      var o := Pair(l, l.nextId, now);
      var rest := TryMatchPlayers(o.lobby.(nextId := l.nextId + 1), now);
      Outcome(rest.lobby, o.notices + rest.notices)
  }

  // ---------------------------------------------------------------------
  // Cancelling and starting

  /** The cancelled notice for each player, in order. */
  function CancelNotices(players: seq<SocketId>): (r: seq<Notice>)
    ensures |r| == |players|
    ensures forall k :: 0 <= k < |r| ==> r[k] == MatchCancelled(players[k])
  {
    if |players| == 0 then [] else [MatchCancelled(players[0])] + CancelNotices(players[1..])
  }

  /** Cancels the first pending match `socket` is in: both players are
      told and the match is dropped. Nobody is queued again. A socket in
      no match changes nothing. */
  function CancelMatch(l: Lobby, socket: SocketId): (r: Outcome)
    ensures (forall k :: 0 <= k < |l.matches| ==> socket !in l.matches[k].players) <==> r == Outcome(l, [])
    ensures r.lobby.queue == l.queue && r.lobby.nextId == l.nextId
    ensures (exists k :: 0 <= k < |l.matches| && socket in l.matches[k].players) ==> r.notices != []
    ensures r.notices != [] ==> exists k :: (0 <= k < |l.matches| && socket in l.matches[k].players
      && (forall j :: 0 <= j < k ==> socket !in l.matches[j].players)
      && r.notices == CancelNotices(l.matches[k].players)
      && r.lobby.matches == DeleteMatch(l.matches, l.matches[k].id))
  {
    match FindMatchWith(l.matches, socket)
    case None => Outcome(l, [])
    case Some(k) =>
      var m := l.matches[k];
      assert m.players != [] by { assert socket in m.players; }
      Outcome(l.(matches := DeleteMatch(l.matches, m.id)), CancelNotices(m.players))
  }

  /** The first player other than `socket`, if any. */
  function Opponent(players: seq<SocketId>, socket: SocketId): (r: Option<SocketId>)
    ensures r.Some? ==> r.value in players && r.value != socket
    ensures r.None? <==> forall k :: 0 <= k < |players| ==> players[k] == socket
  {
    if |players| == 0 then None
    else if players[0] != socket then Some(players[0])
    else Opponent(players[1..], socket)
  }

  /** The game-start notice for each player, naming the opponent. */
  function StartNotices(id: MatchId, players: seq<SocketId>, all: seq<SocketId>): (r: seq<Notice>)
    ensures |r| == |players|
    ensures forall k :: 0 <= k < |r| ==> r[k] == GameStart(players[k], id, Opponent(all, players[k]))
  {
    if |players| == 0 then []
    else [GameStart(players[0], id, Opponent(all, players[0]))] + StartNotices(id, players[1..], all)
  }

  /** The countdown of match `id` running out: if that match is still
      pending and not cancelled, its players are told the game starts and
      it is dropped; otherwise nothing happens. */
  function Fire(l: Lobby, id: MatchId): (r: Outcome)
    ensures (forall k :: 0 <= k < |l.matches| ==> l.matches[k].id != id) ==> r == Outcome(l, [])
    ensures r.lobby.queue == l.queue && r.lobby.nextId == l.nextId
    ensures r.notices != [] ==> exists k :: (0 <= k < |l.matches| && l.matches[k].id == id
      && !l.matches[k].cancelled
      && r.notices == StartNotices(id, l.matches[k].players, l.matches[k].players)
      && r.lobby.matches == DeleteMatch(l.matches, id))
  {
    match FindMatch(l.matches, id)
    case None => Outcome(l, [])
    case Some(k) =>
      var m := l.matches[k];
      if m.cancelled then Outcome(l, [])
      else Outcome(l.(matches := DeleteMatch(l.matches, id)), StartNotices(id, m.players, m.players))
  }

  /** Pairing is first-come-first-served: when the ids from `nextId` on
      are unused, the queue's first two sockets form the first new match,
      the next two the second, and so on, each under the next id and
      starting `CountdownSeconds` after `now`; the pending matches stay in
      front, untouched. */
  lemma {:induction false} TryMatchPlayersFifo(l: Lobby, now: int)
    requires forall k :: 0 <= k < |l.matches| ==> l.matches[k].id < l.nextId
    ensures var r := TryMatchPlayers(l, now).lobby;
      && |r.matches| == |l.matches| + |l.queue| / 2
      && r.matches[..|l.matches|] == l.matches
      && forall j :: 0 <= j < |l.queue| / 2 ==>
           r.matches[|l.matches| + j] == Match(l.nextId + j, l.queue[2 * j..2 * j + 2], now + 5000, false)
    decreases |l.queue|
  {
    if |l.queue| >= 2 {
      var m0 := Match(l.nextId, l.queue[..2], now + 5000, false);
      var next := Lobby(l.queue[2..], l.matches + [m0], l.nextId + 1);
      PairStep(l, now);
      TryMatchPlayersFifo(next, now);
      FifoStep(l, next, m0, TryMatchPlayers(next, now).lobby.matches, now);
    }
  }

  /** One pairing step: the front two become a match under the next id. */
  lemma PairStep(l: Lobby, now: int)
    requires |l.queue| >= 2
    requires forall k :: 0 <= k < |l.matches| ==> l.matches[k].id < l.nextId
    ensures var m0 := Match(l.nextId, l.queue[..2], now + 5000, false);
      var next := Lobby(l.queue[2..], l.matches + [m0], l.nextId + 1);
      && TryMatchPlayers(l, now).lobby == TryMatchPlayers(next, now).lobby
      && forall k :: 0 <= k < |next.matches| ==> next.matches[k].id < next.nextId
  {
    assert FindMatch(l.matches, l.nextId).None?;
    var m0 := Match(l.nextId, l.queue[..2], now + 5000, false);
    var ms := l.matches + [m0];
    forall k | 0 <= k < |ms| ensures ms[k].id < l.nextId + 1 {
      if k < |l.matches| { assert ms[k] == l.matches[k]; }
    }
  }

  /** The matches after the rest of the queue is paired, seen from the
      whole queue. */
  lemma FifoStep(l: Lobby, next: Lobby, m0: Match, rs: seq<Match>, now: int)
    requires |l.queue| >= 2 && m0 == Match(l.nextId, l.queue[..2], now + 5000, false)
    requires next == Lobby(l.queue[2..], l.matches + [m0], l.nextId + 1)
    requires |rs| == |next.matches| + |next.queue| / 2
    requires rs[..|next.matches|] == next.matches
    requires forall j :: 0 <= j < |next.queue| / 2 ==>
      rs[|next.matches| + j] == Match(next.nextId + j, next.queue[2 * j..2 * j + 2], now + 5000, false)
    ensures |rs| == |l.matches| + |l.queue| / 2
    ensures rs[..|l.matches|] == l.matches
    ensures forall j :: 0 <= j < |l.queue| / 2 ==>
      rs[|l.matches| + j] == Match(l.nextId + j, l.queue[2 * j..2 * j + 2], now + 5000, false)
  {
    var n, q := |l.matches|, l.queue;
    assert rs[..n] == rs[..n + 1][..n];
    forall j | 0 <= j < |q| / 2
      ensures rs[n + j] == Match(l.nextId + j, q[2 * j..2 * j + 2], now + 5000, false)
    {
      if j == 0 {
        assert rs[n] == rs[..n + 1][n];
      } else {
        assert next.queue[2 * (j - 1)..2 * (j - 1) + 2] == q[2 * j..2 * j + 2];
        assert rs[|next.matches| + (j - 1)] == rs[n + j];
      }
    }
  }



  // ---------------------------------------------------------------------
  // Invariant

  /** The state between operations: nobody queued twice, at most one
      socket left waiting, pending matches of two players each under
      distinct ids below `nextId`, none of them cancelled, and no match
      pairing a socket with itself. */
  predicate Good(l: Lobby)
  {
    && Distinct(l.queue) && |l.queue| < 2
    && UniqueIds(l.matches)
    && (forall k :: 0 <= k < |l.matches| ==> l.matches[k].id < l.nextId)
    && (forall k :: 0 <= k < |l.matches| ==> !l.matches[k].cancelled && |l.matches[k].players| == 2)
    && (forall k :: 0 <= k < |l.matches| ==> l.matches[k].players[0] != l.matches[k].players[1])
  }

  lemma EmptyLobbyGood()
    ensures Good(EmptyLobby)
  {
  }

  /** Adding to a valid lobby: a queued socket changes nothing; otherwise
      the newcomer waits alone if the queue was empty, and else is paired
      with the one waiting socket in a new match under the next id, both
      being told. The pending matches are kept, and the lobby stays valid. */
  lemma AddToQueueSpec(l: Lobby, socket: SocketId, now: int)
    requires Good(l)
    ensures var r := AddToQueue(l, socket, now);
      && Good(r.lobby)
      && (socket in l.queue ==> r == Outcome(l, []))
      && (socket !in l.queue && |l.queue| == 0 ==>
            r == Outcome(l.(queue := [socket]), []))
      && (socket !in l.queue && |l.queue| == 1 ==>
            && r.lobby.queue == []
            && r.lobby.nextId == l.nextId + 1
            && r.lobby.matches == l.matches + [Match(l.nextId, [l.queue[0], socket], now + 5000, false)]
            && r.notices == [MatchFound(l.queue[0], l.nextId, now + 5000, 5),
                             MatchFound(socket, l.nextId, now + 5000, 5)])
  {
    if socket !in l.queue {
      var l1 := l.(queue := l.queue + [socket]);
      if |l.queue| == 1 {
        assert FindMatch(l1.matches, l.nextId).None?;
        var o := Pair(l1, l.nextId, now);
        assert l1.queue[..2] == [l.queue[0], socket];
        var m := Match(l.nextId, [l.queue[0], socket], now + 5000, false);
        assert o.lobby.matches == l.matches + [m];
        var next := o.lobby.(nextId := l.nextId + 1);
        assert TryMatchPlayers(next, now) == Outcome(next, []);
        var r := AddToQueue(l, socket, now);
        assert r.lobby.matches == l.matches + [m];
        forall i, j | 0 <= i < j < |r.lobby.matches| ensures r.lobby.matches[i].id != r.lobby.matches[j].id {
          if j < |l.matches| {
            assert r.lobby.matches[i] == l.matches[i] && r.lobby.matches[j] == l.matches[j];
          } else {
            assert r.lobby.matches[i] == l.matches[i];
          }
        }
        assert Good(r.lobby);
      } else {
        assert l1.queue == [socket];
      }
    }
  }

  /** Leaving the queue keeps the lobby valid and takes the socket out. */
  lemma RemoveFromQueueSpec(l: Lobby, socket: SocketId)
    requires Good(l)
    ensures Good(RemoveFromQueue(l, socket))
    ensures socket !in RemoveFromQueue(l, socket).queue
  {
  }

  /** Cancelling keeps the lobby valid. */
  lemma CancelMatchPreserves(l: Lobby, socket: SocketId)
    requires Good(l)
    ensures Good(CancelMatch(l, socket).lobby)
  {
    var r := CancelMatch(l, socket);
    if FindMatchWith(l.matches, socket).Some? {
      DeleteMatchUnique(l.matches, l.matches[FindMatchWith(l.matches, socket).value].id);
    }
    forall k | 0 <= k < |r.lobby.matches|
      ensures r.lobby.matches[k].id < l.nextId && !r.lobby.matches[k].cancelled
      ensures |r.lobby.matches[k].players| == 2
    {
      assert r.lobby.matches[k] in l.matches;
    }
  }

  /** A game start keeps the lobby valid. */
  lemma FirePreserves(l: Lobby, id: MatchId)
    requires Good(l)
    ensures Good(Fire(l, id).lobby)
  {
    var r := Fire(l, id);
    DeleteMatchUnique(l.matches, id);
    forall k | 0 <= k < |r.lobby.matches|
      ensures r.lobby.matches[k].id < l.nextId && !r.lobby.matches[k].cancelled
      ensures |r.lobby.matches[k].players| == 2
    {
      assert r.lobby.matches[k] in l.matches;
    }
  }

  /** Once a match is cancelled its countdown running out does nothing. */
  lemma FireAfterCancel(l: Lobby, socket: SocketId)
    requires FindMatchWith(l.matches, socket).Some?
    ensures var id := l.matches[FindMatchWith(l.matches, socket).value].id;
      var c := CancelMatch(l, socket);
      Fire(c.lobby, id) == Outcome(c.lobby, [])
  {
    var id := l.matches[FindMatchWith(l.matches, socket).value].id;
    var c := CancelMatch(l, socket);
    forall k | 0 <= k < |c.lobby.matches| ensures c.lobby.matches[k].id != id {
      assert c.lobby.matches[k] in c.lobby.matches;
    }
  }

  /** Firing a valid lobby's match tells each of its two players that the
      game starts against the other, and the match is gone. */
  lemma FireStartsBoth(l: Lobby, k: nat)
    requires Good(l) && k < |l.matches|
    ensures var m := l.matches[k];
      Fire(l, m.id).notices == [GameStart(m.players[0], m.id, Some(m.players[1])),
                                GameStart(m.players[1], m.id, Some(m.players[0]))]
    ensures var id := l.matches[k].id;
      forall j :: 0 <= j < |Fire(l, id).lobby.matches| ==> Fire(l, id).lobby.matches[j].id != id
  {
    var m := l.matches[k];
    assert FindMatch(l.matches, m.id) == Some(k) by {
      var f := FindMatch(l.matches, m.id);
      assert f.Some?;
      assert l.matches[f.value].id == m.id;
    }
    var ps := m.players;
    assert ps == [ps[0], ps[1]];
    assert Opponent(ps, ps[0]) == Some(ps[1]);
    assert Opponent(ps, ps[1]) == Some(ps[0]) by {
      assert ps[0] != ps[1];
      assert ps[1..] == [ps[1]];
    }
    var ns := StartNotices(m.id, ps, ps);
    assert ns == [GameStart(ps[0], m.id, Some(ps[1])), GameStart(ps[1], m.id, Some(ps[0]))];
    var r := Fire(l, m.id);
    assert r.lobby.matches == DeleteMatch(l.matches, m.id);
    forall j | 0 <= j < |r.lobby.matches| ensures r.lobby.matches[j].id != m.id {
      assert r.lobby.matches[j] in r.lobby.matches;
    }
  }

  // ---------------------------------------------------------------------
  // Match ids taken from the clock

  /** The pairing loop as the service writes it: every match formed in
      the millisecond `now` gets the id `now`. */
  function TryMatchPlayersAsWritten(l: Lobby, now: int): (r: Outcome)
    ensures |r.lobby.queue| < 2
    ensures r.lobby.queue == l.queue[|l.queue| / 2 * 2..]
    ensures |r.notices| == |l.queue| / 2 * 2
    decreases |l.queue|
  {
    if |l.queue| < 2 then Outcome(l, [])
    else
      var o := Pair(l, now, now);
      var rest := TryMatchPlayersAsWritten(o.lobby, now);
      Outcome(rest.lobby, o.notices + rest.notices)
  }

  /** Joining the queue as the service writes it. */
  function AddToQueueAsWritten(l: Lobby, socket: SocketId, now: int): (r: Outcome)
    ensures socket in l.queue ==> r == Outcome(l, [])
    ensures socket !in l.queue ==> |r.lobby.queue| < 2
  {
    if socket in l.queue then Outcome(l, [])
    else TryMatchPlayersAsWritten(l.(queue := l.queue + [socket]), now)
  }

  /** With ids taken from the clock, four sockets joining in the same
      millisecond lose the first match: the second match overwrites it,
      so the first two players are in no pending match and never get a
      game start. */
  lemma SameMillisecondLosesMatch(a: SocketId, b: SocketId, c: SocketId, d: SocketId, now: int)
    requires a != b && a != c && a != d && b != c && b != d && c != d
    ensures var l1 := AddToQueueAsWritten(EmptyLobby, a, now).lobby;
      var l2 := AddToQueueAsWritten(l1, b, now).lobby;
      var l3 := AddToQueueAsWritten(l2, c, now).lobby;
      var l4 := AddToQueueAsWritten(l3, d, now).lobby;
      && l2.matches == [Match(now, [a, b], now + 5000, false)]
      && l4.matches == [Match(now, [c, d], now + 5000, false)]
      && (forall k :: 0 <= k < |l4.matches| ==> a !in l4.matches[k].players && b !in l4.matches[k].players)
  {
    var m0 := Match(now, [a, b], now + 5000, false);
    var m1 := Match(now, [c, d], now + 5000, false);
    AsWrittenFirstJoins(EmptyLobby, a, now);
    var l1 := AddToQueueAsWritten(EmptyLobby, a, now).lobby;
    AsWrittenSecondJoins(l1, a, b, now);
    var l2 := AddToQueueAsWritten(l1, b, now).lobby;
    assert l2.matches == [m0];
    AsWrittenFirstJoins(l2, c, now);
    var l3 := AddToQueueAsWritten(l2, c, now).lobby;
    AsWrittenSecondJoins(l3, c, d, now);
    var l4 := AddToQueueAsWritten(l3, d, now).lobby;
    assert FindMatch([m0], now) == Some(0);
    assert l4.matches == [m1];
  }

  /** As written, joining an empty queue only queues. */
  lemma AsWrittenFirstJoins(l: Lobby, x: SocketId, now: int)
    requires l.queue == []
    ensures AddToQueueAsWritten(l, x, now).lobby == l.(queue := [x])
  {
    assert (l.(queue := [x])) == l.(queue := l.queue + [x]);
  }

  /** As written, a second socket joining pairs the two under the id `now`. */
  lemma AsWrittenSecondJoins(l: Lobby, x: SocketId, y: SocketId, now: int)
    requires l.queue == [x] && x != y
    ensures AddToQueueAsWritten(l, y, now).lobby
         == l.(queue := [], matches := SetMatch(l.matches, Match(now, [x, y], now + 5000, false)))
  {
    var q := Lobby([x, y], l.matches, l.nextId);
    assert l.(queue := l.queue + [y]) == q;
    assert q.queue[..2] == [x, y];
    var o := Pair(q, now, now);
    assert o.lobby.queue == [];
    assert TryMatchPlayersAsWritten(o.lobby, now) == Outcome(o.lobby, []);
  }

  /** With a fresh id per match, the same four sockets end up in two
      pending matches, formed first-come-first-served. */
  lemma DistinctIdsKeepMatches(a: SocketId, b: SocketId, c: SocketId, d: SocketId, now: int)
    requires a != b && a != c && a != d && b != c && b != d && c != d
    ensures var l1 := AddToQueue(EmptyLobby, a, now).lobby;
      var l2 := AddToQueue(l1, b, now).lobby;
      var l3 := AddToQueue(l2, c, now).lobby;
      var l4 := AddToQueue(l3, d, now).lobby;
      && l4.queue == []
      && l4.matches == [Match(0, [a, b], now + 5000, false), Match(1, [c, d], now + 5000, false)]
  {
    var m0 := Match(0, [a, b], now + 5000, false);
    var m1 := Match(1, [c, d], now + 5000, false);
    EmptyLobbyGood();
    AddToQueueSpec(EmptyLobby, a, now);
    var l1 := AddToQueue(EmptyLobby, a, now).lobby;
    assert l1 == Lobby([a], [], 0);
    AddToQueueSpec(l1, b, now);
    var l2 := AddToQueue(l1, b, now).lobby;
    assert l2 == Lobby([], [m0], 1);
    AddToQueueSpec(l2, c, now);
    var l3 := AddToQueue(l2, c, now).lobby;
    assert l3 == Lobby([c], [m0], 1);
    AddToQueueSpec(l3, d, now);
    var l4 := AddToQueue(l3, d, now).lobby;
    assert l4 == Lobby([], [m0, m1], 2);
  }
}
