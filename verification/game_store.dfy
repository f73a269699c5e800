/** The standalone store of live game states: a map from game id to game
    that remembers the order in which ids were first stored. */
module GameStore {
  import opened Wrappers
  import opened Seqs
  import opened GameState

  /** `order` lists each stored id once, in first-insertion order. */
  datatype Store = Store(games: map<GameId, Game>, order: seq<GameId>)

  /** Each stored id appears in the order once, and the order lists only
      stored ids. */
  predicate WellFormed(s: Store)
  {
    && Distinct(s.order)
    && (forall id :: id in s.order ==> id in s.games)
    && (forall id :: id in s.games ==> id in s.order)
  }

  const Empty := Store(map[], [])

  /** Stores `g` under `gameId`, replacing any game already there while
      keeping that id's place in the order. */
  function SetGame(s: Store, gameId: GameId, g: Game): (r: Store)
    ensures gameId in r.games && r.games[gameId] == g
    ensures forall id :: id != gameId ==> (id in r.games <==> id in s.games)
    ensures forall id :: id != gameId && id in s.games ==> r.games[id] == s.games[id]
    ensures gameId in s.order ==> r.order == s.order
    ensures gameId !in s.order ==> r.order == s.order + [gameId]
  {
    Store(s.games[gameId := g], if gameId in s.order then s.order else s.order + [gameId])
  }

  /** The game stored under `gameId`, if any. */
  function GetGame(s: Store, gameId: GameId): (r: Option<Game>)
    ensures r.Some? <==> gameId in s.games
    ensures r.Some? ==> r.value == s.games[gameId]
  {
    if gameId in s.games then Some(s.games[gameId]) else None
  }

  /** Forgets the game stored under `gameId`; an absent id is ignored. */
  function DeleteGame(s: Store, gameId: GameId): (r: Store)
    ensures gameId !in r.games && gameId !in r.order
    ensures forall id :: id != gameId ==> (id in r.games <==> id in s.games)
    ensures forall id :: id != gameId && id in s.games ==> r.games[id] == s.games[id]
    ensures gameId !in s.games && gameId !in s.order ==> r == s
    ensures r.order == Without(s.order, gameId)
  {
    if gameId !in s.games && gameId !in s.order then WithoutAbsent(s.order, gameId); s
    else Store(s.games - {gameId}, Without(s.order, gameId))
  }

  /** Whether a game is stored under `gameId`. */
  function HasGame(s: Store, gameId: GameId): (r: bool)
    ensures r <==> GetGame(s, gameId).Some?
  {
    gameId in s.games
  }

  /** The entries of `games` for the ids in `ids`, in that order. */
  function Entries(games: map<GameId, Game>, ids: seq<GameId>): (r: seq<(GameId, Game)>)
    requires forall k :: 0 <= k < |ids| ==> ids[k] in games
    ensures |r| == |ids|
    ensures forall k :: 0 <= k < |r| ==> r[k] == (ids[k], games[ids[k]])
  {
    if |ids| == 0 then [] else [(ids[0], games[ids[0]])] + Entries(games, ids[1..])
  }

  lemma OrderHoldsKeys(s: Store)
    requires WellFormed(s)
    ensures forall k :: 0 <= k < |s.order| ==> s.order[k] in s.games
  {
    forall k | 0 <= k < |s.order| ensures s.order[k] in s.games {
      var id := s.order[k];
      assert id in s.order;
    }
  }

  /** Every stored game, in first-insertion order of its id. */
  function GetAllGames(s: Store): (r: seq<(GameId, Game)>)
    requires WellFormed(s)
    ensures |r| == |s.order|
    ensures forall k :: 0 <= k < |r| ==> r[k].0 == s.order[k] && GetGame(s, r[k].0) == Some(r[k].1)
    ensures forall id :: HasGame(s, id) ==> exists k :: 0 <= k < |r| && r[k].0 == id
  {
    OrderHoldsKeys(s);
    var r := Entries(s.games, s.order);
    assert forall id :: id in s.order ==> exists k :: 0 <= k < |r| && r[k].0 == id by {
      forall id | id in s.order ensures exists k :: 0 <= k < |r| && r[k].0 == id {
        var k :| 0 <= k < |s.order| && s.order[k] == id;
        assert r[k].0 == id;
      }
    }
    r
  }

  /** Reading back: a game just stored is the one found, and storing does
      not disturb the other ids. */
  lemma GetAfterSet(s: Store, gameId: GameId, g: Game, other: GameId)
    ensures GetGame(SetGame(s, gameId, g), gameId) == Some(g)
    ensures other != gameId ==> GetGame(SetGame(s, gameId, g), other) == GetGame(s, other)
  {
  }

  /** A deleted game is gone, and deleting does not disturb other ids. */
  lemma GetAfterDelete(s: Store, gameId: GameId, other: GameId)
    ensures GetGame(DeleteGame(s, gameId), gameId).None?
    ensures other != gameId ==> GetGame(DeleteGame(s, gameId), other) == GetGame(s, other)
  {
  }

  /** Deleting a game just stored under a fresh id gives back the store. */
  lemma DeleteUndoesSet(s: Store, gameId: GameId, g: Game)
    requires WellFormed(s) && gameId !in s.games
    ensures DeleteGame(SetGame(s, gameId, g), gameId) == s
  {
    assert gameId !in s.order;
    WithoutAppended(s.order, gameId);
    assert SetGame(s, gameId, g).games - {gameId} == s.games;
  }

  /** The operations keep the store well formed. */
  lemma OperationsPreserve(s: Store, gameId: GameId, g: Game)
    requires WellFormed(s)
    ensures WellFormed(SetGame(s, gameId, g))
    ensures WellFormed(DeleteGame(s, gameId))
  {
    var r := SetGame(s, gameId, g);
    if gameId !in s.order {
      forall i, j | 0 <= i < j < |r.order| ensures r.order[i] != r.order[j] {
        assert r.order[i] == s.order[i];
        if j < |s.order| {
          assert r.order[j] == s.order[j];
        }
      }
    }
  }
}
