/** What stays true of the game service's state from operation to
    operation. The invariant is stated over `base`, the fixed contents of
    the catalog (any order of it): the service starts with `base` being
    the twenty catalog cards, and draws only ever reorder it. */
module GameInvariants {
  import opened Wrappers
  import opened Seqs
  import opened Cards
  import opened GameState
  import opened GamesService

  /** Every card of `s` is one of the catalog's. */
  predicate FromCatalog(s: seq<Card>, base: seq<Card>)
  {
    forall k :: 0 <= k < |s| ==> s[k] in base
  }

  /** A player of a live game: alive, within the starting health, never in
      debt, and holding catalog cards that, with the ones played this
      round, make a full hand. */
  predicate ValidPlayer(p: PlayerState, base: seq<Card>)
  {
    && 0 < p.hp <= Config.initialHp
    && p.coins >= 0
    && |p.cards| + |p.playedCards| == Config.initialCards
    && FromCatalog(p.cards, base) && FromCatalog(p.playedCards, base)
  }

  /** A registered game: unfinished, undecided, in round one or later. */
  predicate ValidGame(g: Game, base: seq<Card>)
  {
    && !g.isFinished && g.winnerId.None? && g.loserId.None?
    && g.round >= 1
    && ValidPlayer(g.players[0], base) && ValidPlayer(g.players[1], base)
  }

  /** The registry: every game is stored under its own id and is live;
      the scan order lists each registered id exactly once; the catalog
      is a rearrangement of `base`, large enough for a full hand. */
  predicate Valid(e: Engine, base: seq<Card>)
  {
    && (forall id :: id in e.games ==> e.games[id].id == id && ValidGame(e.games[id], base))
    && Distinct(e.order)
    && (forall id :: id in e.order ==> id in e.games)
    && (forall id :: id in e.games ==> id in e.order)
    && multiset(e.catalog) == multiset(base)
    && |base| >= Config.initialCards
  }

  /** The service starts with no games and the catalog in its initial
      order. */
  lemma InitialValid()
    ensures Valid(Engine(map[], [], AllCards), AllCards)
  {
    assert |AllCards| >= Config.initialCards by {
      CatalogShape();
    }
    var e := Engine(map[], [], AllCards);
    assert Distinct(e.order);
  }

  // ---------------------------------------------------------------------
  // Sums

  /** Catalog cards never deal negative damage or give negative defence. */
  lemma {:induction false} SumsNonNegative(s: seq<Card>)
    requires FromCatalog(s, AllCards)
    ensures Damage(s) >= 0 && Defence(s) >= 0
    decreases |s|
  {
    if |s| > 0 {
      CatalogCardStats(s[|s| - 1]);
      SumsNonNegative(s[..|s| - 1]);
    }
  }

  /** Defence only absorbs: with catalog cards on the table, a round
      costs a player at most the damage the opponent played. */
  lemma RoundLossBounded(g: Game, i: Seat)
    requires FromCatalog(g.players[0].playedCards, AllCards) && FromCatalog(g.players[1].playedCards, AllCards)
    ensures DealDamage(g).players[i].hp >= g.players[i].hp - Damage(g.players[Other(i)].playedCards)
  {
    SumsNonNegative(g.players[i].playedCards);
    SumsNonNegative(g.players[Other(i)].playedCards);
  }

  lemma CatalogCardStats(c: Card)
    requires c in AllCards
    ensures c.HasNonNegativeStats()
  {
    CatalogShape();
  }

  /** Cards taken from the front of a rearrangement of `base` are
      cards of `base`. */
  lemma PrefixOfCatalog(c: seq<Card>, s: seq<Card>, base: seq<Card>)
    requires multiset(c) == multiset(base) && |s| <= |c| && s == c[..|s|]
    ensures FromCatalog(s, base)
  {
    forall k | 0 <= k < |s| ensures s[k] in base {
      assert s[k] == c[k];
      assert s[k] in multiset(c);
    }
  }

  // ---------------------------------------------------------------------
  // Preservation

  /** Ending a game, found or not, keeps the registry valid. */
  lemma EndGamePreserves(e: Engine, gameId: GameId, winnerId: UserId, loserId: UserId, base: seq<Card>)
    requires Valid(e, base)
    ensures Valid(EndGame(e, gameId, winnerId, loserId).engine, base)
  {
  }

  /** A player starting a new round of a live game stays valid: the hand
      is refilled to a full hand of catalog cards and the catalog stays a
      rearrangement. */
  lemma StartRoundForPreserves(p: PlayerState, catalog: seq<Card>, swaps: seq<Swap>, base: seq<Card>)
    requires multiset(catalog) == multiset(base) && |base| >= Config.initialCards
    requires 0 < p.hp <= Config.initialHp && p.coins >= 0
    requires |p.cards| + |p.playedCards| == Config.initialCards && FromCatalog(p.cards, base)
    ensures ValidPlayer(StartRoundFor(p, catalog, swaps).0, base)
    ensures multiset(StartRoundFor(p, catalog, swaps).1) == multiset(base)
  {
    assert |catalog| == |multiset(catalog)| == |multiset(base)| == |base|;
    var drawn := GetRandomCards(catalog, Config.initialCards - |p.cards|, swaps);
    PrefixOfCatalog(drawn.catalog, drawn.cards, base);
    var r := StartRoundFor(p, catalog, swaps);
    assert r.0.cards == p.cards + drawn.cards;
    forall k | 0 <= k < |r.0.cards| ensures r.0.cards[k] in base {
      if k >= |p.cards| {
        assert r.0.cards[k] == drawn.cards[k - |p.cards|];
      }
    }
  }

  /** Resolving a round keeps the registry valid, whether the game ends
      or goes on. */
  lemma EndRoundPreserves(e: Engine, gameId: GameId, draws: Draws, base: seq<Card>)
    requires Valid(e, base) && gameId in e.games
    ensures Valid(EndRound(e, gameId, draws).engine, base)
  {
    var g := DealDamage(e.games[gameId]);
    var e1 := e.(games := e.games[gameId := g]);
    if g.players[0].hp == 0 || g.players[1].hp == 0 {
      var w := if g.players[0].hp > 0 then g.players[0].userId else g.players[1].userId;
      var l := if g.players[0].hp == 0 then g.players[0].userId else g.players[1].userId;
      assert e1.games - {gameId} == e.games - {gameId};
      assert EndGame(e1, gameId, w, l).engine == EndGame(e, gameId, w, l).engine;
      EndGamePreserves(e, gameId, w, l, base);
    } else {
      var s0 := StartRoundFor(g.players[0], e.catalog, draws.first);
      var s1 := StartRoundFor(g.players[1], s0.1, draws.second);
      StartRoundForPreserves(g.players[0], e.catalog, draws.first, base);
      StartRoundForPreserves(g.players[1], s0.1, draws.second, base);
      var r := NextRound(e1, gameId, draws);
      assert r.game.players[0] == s0.0 && r.game.players[1] == s1.0;
      assert r.engine.catalog == s1.1;
      assert ValidGame(r.game, base);
    }
  }

  /** Storing a valid game under its registered id keeps the registry
      valid. */
  lemma PutPreserves(e: Engine, gameId: GameId, g: Game, base: seq<Card>)
    requires Valid(e, base) && gameId in e.games && g.id == gameId && ValidGame(g, base)
    ensures Valid(e.(games := e.games[gameId := g]), base)
  {
  }

  /** A card the player can afford, played from a live game, leaves it
      live: coins stay non-negative and the cards stay four in all. */
  lemma PlayPreserves(g: Game, i: Seat, k: nat, base: seq<Card>)
    requires ValidGame(g, base) && k < |g.players[i].cards|
    requires g.players[i].cards[k].cost <= g.players[i].coins
    ensures ValidGame(Play(g, i, k), base)
  {
    var g' := Play(g, i, k);
    var p := g.players[i];
    var p' := g'.players[i];
    assert FromCatalog(p'.cards, base) by {
      forall j | 0 <= j < |p'.cards| ensures p'.cards[j] in base {
        assert p'.cards[j] in multiset(p.cards);
      }
    }
    assert FromCatalog(p'.playedCards, base) by {
      forall j | 0 <= j < |p'.playedCards| ensures p'.playedCards[j] in base {
        if j == |p.playedCards| {
          assert p'.playedCards[j] == p.cards[k];
        } else {
          assert p'.playedCards[j] == p.playedCards[j];
        }
      }
    }
    assert ValidPlayer(p', base);
    assert g'.players[Other(i)] == g.players[Other(i)];
    assert ValidPlayer(g'.players[0], base) && ValidPlayer(g'.players[1], base);
  }

  /** Playing a card keeps the registry valid. */
  lemma PlayCardPreserves(e: Engine, socket: SocketId, gameId: GameId, cardId: int, draws: Draws, base: seq<Card>)
    requires Valid(e, base)
    ensures PlayCard(e, socket, gameId, cardId, draws).Ok? ==>
      Valid(PlayCard(e, socket, gameId, cardId, draws).value.engine, base)
  {
    if gameId in e.games {
      var g := e.games[gameId];
      var seat := SeatOfSocket(g, socket);
      if seat.Some? && seat.value == g.currentPlayerIndex {
        var i := seat.value;
        var found := FindCard(g.players[i].cards, cardId);
        if found.Some? && g.players[i].cards[found.value].cost <= g.players[i].coins {
          var g' := Play(g, i, found.value);
          assert PlayCard(e, socket, gameId, cardId, draws)
            == Ok(Settle(e.(games := e.games[gameId := g']), gameId, draws));
          PlayPreserves(g, i, found.value, base);
          SettlePreserves(e, gameId, g', draws, base);
        }
      }
    }
  }

  /** Storing a live game and resolving its round if it is over keeps the
      registry valid. */
  lemma SettlePreserves(e: Engine, gameId: GameId, g: Game, draws: Draws, base: seq<Card>)
    requires Valid(e, base) && gameId in e.games && g.id == gameId && ValidGame(g, base)
    ensures Valid(Settle(e.(games := e.games[gameId := g]), gameId, draws).engine, base)
  {
    var e' := e.(games := e.games[gameId := g]);
    PutPreserves(e, gameId, g, base);
    if ShouldEndRound(g) {
      EndRoundPreserves(e', gameId, draws, base);
    }
  }

  /** A seat passing keeps the registry valid. */
  lemma PassSeatPreserves(e: Engine, gameId: GameId, i: Seat, draws: Draws, base: seq<Card>)
    requires Valid(e, base) && gameId in e.games
    ensures Valid(PassSeat(e, gameId, i, draws).engine, base)
  {
    var g := e.games[gameId];
    var g' := g.WithPlayer(i, g.players[i].(hasPassed := true));
    assert ValidGame(g', base) by {
      assert ValidPlayer(g'.players[0], base) && ValidPlayer(g'.players[1], base);
    }
    PutPreserves(e, gameId, g', base);
    if ShouldEndRound(g') {
      EndRoundPreserves(e.(games := e.games[gameId := g']), gameId, draws, base);
    } else {
      PutPreserves(e, gameId, g'.(currentPlayerIndex := Other(g'.currentPlayerIndex)), base);
    }
  }

  /** Passing the round keeps the registry valid. */
  lemma PassRoundPreserves(e: Engine, socket: SocketId, gameId: GameId, draws: Draws, base: seq<Card>)
    requires Valid(e, base)
    ensures PassRound(e, socket, gameId, draws).Ok? ==> Valid(PassRound(e, socket, gameId, draws).value.engine, base)
  {
    if gameId in e.games {
      var seat := SeatOfSocket(e.games[gameId], socket);
      if seat.Some? {
        PassSeatPreserves(e, gameId, seat.value, draws, base);
      }
    }
  }

  /** The turn timer firing keeps the registry valid. */
  lemma TimeoutPreserves(e: Engine, gameId: GameId, draws: Draws, base: seq<Card>)
    requires Valid(e, base)
    ensures Timeout(e, gameId, draws).Some? ==> Valid(Timeout(e, gameId, draws).value.value.engine, base)
  {
    if gameId in e.games && !e.games[gameId].isFinished {
      var g := e.games[gameId];
      PassRoundPreserves(e, g.players[g.currentPlayerIndex].socketId, gameId, draws, base);
    }
  }

  /** Joining keeps the registry valid. */
  lemma JoinGamePreserves(e: Engine, socket: SocketId, gameId: GameId, username: string, base: seq<Card>)
    requires Valid(e, base)
    ensures JoinGame(e, socket, gameId, username).Ok? ==> Valid(JoinGame(e, socket, gameId, username).value.engine, base)
  {
    if gameId in e.games {
      var g := e.games[gameId];
      var seat := SeatOfUsername(g, username);
      if seat.Some? {
        var g' := g.WithPlayer(seat.value, g.players[seat.value].(socketId := socket));
        assert ValidPlayer(g'.players[0], base) && ValidPlayer(g'.players[1], base);
        PutPreserves(e, gameId, g', base);
      }
    }
  }

  /** A disconnect keeps the registry valid. */
  lemma DisconnectPreserves(e: Engine, socket: SocketId, base: seq<Card>)
    requires Valid(e, base)
    ensures Valid(HandlePlayerDisconnect(e, socket).engine, base)
  {
    match FirstSeated(e, e.order, socket)
    case None =>
    case Some((k, i)) =>
      var g := e.games[e.order[k]];
      EndGamePreserves(e, e.order[k], g.players[Other(i)].userId, g.players[i].userId, base);
  }

  /** A new player drawn from a rearrangement of `base` is valid, and the
      catalog stays a rearrangement of `base`. */
  lemma NewPlayerValid(userId: UserId, username: Option<string>, catalog: seq<Card>, swaps: seq<Swap>,
                       base: seq<Card>)
    requires multiset(catalog) == multiset(base) && |base| >= Config.initialCards
    ensures ValidPlayer(NewPlayer(userId, username, catalog, swaps).0, base)
    ensures multiset(NewPlayer(userId, username, catalog, swaps).1) == multiset(base)
  {
    assert |catalog| == |multiset(catalog)| == |multiset(base)| == |base|;
    var r := NewPlayer(userId, username, catalog, swaps);
    PrefixOfCatalog(r.1, r.0.cards, base);
  }

  /** Starting a game keeps the registry valid. */
  lemma StartGamePreserves(e: Engine, gameId: GameId, player1: UserId, name1: Option<string>,
                           player2: UserId, name2: Option<string>, firstPlayer: Seat, draws: Draws,
                           base: seq<Card>)
    requires Valid(e, base)
    ensures Valid(StartGame(e, gameId, player1, name1, player2, name2, firstPlayer, draws).engine, base)
  {
    var first := NewPlayer(player1, name1, e.catalog, draws.first);
    NewPlayerValid(player1, name1, e.catalog, draws.first, base);
    NewPlayerValid(player2, name2, first.1, draws.second, base);
    var r := StartGame(e, gameId, player1, name1, player2, name2, firstPlayer, draws);
    assert ValidGame(r.game, base);
    if gameId !in e.games {
      assert gameId !in e.order;
      DistinctAppend(e.order, gameId);
    }
  }

  // ---------------------------------------------------------------------
  // Progress

  /** Seat `i` of `g2` is the same player as in `g`, with no more health. */
  predicate SeatAdvances(g: Game, g2: Game, i: Seat)
  {
    g2.players[i].userId == g.players[i].userId && g2.players[i].hp <= g.players[i].hp
  }

  /** `g2` is a later state of game `g`: same game and players, no
      earlier round, and nobody healed. */
  predicate Advances(g: Game, g2: Game)
  {
    g2.id == g.id && g2.round >= g.round && SeatAdvances(g, g2, 0) && SeatAdvances(g, g2, 1)
  }

  /** Resolving a round moves the game forward. */
  lemma EndRoundAdvances(e: Engine, gameId: GameId, draws: Draws)
    requires gameId in e.games
    requires e.games[gameId].players[0].hp >= 0 && e.games[gameId].players[1].hp >= 0
    ensures Advances(e.games[gameId], EndRound(e, gameId, draws).game)
  {
    var g := DealDamage(e.games[gameId]);
    var r := EndRound(e, gameId, draws);
    if g.players[0].hp != 0 && g.players[1].hp != 0 {
      var s0 := StartRoundFor(g.players[0], e.catalog, draws.first);
      var s1 := StartRoundFor(g.players[1], s0.1, draws.second);
      assert r.game.players[0] == s0.0 && r.game.players[1] == s1.0;
    }
  }

  /** When resolving a round ends the game, the winner and the loser are
      the two different seats, the loser has no health left, and the
      winner has some unless both were knocked out, in which case seat 1
      wins. */
  lemma KnockOutVerdict(e: Engine, gameId: GameId, draws: Draws)
    requires gameId in e.games && !e.games[gameId].isFinished
    ensures var r := EndRound(e, gameId, draws).game;
      r.isFinished ==> exists w: Seat, l: Seat ::
        && w != l
        && r.winnerId == Some(r.players[w].userId) && r.loserId == Some(r.players[l].userId)
        && r.players[l].hp == 0
        && (r.players[w].hp > 0 || w == 1)
  {
    var g := DealDamage(e.games[gameId]);
    var r := EndRound(e, gameId, draws);
    if g.players[0].hp == 0 || g.players[1].hp == 0 {
      var w: Seat := if g.players[0].hp > 0 then 0 else 1;
      assert r.game.players[Other(w)].hp == 0;
    }
  }

  /** A successful card play moves the game forward. */
  lemma PlayCardAdvances(e: Engine, socket: SocketId, gameId: GameId, cardId: int, draws: Draws, base: seq<Card>)
    requires Valid(e, base)
    ensures PlayCard(e, socket, gameId, cardId, draws).Ok? ==>
      gameId in e.games && Advances(e.games[gameId], PlayCard(e, socket, gameId, cardId, draws).value.game)
  {
    if gameId in e.games {
      var g := e.games[gameId];
      var seat := SeatOfSocket(g, socket);
      if seat.Some? && seat.value == g.currentPlayerIndex {
        var i := seat.value;
        var found := FindCard(g.players[i].cards, cardId);
        if found.Some? && g.players[i].cards[found.value].cost <= g.players[i].coins {
          var g' := Play(g, i, found.value);
          PlayPreserves(g, i, found.value, base);
          var e' := e.(games := e.games[gameId := g']);
          PutPreserves(e, gameId, g', base);
          if ShouldEndRound(g') {
            EndRoundAdvances(e', gameId, draws);
          }
        }
      }
    }
  }

  /** A successful pass moves the game forward. */
  lemma PassRoundAdvances(e: Engine, socket: SocketId, gameId: GameId, draws: Draws, base: seq<Card>)
    requires Valid(e, base)
    ensures PassRound(e, socket, gameId, draws).Ok? ==>
      gameId in e.games && Advances(e.games[gameId], PassRound(e, socket, gameId, draws).value.game)
  {
    if gameId in e.games {
      var g := e.games[gameId];
      var seat := SeatOfSocket(g, socket);
      if seat.Some? {
        var i := seat.value;
        var g' := g.WithPlayer(i, g.players[i].(hasPassed := true));
        assert ValidGame(g', base) by {
          assert ValidPlayer(g'.players[0], base) && ValidPlayer(g'.players[1], base);
        }
        PutPreserves(e, gameId, g', base);
        if ShouldEndRound(g') {
          EndRoundAdvances(e.(games := e.games[gameId := g']), gameId, draws);
        }
      }
    }
  }
}
