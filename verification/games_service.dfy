/** The game service: the registry of live games and the transitions a
    game goes through — joining, playing a card, passing, the turn
    timeout, round resolution, and the end of a game. Each operation is
    atomic; randomness (the catalog shuffles) is an explicit parameter. */
module GamesService {
  import opened Wrappers
  import opened Seqs
  import opened Cards
  import opened GameState

  /** The service's errors; a failed operation changes nothing. */
  datatype GameError =
    | GameNotFound(gameId: GameId)
    | PlayerNotFound(username: string)
    | NotYourTurn
    | CardNotFound(cardId: int)
    | NotEnoughCoins(required: int, available: int)

  /** The service's state: the live games by id, the order in which they
      were registered (the order the registry is scanned in), and the card
      catalog's current order, which every draw reshuffles. */
  datatype Engine = Engine(games: map<GameId, Game>, order: seq<GameId>, catalog: seq<Card>)

  /** The state after an operation, and the game it hands back. */
  datatype Step = Step(engine: Engine, game: Game)

  /** The outcome of ending a game: the new state and the finished game,
      if there was one to end. */
  datatype Ended = Ended(engine: Engine, game: Option<Game>)

  /** The shuffles used by the (at most two) draws of one operation, in
      the order the draws happen: seat 0's first. */
  datatype Draws = Draws(first: seq<Swap>, second: seq<Swap>)

  // ---------------------------------------------------------------------
  // Lookups

  /** The first seat whose socket is `socket`. */
  function SeatOfSocket(g: Game, socket: SocketId): (r: Option<Seat>)
    ensures r.Some? ==> g.players[r.value].socketId == socket
    ensures r == Some(1) ==> g.players[0].socketId != socket
    ensures r.None? <==> g.players[0].socketId != socket && g.players[1].socketId != socket
  {
    if g.players[0].socketId == socket then Some(0)
    else if g.players[1].socketId == socket then Some(1)
    else None
  }

  /** The first seat whose username is `username`. */
  function SeatOfUsername(g: Game, username: string): (r: Option<Seat>)
    ensures r.Some? ==> g.players[r.value].username == username
    ensures r == Some(1) ==> g.players[0].username != username
    ensures r.None? <==> g.players[0].username != username && g.players[1].username != username
  {
    if g.players[0].username == username then Some(0)
    else if g.players[1].username == username then Some(1)
    else None
  }

  /** Index of the first card in `cards` with id `cardId`. */
  function FindCard(cards: seq<Card>, cardId: int): (r: Option<nat>)
    ensures r.Some? ==> r.value < |cards| && cards[r.value].id == cardId
    ensures r.Some? ==> forall k :: 0 <= k < r.value ==> cards[k].id != cardId
    ensures r.None? <==> forall k :: 0 <= k < |cards| ==> cards[k].id != cardId
  {
    if |cards| == 0 then None
    else if cards[0].id == cardId then Some(0)
    else match FindCard(cards[1..], cardId)
      case None => None
      case Some(k) => Some(k + 1)
  }

  // ---------------------------------------------------------------------
  // The registry

  /** Ends a game: it is marked finished with the given winner and loser
      and removed from the registry. An id not in the registry is ignored. */
  function EndGame(e: Engine, gameId: GameId, winnerId: UserId, loserId: UserId): (r: Ended)
    ensures gameId !in e.games ==> r == Ended(e, None)
    ensures gameId in e.games ==>
      && r.game.Some?
      && r.game.value.isFinished
      && r.game.value.winnerId == Some(winnerId) && r.game.value.loserId == Some(loserId)
      && r.game.value == e.games[gameId].(isFinished := true, winnerId := Some(winnerId), loserId := Some(loserId))
      && gameId !in r.engine.games && gameId !in r.engine.order
    ensures gameId in e.games ==> r.engine.order == Without(e.order, gameId)
    ensures forall id :: id != gameId ==>
      (id in r.engine.games <==> id in e.games) && (id in r.engine.order <==> id in e.order)
    ensures forall id :: id != gameId && id in e.games ==> r.engine.games[id] == e.games[id]
    ensures r.engine.catalog == e.catalog
  {
    if gameId !in e.games then Ended(e, None)
    else
      var g := e.games[gameId].(isFinished := true, winnerId := Some(winnerId), loserId := Some(loserId));
      Ended(Engine(e.games - {gameId}, Without(e.order, gameId), e.catalog), Some(g))
  }

  // ---------------------------------------------------------------------
  // Round resolution

  /** The total damage of `cards`, summed left to right from zero. */
  function Damage(cards: seq<Card>): (r: int)
    ensures |cards| == 0 ==> r == 0
    ensures |cards| == 1 ==> r == cards[0].damage
  {
    if |cards| == 0 then 0 else Damage(cards[..|cards| - 1]) + cards[|cards| - 1].damage
  }

  /** The total defence of `cards`, summed left to right from zero. */
  function Defence(cards: seq<Card>): (r: int)
    ensures |cards| == 0 ==> r == 0
    ensures |cards| == 1 ==> r == cards[0].defence
  {
    if |cards| == 0 then 0 else Defence(cards[..|cards| - 1]) + cards[|cards| - 1].defence
  }

  /** Damage adds up over concatenation; with the one-card case this
      fixes `Damage` as the sum of the cards' damage. */
  lemma {:induction false} DamageAppend(a: seq<Card>, b: seq<Card>)
    ensures Damage(a + b) == Damage(a) + Damage(b)
    decreases |b|
  {
    if |b| == 0 {
      assert a + b == a;
    } else {
      assert (a + b)[..|a + b| - 1] == a + b[..|b| - 1];
      DamageAppend(a, b[..|b| - 1]);
    }
  }

  /** Defence adds up over concatenation; with the one-card case this
      fixes `Defence` as the sum of the cards' defence. */
  lemma {:induction false} DefenceAppend(a: seq<Card>, b: seq<Card>)
    ensures Defence(a + b) == Defence(a) + Defence(b)
    decreases |b|
  {
    if |b| == 0 {
      assert a + b == a;
    } else {
      assert (a + b)[..|a + b| - 1] == a + b[..|b| - 1];
      DefenceAppend(a, b[..|b| - 1]);
    }
  }

  /** Health after an attack: the attack beyond the defence is taken off,
      and health stops at zero. */
  function Hit(hp: int, attack: int, defence: int): (r: int)
    ensures r >= 0
    ensures hp >= 0 ==> r <= hp
    ensures attack <= defence ==> r == if hp < 0 then 0 else hp
    ensures r > 0 ==> r == hp - (if attack > defence then attack - defence else 0)
    ensures hp - (if attack > defence then attack - defence else 0) > 0 ==> r > 0
  {
    var net := if attack - defence > 0 then attack - defence else 0;
    if hp - net > 0 then hp - net else 0
  }

  /** The round ends once both have passed, both hands are empty, or
      neither player has a coin left. */
  predicate ShouldEndRound(g: Game)
  {
    || (g.players[0].hasPassed && g.players[1].hasPassed)
    || (|g.players[0].cards| == 0 && |g.players[1].cards| == 0)
    || (g.players[0].coins == 0 && g.players[1].coins == 0)
  }

  /** Both players take the other's played damage, less their own played
      defence, at the same time. */
  function DealDamage(g: Game): (r: Game)
    ensures r == g.(players := r.players)
    ensures r.players[0] == g.players[0].(hp := r.players[0].hp)
    ensures r.players[1] == g.players[1].(hp := r.players[1].hp)
    ensures r.players[1].hp == Hit(g.players[1].hp, Damage(g.players[0].playedCards), Defence(g.players[1].playedCards))
    ensures r.players[0].hp == Hit(g.players[0].hp, Damage(g.players[1].playedCards), Defence(g.players[0].playedCards))
  {
    var p0 := g.players[0];
    var p1 := g.players[1];
    var p1' := p1.(hp := Hit(p1.hp, Damage(p0.playedCards), Defence(p1.playedCards)));
    var p0' := p0.(hp := Hit(p0.hp, Damage(p1.playedCards), Defence(p0.playedCards)));
    g.(players := [p0', p1'])
  }

  /** A player's start of a new round: coins come in, the pass and the
      played cards are cleared, and the hand is topped up with a draw of
      `initialCards` less the hand's size. */
  function StartRoundFor(p: PlayerState, catalog: seq<Card>, swaps: seq<Swap>): (r: (PlayerState, seq<Card>))
    ensures r.0 == p.(coins := r.0.coins, hasPassed := false, playedCards := [], cards := r.0.cards)
    ensures r.0.coins == p.coins + Config.coinsPerRound
    ensures |p.cards| <= |r.0.cards| && r.0.cards[..|p.cards|] == p.cards
    ensures |p.cards| <= Config.initialCards <= |catalog| ==> |r.0.cards| == Config.initialCards
    ensures multiset(r.1) == multiset(catalog)
    ensures |r.0.cards| - |p.cards| <= |r.1| && r.0.cards[|p.cards|..] == r.1[..|r.0.cards| - |p.cards|]
  {
    var drawn := GetRandomCards(catalog, Config.initialCards - |p.cards|, swaps);
    var cards := p.cards + drawn.cards;
    assert cards[..|p.cards|] == p.cards;
    assert cards[|p.cards|..] == drawn.cards;
    (p.(coins := p.coins + Config.coinsPerRound, hasPassed := false, playedCards := [], cards := cards),
     drawn.catalog)
  }

  /** The next round of a live game: the round number goes up by one, the
      other seat opens, and both players start the round, seat 0 drawing
      first. */
  function NextRound(e: Engine, gameId: GameId, draws: Draws): (r: Step)
    requires gameId in e.games
    ensures r.game.round == e.games[gameId].round + 1
    ensures r.game.currentPlayerIndex == Other(e.games[gameId].currentPlayerIndex)
    ensures r.game.id == e.games[gameId].id && r.game.isFinished == e.games[gameId].isFinished
    ensures r.engine.games == e.games[gameId := r.game] && r.engine.order == e.order
    ensures multiset(r.engine.catalog) == multiset(e.catalog)
    ensures forall i: Seat :: r.game.players[i].hp == e.games[gameId].players[i].hp
    ensures var first := StartRoundFor(e.games[gameId].players[0], e.catalog, draws.first);
      var second := StartRoundFor(e.games[gameId].players[1], first.1, draws.second);
      r.game.players == [first.0, second.0] && r.engine.catalog == second.1
  {
    var g := e.games[gameId];
    var (p0, c1) := StartRoundFor(g.players[0], e.catalog, draws.first);
    var (p1, c2) := StartRoundFor(g.players[1], c1, draws.second);
    var g' := g.(round := g.round + 1, currentPlayerIndex := Other(g.currentPlayerIndex), players := [p0, p1]);
    Step(Engine(e.games[gameId := g'], e.order, c2), g')
  }

  /** Ends a game whose round left a seat without health: seat 0 wins
      exactly when it still has health, so a double knock-out goes to
      seat 1. */
  function KnockOut(e: Engine, gameId: GameId, g: Game): (r: Step)
    ensures r.game == g.(isFinished := true,
      winnerId := Some(if g.players[0].hp > 0 then g.players[0].userId else g.players[1].userId),
      loserId := Some(if g.players[0].hp == 0 then g.players[0].userId else g.players[1].userId))
    ensures gameId !in r.engine.games && r.engine.catalog == e.catalog
    ensures r.engine.order == Without(e.order, gameId)
    ensures forall id :: id != gameId ==>
      (id in r.engine.games <==> id in e.games) && (id in e.games ==> r.engine.games[id] == e.games[id])
  {
    var winner := if g.players[0].hp > 0 then g.players[0].userId else g.players[1].userId;
    var loser := if g.players[0].hp == 0 then g.players[0].userId else g.players[1].userId;
    var ended := EndGame(e.(games := e.games[gameId := g]), gameId, winner, loser);
    Step(ended.engine, ended.game.value)
  }

  /** Resolves the round of a registered game: damage is exchanged; if a
      player is left without health the game ends, otherwise the next
      round starts. */
  function EndRound(e: Engine, gameId: GameId, draws: Draws): (r: Step)
    requires gameId in e.games
    ensures r.game.players[0].hp == DealDamage(e.games[gameId]).players[0].hp
    ensures r.game.players[1].hp == DealDamage(e.games[gameId]).players[1].hp
    ensures var g := DealDamage(e.games[gameId]);
      g.players[0].hp == 0 || g.players[1].hp == 0 ==>
        && r.game.isFinished
        && gameId !in r.engine.games
        && r.game.winnerId == Some(if g.players[0].hp > 0 then g.players[0].userId else g.players[1].userId)
        && r.game.loserId == Some(if g.players[0].hp == 0 then g.players[0].userId else g.players[1].userId)
        && r.engine.catalog == e.catalog
        && r.engine.order == Without(e.order, gameId)
        && r.game == g.(isFinished := true, winnerId := r.game.winnerId, loserId := r.game.loserId)
    ensures var g := DealDamage(e.games[gameId]);
      g.players[0].hp != 0 && g.players[1].hp != 0 ==>
        && r.game.round == e.games[gameId].round + 1
        && r.game.currentPlayerIndex == Other(e.games[gameId].currentPlayerIndex)
        && r.engine.games == e.games[gameId := r.game]
        && r.game.isFinished == e.games[gameId].isFinished
        && r.game.players[0] == StartRoundFor(g.players[0], e.catalog, draws.first).0
        && r.game.players[1] == StartRoundFor(g.players[1], StartRoundFor(g.players[0], e.catalog, draws.first).1,
                                              draws.second).0
        && r.engine.order == e.order
        && r.engine.catalog == StartRoundFor(g.players[1], StartRoundFor(g.players[0], e.catalog, draws.first).1,
                                             draws.second).1
    ensures forall id :: id != gameId ==>
      (id in r.engine.games <==> id in e.games) && (id in e.games ==> r.engine.games[id] == e.games[id])
  {
    var g := DealDamage(e.games[gameId]);
    if g.players[0].hp == 0 || g.players[1].hp == 0 then KnockOut(e, gameId, g)
    else NextRound(e.(games := e.games[gameId := g]), gameId, draws)
  }

  // ---------------------------------------------------------------------
  // Starting and joining

  /** The decimal digits of `n`. */
  function Digits(n: nat): (r: string)
    ensures |r| >= 1
    ensures forall k :: 0 <= k < |r| ==> '0' <= r[k] <= '9'
    decreases n
  {
    var d := ['0' + (n % 10) as char];
    if n < 10 then d else Digits(n / 10) + d
  }

  /** JavaScript's decimal rendering of an integer. */
  function Decimal(n: int): (r: string)
    ensures |r| >= 1
    ensures n >= 0 <==> r[0] != '-'
  {
    if n < 0 then "-" + Digits(-n) else Digits(n)
  }

  /** The name a player is shown under: the account's username, or
      `Player_<id>` when the account has none (or an empty one). */
  function DisplayName(userId: UserId, username: Option<string>): (r: string)
    ensures username.Some? && username.value != "" ==> r == username.value
    ensures username.None? || username.value == "" ==>
      |r| == 7 + |Decimal(userId)| && r[..7] == "Player_" && r[7..] == Decimal(userId)
  {
    if username.Some? && username.value != "" then username.value
    else "Player_" + Decimal(userId)
  }

  /** `p` is `userId` as a game starts: not yet joined, full health, the
      starting coins, nothing played and no pass. */
  predicate IsNewPlayer(p: PlayerState, userId: UserId)
  {
    && p.userId == userId && p.socketId == ""
    && p.hp == Config.initialHp && p.coins == Config.initialCoins
    && p.playedCards == [] && !p.hasPassed
  }

  /** A new player: full health, starting coins, a fresh hand drawn from
      the catalog, not yet joined. Returns the catalog after the draw. */
  function NewPlayer(userId: UserId, username: Option<string>, catalog: seq<Card>, swaps: seq<Swap>)
    : (r: (PlayerState, seq<Card>))
    ensures IsNewPlayer(r.0, userId) && r.0.username == DisplayName(userId, username)
    ensures Config.initialCards <= |catalog| ==> |r.0.cards| == Config.initialCards
    ensures multiset(r.1) == multiset(catalog)
    ensures |r.0.cards| <= |r.1| && r.0.cards == r.1[..|r.0.cards|]
  {
    var drawn := GetRandomCards(catalog, Config.initialCards, swaps);
    (PlayerState(userId, "", DisplayName(userId, username), Config.initialHp, Config.initialCoins,
                 drawn.cards, [], false),
     drawn.catalog)
  }

  /** Registers a new game under `gameId`, the id the game's record was
      created with: seat 0 is `player1`, who draws first; `firstPlayer`
      (chosen at random by the service) opens round 1. Registering an id
      already present replaces that game in place. */
  function StartGame(e: Engine, gameId: GameId, player1: UserId, name1: Option<string>,
                     player2: UserId, name2: Option<string>, firstPlayer: Seat, draws: Draws): (r: Step)
    ensures r.engine.games == e.games[gameId := r.game]
    ensures r.game.id == gameId && r.game.round == 1 && !r.game.isFinished
    ensures r.game.currentPlayerIndex == firstPlayer
    ensures r.game.winnerId.None? && r.game.loserId.None?
    ensures IsNewPlayer(r.game.players[0], player1) && IsNewPlayer(r.game.players[1], player2)
    ensures var first := NewPlayer(player1, name1, e.catalog, draws.first);
      var second := NewPlayer(player2, name2, first.1, draws.second);
      r.game.players == [first.0, second.0] && r.engine.catalog == second.1
    ensures multiset(r.engine.catalog) == multiset(e.catalog)
    ensures gameId in e.games ==> r.engine.order == e.order
    ensures gameId !in e.games ==> r.engine.order == e.order + [gameId]
  {
    var first := NewPlayer(player1, name1, e.catalog, draws.first);
    var second := NewPlayer(player2, name2, first.1, draws.second);
    var g := Game(gameId, [first.0, second.0], firstPlayer, 1, false, None, None);
    var order := if gameId in e.games then e.order else e.order + [gameId];
    Step(Engine(e.games[gameId := g], order, second.1), g)
  }

  /** Attaches a socket to the player of a game with the given username
      (the first seat with it). */
  function JoinGame(e: Engine, socket: SocketId, gameId: GameId, username: string): (r: Result<Step, GameError>)
    ensures gameId !in e.games ==> r == Err(GameNotFound(gameId))
    ensures gameId in e.games && (forall i: Seat :: e.games[gameId].players[i].username != username) ==>
      r == Err(PlayerNotFound(username))
    ensures r.Ok? <==> gameId in e.games && exists i: Seat :: e.games[gameId].players[i].username == username
    ensures r.Ok? ==> exists i: Seat ::
      && e.games[gameId].players[i].username == username
      && r.value.game == e.games[gameId].WithPlayer(i, e.games[gameId].players[i].(socketId := socket))
    ensures r.Ok? ==> r.value.engine == e.(games := e.games[gameId := r.value.game])
    ensures r.Ok? ==> r.value.game.players[0].username == username ==> r.value.game.players[0].socketId == socket
    ensures r.Ok? && e.games[gameId].players[0].username == username ==>
      r.value.game.players[1] == e.games[gameId].players[1]
  {
    if gameId !in e.games then Err(GameNotFound(gameId))
    else
      var g := e.games[gameId];
      match SeatOfUsername(g, username)
      case None => Err(PlayerNotFound(username))
      case Some(i) =>
        var g' := g.WithPlayer(i, g.players[i].(socketId := socket));
        Ok(Step(e.(games := e.games[gameId := g']), g'))
  }

  // ---------------------------------------------------------------------
  // Moves

  /** After a move: the round is resolved if it is over, otherwise the
      game stands as it is. */
  function Settle(e: Engine, gameId: GameId, draws: Draws): (r: Step)
    requires gameId in e.games
    ensures !ShouldEndRound(e.games[gameId]) ==> r == Step(e, e.games[gameId])
    ensures ShouldEndRound(e.games[gameId]) ==> r == EndRound(e, gameId, draws)
  {
    if ShouldEndRound(e.games[gameId]) then EndRound(e, gameId, draws)
    else Step(e, e.games[gameId])
  }

  /** A round is over once both players have passed, both hands are
      empty, or neither player has a coin: settling then resolves it. */
  lemma SettleEndsRound(e: Engine, gameId: GameId, draws: Draws)
    requires gameId in e.games
    requires var p := e.games[gameId].players;
      || (p[0].hasPassed && p[1].hasPassed)
      || (|p[0].cards| == 0 && |p[1].cards| == 0)
      || (p[0].coins == 0 && p[1].coins == 0)
    ensures Settle(e, gameId, draws) == EndRound(e, gameId, draws)
  {
  }

  /** While a seat has not passed, a card is in some hand and a coin in
      some purse, settling leaves everything as it is. */
  lemma SettleStands(e: Engine, gameId: GameId, draws: Draws)
    requires gameId in e.games
    requires var p := e.games[gameId].players;
      && (!p[0].hasPassed || !p[1].hasPassed)
      && (|p[0].cards| > 0 || |p[1].cards| > 0)
      && (p[0].coins != 0 || p[1].coins != 0)
    ensures Settle(e, gameId, draws) == Step(e, e.games[gameId])
  {
  }

  /** Seat `i` plays the card at index `k` of its hand: it pays the card's
      cost, the card moves from the hand to the played cards, and the
      turn passes to the other seat. */
  function Play(g: Game, i: Seat, k: nat): (r: Game)
    requires k < |g.players[i].cards|
    ensures r.players[Other(i)] == g.players[Other(i)]
    ensures r.currentPlayerIndex == Other(g.currentPlayerIndex)
    ensures r.id == g.id && r.round == g.round && r.isFinished == g.isFinished
    ensures r.winnerId == g.winnerId && r.loserId == g.loserId
    ensures r.players[i].coins == g.players[i].coins - g.players[i].cards[k].cost
    ensures r.players[i].playedCards == g.players[i].playedCards + [g.players[i].cards[k]]
    ensures |r.players[i].cards| == |g.players[i].cards| - 1
    ensures multiset(r.players[i].cards) + multiset{g.players[i].cards[k]} == multiset(g.players[i].cards)
    ensures multiset(r.players[i].cards) + multiset(r.players[i].playedCards)
         == multiset(g.players[i].cards) + multiset(g.players[i].playedCards)
    ensures r.players[i] == g.players[i].(coins := r.players[i].coins, playedCards := r.players[i].playedCards,
                                          cards := r.players[i].cards)
  {
    var p := g.players[i];
    var card := p.cards[k];
    var p' := p.(coins := p.coins - card.cost, playedCards := p.playedCards + [card], cards := RemoveAt(p.cards, k));
    g.WithPlayer(i, p').(currentPlayerIndex := Other(g.currentPlayerIndex))
  }

  /** Plays the card with id `cardId` from the hand of the player on
      `socket`. Errors, in the order they are checked: the game is not
      registered; the socket is not seated or not the current seat; the
      hand has no such card; the card costs more than the player's coins. */
  function PlayCard(e: Engine, socket: SocketId, gameId: GameId, cardId: int, draws: Draws)
    : (r: Result<Step, GameError>)
    ensures gameId !in e.games ==> r == Err(GameNotFound(gameId))
    ensures gameId in e.games ==>
      var g := e.games[gameId];
      g.players[g.currentPlayerIndex].socketId != socket ==> r == Err(NotYourTurn)
    ensures gameId in e.games ==>
      var g := e.games[gameId];
      g.currentPlayerIndex == 1 && g.players[0].socketId == socket ==> r == Err(NotYourTurn)
    ensures gameId in e.games ==>
      var g := e.games[gameId];
      var i := g.currentPlayerIndex;
      g.players[i].socketId == socket && (i == 0 || g.players[0].socketId != socket) ==>
        && ((forall k :: 0 <= k < |g.players[i].cards| ==> g.players[i].cards[k].id != cardId) <==>
              r == Err(CardNotFound(cardId)))
        && (forall k :: (0 <= k < |g.players[i].cards| && g.players[i].cards[k].id == cardId
              && (forall j :: 0 <= j < k ==> g.players[i].cards[j].id != cardId)) ==>
              (g.players[i].cards[k].cost > g.players[i].coins <==>
                 r == Err(NotEnoughCoins(g.players[i].cards[k].cost, g.players[i].coins)))
              && (r.Ok? <==> g.players[i].cards[k].cost <= g.players[i].coins)
              && (r.Ok? ==> r.value == Settle(e.(games := e.games[gameId := Play(g, i, k)]), gameId, draws)))
  {
    if gameId !in e.games then Err(GameNotFound(gameId))
    else
      var g := e.games[gameId];
      match SeatOfSocket(g, socket)
      case None => Err(NotYourTurn)
      case Some(i) =>
        if i != g.currentPlayerIndex then Err(NotYourTurn)
        else
          var p := g.players[i];
          match FindCard(p.cards, cardId)
          case None => Err(CardNotFound(cardId))
          case Some(k) =>
            if p.cards[k].cost > p.coins then Err(NotEnoughCoins(p.cards[k].cost, p.coins))
            else Ok(Settle(e.(games := e.games[gameId := Play(g, i, k)]), gameId, draws))
  }

  /** Seat `i` passes: it is marked as passed; the round is resolved if
      it is over, otherwise the turn passes to the other seat. */
  function PassSeat(e: Engine, gameId: GameId, i: Seat, draws: Draws): (r: Step)
    requires gameId in e.games
    ensures var g := e.games[gameId].WithPlayer(i, e.games[gameId].players[i].(hasPassed := true));
      && (ShouldEndRound(g) ==> r == EndRound(e.(games := e.games[gameId := g]), gameId, draws))
      && (!ShouldEndRound(g) ==>
            && r.game == g.(currentPlayerIndex := Other(g.currentPlayerIndex))
            && r.engine == e.(games := e.games[gameId := r.game]))
  {
    var g := e.games[gameId];
    var g' := g.WithPlayer(i, g.players[i].(hasPassed := true));
    if ShouldEndRound(g') then EndRound(e.(games := e.games[gameId := g']), gameId, draws)
    else
      var g'' := g'.(currentPlayerIndex := Other(g'.currentPlayerIndex));
      Step(e.(games := e.games[gameId := g'']), g'')
  }

  /** The second pass of a round ends it: once the other seat has passed,
      a pass resolves the round. */
  lemma SecondPassEndsRound(e: Engine, gameId: GameId, i: Seat, draws: Draws)
    requires gameId in e.games && e.games[gameId].players[Other(i)].hasPassed
    ensures var g := e.games[gameId].WithPlayer(i, e.games[gameId].players[i].(hasPassed := true));
      PassSeat(e, gameId, i, draws) == EndRound(e.(games := e.games[gameId := g]), gameId, draws)
  {
  }

  /** A pass while the other seat has not passed, with a card and a coin
      left on some side, hands the turn over instead. */
  lemma FirstPassHandsOver(e: Engine, gameId: GameId, i: Seat, draws: Draws)
    requires gameId in e.games
    requires var g := e.games[gameId];
      && !g.players[Other(i)].hasPassed
      && (|g.players[0].cards| > 0 || |g.players[1].cards| > 0)
      && (g.players[0].coins != 0 || g.players[1].coins != 0)
    ensures PassSeat(e, gameId, i, draws).game.currentPlayerIndex == Other(e.games[gameId].currentPlayerIndex)
    ensures gameId in PassSeat(e, gameId, i, draws).engine.games
  {
  }

  /** The player on `socket` passes, whether or not it is that player's
      turn. An unseated socket is reported as seat 0's username not being
      found. */
  function PassRound(e: Engine, socket: SocketId, gameId: GameId, draws: Draws): (r: Result<Step, GameError>)
    ensures gameId !in e.games ==> r == Err(GameNotFound(gameId))
    ensures gameId in e.games ==>
      var g := e.games[gameId];
      && ((forall i: Seat :: g.players[i].socketId != socket) <==> r == Err(PlayerNotFound(g.players[0].username)))
      && (g.players[0].socketId == socket ==> r == Ok(PassSeat(e, gameId, 0, draws)))
      && (g.players[0].socketId != socket && g.players[1].socketId == socket ==> r == Ok(PassSeat(e, gameId, 1, draws)))
  {
    if gameId !in e.games then Err(GameNotFound(gameId))
    else
      match SeatOfSocket(e.games[gameId], socket)
      case None => Err(PlayerNotFound(e.games[gameId].players[0].username))
      case Some(i) => Ok(PassSeat(e, gameId, i, draws))
  }

  /** The turn timer firing for a game: nothing happens if the game is no
      longer registered or is finished; otherwise the current player's
      socket passes the round. */
  function Timeout(e: Engine, gameId: GameId, draws: Draws): (r: Option<Result<Step, GameError>>)
    ensures r.None? <==> gameId !in e.games || e.games[gameId].isFinished
    ensures r.Some? ==> r.value.Ok?
  {
    if gameId !in e.games || e.games[gameId].isFinished then None
    else
      var g := e.games[gameId];
      Some(PassRound(e, g.players[g.currentPlayerIndex].socketId, gameId, draws))
  }

  /** When the two seats are on different sockets, the timeout passes for
      the current seat. */
  lemma TimeoutPassesCurrentSeat(e: Engine, gameId: GameId, draws: Draws)
    requires gameId in e.games && !e.games[gameId].isFinished
    requires e.games[gameId].players[0].socketId != e.games[gameId].players[1].socketId
    ensures Timeout(e, gameId, draws) == Some(Ok(PassSeat(e, gameId, e.games[gameId].currentPlayerIndex, draws)))
  {
  }

  /** Before anyone has joined both sockets are empty, and the timeout
      passes for seat 0 even when it is seat 1's turn. */
  lemma TimeoutBeforeJoinPassesSeatZero(e: Engine, gameId: GameId, draws: Draws)
    requires gameId in e.games && !e.games[gameId].isFinished
    requires e.games[gameId].players[0].socketId == e.games[gameId].players[1].socketId
    ensures Timeout(e, gameId, draws) == Some(Ok(PassSeat(e, gameId, 0, draws)))
  {
  }

  // ---------------------------------------------------------------------
  // Disconnects

  /** The position in `ids` of the first registered game that seats
      `socket`, with the first seat it holds there. */
  function FirstSeated(e: Engine, ids: seq<GameId>, socket: SocketId): (r: Option<(nat, Seat)>)
    ensures r.Some? ==>
      && r.value.0 < |ids| && ids[r.value.0] in e.games
      && SeatOfSocket(e.games[ids[r.value.0]], socket) == Some(r.value.1)
      && forall j :: 0 <= j < r.value.0 && ids[j] in e.games ==> SeatOfSocket(e.games[ids[j]], socket).None?
    ensures r.None? <==> forall j :: 0 <= j < |ids| && ids[j] in e.games ==> SeatOfSocket(e.games[ids[j]], socket).None?
  {
    if |ids| == 0 then None
    else if ids[0] in e.games && SeatOfSocket(e.games[ids[0]], socket).Some? then
      Some((0, SeatOfSocket(e.games[ids[0]], socket).value))
    else match FirstSeated(e, ids[1..], socket)
      case None => None
      case Some((k, i)) => Some((k + 1, i))
  }

  /** A disconnected socket forfeits: the first game seating it ends with
      its player as the loser and the opponent as the winner. */
  function HandlePlayerDisconnect(e: Engine, socket: SocketId): (r: Ended)
    ensures (forall j :: 0 <= j < |e.order| && e.order[j] in e.games ==> SeatOfSocket(e.games[e.order[j]], socket).None?)
        ==> r == Ended(e, None)
    ensures r.game.None? ==>
      forall j :: 0 <= j < |e.order| && e.order[j] in e.games ==> SeatOfSocket(e.games[e.order[j]], socket).None?
    ensures r.game.Some? ==> exists k, i: Seat ::
      && 0 <= k < |e.order| && e.order[k] in e.games
      && e.games[e.order[k]].players[i].socketId == socket
      && (i == 1 ==> e.games[e.order[k]].players[0].socketId != socket)
      && (forall j :: 0 <= j < k && e.order[j] in e.games ==> SeatOfSocket(e.games[e.order[j]], socket).None?)
      && r == EndGame(e, e.order[k], e.games[e.order[k]].players[Other(i)].userId, e.games[e.order[k]].players[i].userId)
  {
    match FirstSeated(e, e.order, socket)
    case None => Ended(e, None)
    case Some((k, i)) =>
      var g := e.games[e.order[k]];
      EndGame(e, e.order[k], g.players[Other(i)].userId, g.players[i].userId)
  }
}
