/** The match state the game service keeps per game, its fixed
    configuration, and the redacted view each seat is sent. */
module GameState {
  import opened Wrappers
  import opened Cards

  type GameId = int
  type UserId = int
  type SocketId = string

  /** A seat at the table: index 0 or 1 into the two players. */
  type Seat = i: int | 0 <= i <= 1

  function Other(i: Seat): (r: Seat)
    ensures r != i
  {
    1 - i
  }

  /** The service's fixed game configuration. */
  datatype GameConfig = GameConfig(
    initialHp: int,
    initialCoins: int,
    initialCards: int,
    coinsPerRound: int,
    turnTimeLimit: int)

  const Config := GameConfig(30, 3, 4, 2, 30)

  /** One player's side of a game. `socketId` is empty until the player
      joins; `cards` is the hand and `playedCards` the cards played this
      round. */
  datatype PlayerState = PlayerState(
    userId: UserId,
    socketId: SocketId,
    username: string,
    hp: int,
    coins: int,
    cards: seq<Card>,
    playedCards: seq<Card>,
    hasPassed: bool)

  const NoPlayer := PlayerState(0, "", "", 0, 0, [], [], false)

  /** Exactly two players, in the order fixed when the game starts. */
  type Players = s: seq<PlayerState> | |s| == 2 witness [NoPlayer, NoPlayer]

  datatype Game = Game(
    id: GameId,
    players: Players,
    currentPlayerIndex: Seat,
    round: int,
    isFinished: bool,
    winnerId: Option<UserId>,
    loserId: Option<UserId>)
  {
    /** This game with seat `i`'s player replaced. */
    function WithPlayer(i: Seat, p: PlayerState): (g: Game)
      ensures g.players[i] == p && g.players[Other(i)] == players[Other(i)]
      ensures g.id == id && g.currentPlayerIndex == currentPlayerIndex && g.round == round
      ensures g.isFinished == isFinished && g.winnerId == winnerId && g.loserId == loserId
    {
      this.(players := players[i := p])
    }
  }

  // ---------------------------------------------------------------------
  // The redacted view

  /** A player as one seat sees it: `cards` is `None` (JavaScript `null`)
      for the opponent, while `cardsCount` is always the hand's size. */
  datatype PublicPlayer = PublicPlayer(
    userId: UserId,
    hp: int,
    coins: int,
    cardsCount: int,
    cards: Option<seq<Card>>,
    playedCards: seq<Card>,
    hasPassed: bool)

  /** The state sent to one seat: the viewer first, the opponent second.
      `currentPlayerIndex` is passed through unchanged, so it still counts
      seats of the game, not positions in `players`. */
  datatype PublicGameState = PublicGameState(
    id: GameId,
    round: int,
    isFinished: bool,
    winnerId: Option<UserId>,
    loserId: Option<UserId>,
    currentPlayerIndex: Seat,
    players: seq<PublicPlayer>)

  /** The view for the player at `forPlayer`. */
  function GetPublicGameState(g: Game, forPlayer: Seat): (v: PublicGameState)
    ensures |v.players| == 2
    ensures v.players[0].cards == Some(g.players[forPlayer].cards)
    ensures v.players[1].cards == None
    ensures v.players[0].cardsCount == |g.players[forPlayer].cards|
    ensures v.players[1].cardsCount == |g.players[Other(forPlayer)].cards|
    ensures v.players[0].userId == g.players[forPlayer].userId
    ensures v.players[1].userId == g.players[Other(forPlayer)].userId
    ensures v.players[0].playedCards == g.players[forPlayer].playedCards
    ensures v.players[1].playedCards == g.players[Other(forPlayer)].playedCards
    ensures v.players[0].hp == g.players[forPlayer].hp && v.players[1].hp == g.players[Other(forPlayer)].hp
    ensures v.players[0].coins == g.players[forPlayer].coins && v.players[1].coins == g.players[Other(forPlayer)].coins
    ensures v.players[0].hasPassed == g.players[forPlayer].hasPassed
    ensures v.players[1].hasPassed == g.players[Other(forPlayer)].hasPassed
    ensures v.id == g.id && v.round == g.round && v.isFinished == g.isFinished
    ensures v.currentPlayerIndex == g.currentPlayerIndex
    ensures v.winnerId == g.winnerId && v.loserId == g.loserId
  {
    var me := g.players[forPlayer];
    var opponent := g.players[Other(forPlayer)];
    PublicGameState(
      g.id, g.round, g.isFinished, g.winnerId, g.loserId, g.currentPlayerIndex,
      [ PublicPlayer(me.userId, me.hp, me.coins, |me.cards|, Some(me.cards), me.playedCards, me.hasPassed),
        PublicPlayer(opponent.userId, opponent.hp, opponent.coins, |opponent.cards|, None,
                     opponent.playedCards, opponent.hasPassed) ])
  }

  /** Hidden information: what a seat sees does not depend on the
      opponent's hand beyond its size. Two games that differ only in the
      opponent's hand, with hands of equal size, look the same. */
  lemma ViewHidesOpponentHand(g: Game, viewer: Seat, otherHand: seq<Card>)
    requires |otherHand| == |g.players[Other(viewer)].cards|
    ensures GetPublicGameState(g, viewer)
         == GetPublicGameState(
              g.WithPlayer(Other(viewer), g.players[Other(viewer)].(cards := otherHand)), viewer)
  {
  }
}
