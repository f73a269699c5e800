# A Dafny model of the card game server's core

The server runs a two-player card game. It has five parts, each modelled here as pure functions over immutable state:

- **Match engine.** `GamesService` keeps the registry of live games. It steers each game through joining, playing cards, passing, the turn timeout, round resolution, the end of the game, and disconnects.
- **Game store.** `GameStateService` is a plain map from game id to game.
- **Matchmaking queue.** `MatchmakingService` pairs waiting sockets two at a time. Each pair becomes a match that starts after a five-second countdown unless a player cancels it.
- **Card catalog.** `CardService` holds twenty cards. Every random draw reorders the catalog in place.
- **Socket guard.** `WsJwtGuard` admits a socket connection only when its `Cookie` header carries a `jwt` cookie whose token verifies to a payload with a username.

Modules:

| file | module | contents |
|---|---|---|
| `wrappers.dfy` | `Wrappers` | `Option` and `Result` |
| `seqs.dfy` | `Seqs` | sequence helpers: `splice`, `findIndex`, removal, duplicate-freedom |
| `cards.dfy` | `Cards` | the catalog, shuffles, draws and lookups |
| `ws_jwt_guard.dfy` | `JwtGuard` | `split`/`trim` as JavaScript defines them, cookie parsing, the guard |
| `game_state.dfy` | `GameState` | games, players, the configuration, the per-seat public view |
| `games_service.dfy` | `GamesService` | the registry and every game operation |
| `game_invariants.dfy` | `GameInvariants` | the registry invariant, its preservation by every operation, and the forward progress of a game |
| `game_store.dfy` | `GameStore` | the game-state store |
| `matchmaking.dfy` | `Matchmaking` | the queue, the matches, and the countdown step `Fire` |

How the model represents the program:

- **Operations and failures.** Every operation is atomic and takes the whole state. A failing operation returns an error value and changes nothing.
- **Ordered maps.** JavaScript `Map`s keep insertion order, and the code depends on it: a disconnect ends the first game that seats the socket, and a cancel drops the first match holding it. So the game registry carries the order of its ids, and the pending matches are an insertion-ordered sequence.
- **Randomness.** Shuffles come in as lists of swaps, and the opening player is a parameter. `Cards.ShuffleReaches` proves that swap lists reach every order of the catalog.
- **Clock and timers.** The clock is an input `now`. The two timers, the turn timeout and the match countdown, are explicit steps: `GamesService.Timeout` and `Matchmaking.Fire`.

The registry is keyed by the game's id, and every game is stored under its own id. `GameInvariants.Valid` proves this, so the model ends a game by its key where the code passes `gameState.id`.

## Behaviour worth knowing

- A played card does not clear either player's `hasPassed` flag (`src/game/game.service.ts:275-286`).
- Passing is allowed out of turn, and passing twice is not refused: there is no "already passed" error (`src/game/game.service.ts:293-315`).
- A socket that is not seated gets "not your turn" from `playCard` (`src/game/game.service.ts:260`). From `passRound` it gets "player not found", naming seat 0's username.
- A round also ends when both hands are empty (`src/game/game.service.ts:326`).
- A double knock-out has no tie-break: seat 0 wins exactly when it still has health, so seat 1 wins a double knock-out (`src/game/game.service.ts:351-356`).
- A card can be in a hand and among the played cards at the same time. Top-up draws take from the full catalog, so a card still held can be drawn again (`src/game/game.service.ts:370-382`).

## Model

| member | source | states |
|---|---|---|
| Seqs.RemoveAt | src/game/game.service.ts:278 | `splice(i, 1)` keeps the elements before `i`, shifts the later ones down by one, and removes exactly one copy of the element at `i` |
| Seqs.IndexOf | src/matchmaking/matchmaking.service.ts:39-42 | `findIndex` returns the first index holding the element, and nothing exactly when the element is absent |
| Seqs.RemoveAtMembers | src/matchmaking/matchmaking.service.ts:43 | after `splice(i, 1)` the other elements remain, and the removed one remains only if it occurred more than once |
| Seqs.Without | src/game/game-state.service.ts:16-18 | `Map.delete` on the ordered game ids: removing an element keeps exactly the other elements, and keeps a duplicate-free sequence duplicate-free |
| Seqs.WithoutAppend | src/game/game.service.ts:414 | removal keeps the order of what remains: each piece of a concatenation loses the element separately and the pieces stay in order |
| Seqs.WithoutSingle | src/game/game.service.ts:414 | removal drops exactly the element asked for and keeps any other |
| Seqs.WithoutAbsent | src/game/game-state.service.ts:16-18 | removing an element that is not there changes nothing |
| Cards.CatalogShape | src/card/card.service.ts:6-227 | the catalog has twenty cards with ids 1 to 20 in order, and none has a negative cost, damage or defence |
| Cards.CatalogUniqueNames | src/card/card.service.ts:6-227 | no two catalog cards share a name |
| Cards.CatalogDistinct | src/card/card.service.ts:6-227 | no card occurs twice in the catalog |
| Cards.Shuffle | src/card/card.service.ts:270 | the in-place shuffle keeps the catalog's size; what it keeps and what it can reach are stated by `Cards.ShufflePermutes` and `Cards.ShuffleReaches` |
| Cards.ShufflePermutes | src/card/card.service.ts:270 | shuffling only rearranges the catalog: it keeps the same cards, each as often |
| Cards.ShuffleReaches | src/card/card.service.ts:270 | every rearrangement of the catalog is the result of some shuffle |
| Cards.GetRandomCards | src/card/card.service.ts:260-272 | the catalog is reordered in place, and the draw is its first `count` cards, capped at the catalog size; a negative count drops that many cards from the end, as `slice(0, count)` does |
| Cards.DrawFromCatalog | src/card/card.service.ts:267-271 | a draw leaves the catalog a rearrangement of the twenty cards, and yields distinct catalog cards |
| Cards.DrawReachesEveryPrefix | src/card/card.service.ts:270-271 | every prefix of every rearrangement is a possible draw |
| Cards.GetCard | src/card/card.service.ts:248-251 | a lookup matches on the name only: it finds a catalog card with that name, or nothing exactly when no card has it, so a filter without a name finds nothing |
| Cards.GetCardIgnoresOrder | src/card/card.service.ts:248-251 | what a lookup finds does not depend on how earlier draws reordered the catalog |
| Cards.GetAllCards | src/card/card.service.ts:253-256 | the listing is the live catalog in its current order, which the last draw's shuffle left: every catalog card and nothing else, twenty in all |
| Cards.GetCardCount | src/card/card.service.ts:233-239 | a zero cached count is returned as it is; any other cached count gives the catalog size plus one |
| JwtGuard.SplitSpec | src/auth/guards/ws-jwt.guard.ts:36 | no piece holds the separator, and joining the pieces with it gives back the string |
| JwtGuard.SplitJoin | src/auth/guards/ws-jwt.guard.ts:36-38 | splitting undoes joining pieces that hold no separator |
| JwtGuard.Trim | src/auth/guards/ws-jwt.guard.ts:38 | `trim` removes exactly the leading and trailing white space and line terminators, leaving a middle that starts and ends with a kept character |
| JwtGuard.TrimKeeps | src/auth/guards/ws-jwt.guard.ts:38 | a string that starts and ends with a kept character is unchanged by `trim` |
| JwtGuard.ExtractTokenFromCookies | src/auth/guards/ws-jwt.guard.ts:35-44 | finds no cookie exactly when no segment's trimmed name is `jwt`; otherwise gives the value of the first such segment, which is the text between its first and second `=` |
| JwtGuard.ExtractFromHeader | src/auth/guards/ws-jwt.guard.ts:35-44 | for a header built from well-formed cookies joined by `; `, the parser finds the first `jwt` cookie's value, or reports that there is none |
| JwtGuard.ValueStopsAtSecondEquals | src/auth/guards/ws-jwt.guard.ts:38-40 | `jwt=v=w` yields `v`, not `v=w` |
| JwtGuard.BareJwtHasNoValue | src/auth/guards/ws-jwt.guard.ts:38-40 | a bare `jwt` segment names the cookie but gives no value |
| JwtGuard.BlankBeforeEqualsHidesJwt | src/auth/guards/ws-jwt.guard.ts:38-39 | `jwt =v` is not the `jwt` cookie, because trimming applies only to the whole segment |
| JwtGuard.TokenOf | src/auth/guards/ws-jwt.guard.ts:17-18 | the guard continues only with a non-empty token; a missing cookie, a missing value and an empty value are all refused |
| JwtGuard.CanActivate | src/auth/guards/ws-jwt.guard.ts:9-33 | refuses for missing cookies exactly when the header is absent or empty; for a missing token exactly when there is no non-empty `jwt` value; otherwise admits exactly when verification returns a payload with a non-empty username, and admits the socket as that username |
| JwtGuard.RejectsBeforeVerifying | src/auth/guards/ws-jwt.guard.ts:13-20 | without a header or a token the result does not depend on the verifier, and is never "invalid token" |
| GameState.Other | src/game/game.service.ts:206 | `1 - i` is the other seat |
| GameState.GetPublicGameState | src/game/game.service.ts:201-236 | the viewer comes first with its hand; the opponent comes second with its hand hidden (`null`); both hand sizes are the real ones; each player's health, coins, played cards and pass flag, and the game's id, round, turn and verdict are copied |
| GameState.ViewHidesOpponentHand | src/game/game.service.ts:225-233 | a seat's view is the same whatever cards the opponent holds, as long as the number of cards is the same |
| GamesService.SeatOfSocket | src/game/game.service.ts:257-259 | finds the first seat on the socket; nothing exactly when neither seat is on it |
| GamesService.SeatOfUsername | src/game/game.service.ts:142-144 | finds the first seat with the username; nothing exactly when neither seat has it |
| GamesService.FindCard | src/game/game.service.ts:265 | finds the first hand position holding a card with the id; nothing exactly when no card in the hand has it |
| GamesService.StartGame | src/game/game.service.ts:79-100 | the new game is stored under its id and in the registry order; it is in round 1, unfinished and undecided, opened by the chosen seat; seat 0 is dealt first from the current catalog and seat 1 from the catalog seat 0's draw left, each a fresh player with the display name, full health, starting coins and a four-card hand |
| GamesService.NewPlayer | src/game/game.service.ts:102-130 | a new player is not yet joined and has 30 health, 3 coins, nothing played, no pass and a four-card hand drawn from the front of the reshuffled catalog |
| GamesService.DisplayName | src/game/game.service.ts:123 | the account's username, or `Player_` followed by the user id when the username is missing or empty |
| GamesService.JoinGame | src/game/game.service.ts:132-151 | fails when the game is missing, then when neither seat has the username; otherwise it succeeds, and only the first seat with that username gets the socket, the other seat left as it was even when both share the username |
| GamesService.Play | src/game/game.service.ts:275-281 | playing pays the card's cost and moves the card from the hand to the played cards, so the player's cards are conserved; the turn passes; nothing else changes |
| GamesService.PlayCard | src/game/game.service.ts:247-291 | errors in order: missing game; socket not on the current seat; no card with the id in the hand; cost above the coins. Otherwise plays the first matching card and then resolves the round if it is over |
| GamesService.Settle | src/game/game.service.ts:283-286 | after a play the round is resolved exactly when it is over; otherwise the game and the registry stay as they are |
| GamesService.SettleEndsRound | src/game/game.service.ts:322-329 | `shouldEndRound`: a round is over once both players have passed, or both hands are empty, or neither player has a coin, and settling then resolves it |
| GamesService.SettleStands | src/game/game.service.ts:322-329 | `shouldEndRound` fails while some seat has not passed, some hand holds a card and some player has a coin, and settling then changes nothing |
| GamesService.PassSeat | src/game/game.service.ts:306-315 | the seat is marked passed; the round is resolved if it is over, otherwise the turn passes and nothing else changes |
| GamesService.SecondPassEndsRound | src/game/game.service.ts:322-329 | the round ends when both players have passed: once the other seat has passed, a pass resolves the round |
| GamesService.FirstPassHandsOver | src/game/game.service.ts:322-329 | the round goes on while not both have passed, some hand holds a card and some player has a coin: a pass then hands the turn over and the game stays registered |
| GamesService.PassRound | src/game/game.service.ts:293-320 | fails when the game is missing; fails naming seat 0's username exactly when the socket holds no seat; otherwise the first seat on the socket passes, in turn or not |
| GamesService.Hit | src/game/game.service.ts:339-348 | health never goes below zero or up; an attack no stronger than the defence leaves it unchanged; the attack beyond the defence is taken off: a player survives exactly when it exceeds that, and then loses exactly that |
| GamesService.Damage | src/game/game.service.ts:389-391 | the damage of no cards is zero and of one card is that card's damage |
| GamesService.DamageAppend | src/game/game.service.ts:389-391 | damage adds up over concatenated card lists, so with the one-card case it is the sum of the cards' damage |
| GamesService.Defence | src/game/game.service.ts:393-395 | the defence of no cards is zero and of one card is that card's defence |
| GamesService.DefenceAppend | src/game/game.service.ts:393-395 | defence adds up over concatenated card lists, so with the one-card case it is the sum of the cards' defence |
| GamesService.DealDamage | src/game/game.service.ts:334-348 | each seat's health is hit by the other's played damage less its own played defence, both at once; nothing else changes |
| GamesService.StartRoundFor | src/game/game.service.ts:365-383 | a player starting a new round gains 2 coins, loses the pass and the played cards, keeps the hand, and tops it up to four with the front cards of the reshuffled catalog |
| GamesService.NextRound | src/game/game.service.ts:360-383 | the round number goes up by one, the other seat opens, health is unchanged, and each player starts the round (coins in, pass and played cards cleared, hand topped up), seat 0 drawing first and seat 1 from the catalog that left; the catalog stays a rearrangement |
| GamesService.EndRound | src/game/game.service.ts:331-387 | when damage leaves a seat at zero health, the game ends and leaves the registry, the other ids keeping their order and the catalog untouched: seat 0 wins if it still has health, else seat 1, and the loser is seat 0 if it has no health, else seat 1. Otherwise the next round starts, each damaged player starting it as `StartRoundFor` states, the registry order kept and the catalog left as seat 1's draw reordered it. Other games are untouched |
| GamesService.KnockOut | src/game/game.service.ts:350-357 | a knocked-out game ends with seat 0 as winner exactly when it still has health, so a double knock-out goes to seat 1; it leaves the registry, the other ids keep their order, and other games are untouched |
| GamesService.EndGame | src/game/game.service.ts:397-416 | a missing game is ignored; otherwise the game is marked finished with the given winner and loser and removed from the registry and its order, the other ids keeping their order; other games are untouched |
| GamesService.Timeout | src/game/game.service.ts:176-188 | does nothing exactly when the game is gone or finished; otherwise the pass on the current seat's socket always succeeds |
| GamesService.TimeoutPassesCurrentSeat | src/game/game.service.ts:180-187 | when the seats have different sockets, the timeout passes for the current seat |
| GamesService.TimeoutBeforeJoinPassesSeatZero | src/game/game.service.ts:180-187 | when both seats are on the same socket, for example before anyone joined, the timeout passes for seat 0 even on seat 1's turn |
| GamesService.FirstSeated | src/game/game.service.ts:154-158 | finds the first registered game, in registration order, that seats the socket, together with the first seat it holds there |
| GamesService.HandlePlayerDisconnect | src/game/game.service.ts:153-168 | the first game, in registration order, that seats the socket ends with that seat losing and the other winning; a game ends exactly when some registered game seats the socket; no such game means nothing changes |
| GameInvariants.InitialValid | src/game/game.service.ts:59 | the empty registry with the catalog in its initial order satisfies the invariant |
| GameInvariants.SumsNonNegative | src/game/game.service.ts:389-395 | catalog cards never sum to negative damage or defence |
| GameInvariants.RoundLossBounded | src/game/game.service.ts:339-348 | with catalog cards played, a round costs a player at most the damage the opponent played: defence only absorbs |
| GameInvariants.StartRoundForPreserves | src/game/game.service.ts:365-383 | a valid player starting a round has a full four-card hand of catalog cards and stays valid |
| GameInvariants.EndRoundPreserves | src/game/game.service.ts:331-387 | resolving a round keeps the registry invariant: every registered game is live, alive, debt-free and holds four cards between hand and table |
| GameInvariants.EndGamePreserves | src/game/game.service.ts:397-416 | ending a game keeps the registry invariant |
| GameInvariants.PlayPreserves | src/game/game.service.ts:271-278 | an affordable card played from a live game leaves it live: coins stay non-negative and the cards stay four in all |
| GameInvariants.SettlePreserves | src/game/game.service.ts:283-286 | storing a live game and resolving its round when it is over keeps the registry invariant |
| GameInvariants.NewPlayerValid | src/game/game.service.ts:102-130 | a player dealt from the catalog starts valid, and the catalog stays a rearrangement |
| GameInvariants.PlayCardPreserves | src/game/game.service.ts:247-291 | a successful card play keeps the registry invariant |
| GameInvariants.PassSeatPreserves | src/game/game.service.ts:306-315 | a seat passing keeps the registry invariant |
| GameInvariants.PassRoundPreserves | src/game/game.service.ts:293-320 | a successful pass keeps the registry invariant |
| GameInvariants.TimeoutPreserves | src/game/game.service.ts:176-188 | the turn timeout keeps the registry invariant |
| GameInvariants.JoinGamePreserves | src/game/game.service.ts:132-151 | joining keeps the registry invariant |
| GameInvariants.DisconnectPreserves | src/game/game.service.ts:153-168 | a disconnect keeps the registry invariant |
| GameInvariants.StartGamePreserves | src/game/game.service.ts:79-130 | starting a game keeps the registry invariant |
| GameInvariants.EndRoundAdvances | src/game/game.service.ts:331-383 | resolving a round never lowers the round number, never raises health, and keeps the game's id and players |
| GameInvariants.KnockOutVerdict | src/game/game.service.ts:350-357 | a game ended by a round has two different seats as winner and loser; the loser has no health, and the winner has some unless both were knocked out, in which case seat 1 wins |
| GameInvariants.PlayCardAdvances | src/game/game.service.ts:275-286 | a successful card play moves the game forward: same players, no earlier round, nobody healed |
| GameInvariants.PassRoundAdvances | src/game/game.service.ts:306-315 | a successful pass moves the game forward |
| GameStore.SetGame | src/game/game-state.service.ts:8-10 | storing puts the game under its id and leaves other ids untouched; an id already stored keeps its place in the order, and a new id goes last |
| GameStore.GetGame | src/game/game-state.service.ts:12-14 | finds the stored game exactly when the id is stored |
| GameStore.DeleteGame | src/game/game-state.service.ts:16-18 | the id is gone, the other ids are untouched and keep their order; deleting an absent id changes nothing |
| GameStore.HasGame | src/game/game-state.service.ts:20-22 | true exactly when a lookup would find a game |
| GameStore.GetAllGames | src/game/game-state.service.ts:24-26 | lists every stored game exactly once under its id, in first-insertion order |
| GameStore.GetAfterSet | src/game/game-state.service.ts:8-14 | a lookup after storing finds the stored game, and finds the same as before for any other id |
| GameStore.GetAfterDelete | src/game/game-state.service.ts:12-18 | a lookup after deleting finds nothing for that id, and the same as before for any other id |
| GameStore.DeleteUndoesSet | src/game/game-state.service.ts:8-18 | deleting a game just stored under a fresh id gives back the original store |
| GameStore.OperationsPreserve | src/game/game-state.service.ts:6-18 | storing and deleting keep the order listing each stored id exactly once |
| Matchmaking.SetMatch | src/matchmaking/matchmaking.service.ts:81 | `matches.set`: a match with an id already present replaces it in place; otherwise the match is added at the end |
| Matchmaking.FindMatch | src/matchmaking/matchmaking.service.ts:94 | finds the match with the id, and nothing exactly when no match has it |
| Matchmaking.DeleteMatch | src/matchmaking/matchmaking.service.ts:59 | removing by id keeps exactly the matches with other ids, and an id no match has changes nothing |
| Matchmaking.DeleteMatchAppend | src/matchmaking/matchmaking.service.ts:59 | removing by id keeps the order of the remaining matches: each piece of a concatenation loses the id separately |
| Matchmaking.DeleteMatchSingle | src/matchmaking/matchmaking.service.ts:59 | removing by id drops exactly the matches with that id |
| Matchmaking.DeleteMatchUnique | src/matchmaking/matchmaking.service.ts:59 | removing by id keeps the remaining match ids unique |
| Matchmaking.FindMatchWith | src/matchmaking/matchmaking.service.ts:49-51 | finds the first match, in insertion order, that holds the socket; nothing exactly when none does |
| Matchmaking.RemoveFromQueue | src/matchmaking/matchmaking.service.ts:38-46 | an absent socket changes nothing; otherwise its first occurrence is cut out, the others keep their order, and the matches are untouched |
| Matchmaking.RemoveFromQueueSpec | src/matchmaking/matchmaking.service.ts:38-46 | leaving the queue keeps the lobby valid, and the socket is no longer queued |
| Matchmaking.TryMatchPlayers | src/matchmaking/matchmaking.service.ts:63-106 | afterwards fewer than two sockets wait; the waiting ones are the queue's unpaired tail; two notices go out per match |
| Matchmaking.TryMatchPlayersFifo | src/matchmaking/matchmaking.service.ts:64-81 | pairing goes strictly first come, first served: the first two queued sockets form the first new match, the next two the second, and so on, each uncancelled and starting 5000 ms after `now`; pending matches are kept in front |
| Matchmaking.AddToQueue | src/matchmaking/matchmaking.service.ts:28-36 | a socket already queued is ignored; otherwise it joins the end of the queue and pairing runs |
| Matchmaking.Pair | src/matchmaking/matchmaking.service.ts:65-90 | the two sockets at the front of the queue leave it and form a match under the given id, uncancelled and starting five seconds from now, stored as `matches.set` does; both are told the id, the start time and the 5-second countdown, the first socket first |
| Matchmaking.AddToQueueSpec | src/matchmaking/matchmaking.service.ts:28-36 | adding a queued socket changes nothing. Otherwise the newcomer waits alone, or pairs with the one waiting socket into a new match under the next id, both players being told the start time and the 5-second countdown. The lobby stays valid, with no socket queued twice and no match pairing a socket with itself. A socket already in a match can be queued again |
| Matchmaking.CancelMatch | src/matchmaking/matchmaking.service.ts:48-61 | does nothing exactly when the socket is in no match; otherwise notices go out: both players of the first match holding it are told and that match is dropped; the queue is untouched, so nobody is re-queued |
| Matchmaking.CancelMatchPreserves | src/matchmaking/matchmaking.service.ts:48-61 | cancelling keeps the lobby valid |
| Matchmaking.Opponent | src/matchmaking/matchmaking.service.ts:99 | the opponent named is a player of the match other than the recipient, if there is one |
| Matchmaking.Fire | src/matchmaking/matchmaking.service.ts:93-104 | a countdown for a match that is gone does nothing; otherwise, if the match is not cancelled, its players are told the game starts and the match is dropped |
| Matchmaking.FirePreserves | src/matchmaking/matchmaking.service.ts:93-104 | a game start keeps the lobby valid |
| Matchmaking.FireAfterCancel | src/matchmaking/matchmaking.service.ts:93-103 | once a match is cancelled, its countdown running out changes nothing and sends nothing |
| Matchmaking.FireStartsBoth | src/matchmaking/matchmaking.service.ts:93-103 | firing a pending match of a valid lobby, whose two players always differ, tells each of its two players that the game starts against the other, and removes the match |
| Matchmaking.EmptyLobbyGood | src/matchmaking/matchmaking.service.ts:19-20 | the empty queue with no matches is valid |
| Matchmaking.AddToQueueAsWritten | src/matchmaking/matchmaking.service.ts:28-36 | with clock-derived ids, a queued socket is ignored, and otherwise fewer than two sockets are left waiting |
| Matchmaking.TryMatchPlayersAsWritten | src/matchmaking/matchmaking.service.ts:63-81 | with clock-derived ids, fewer than two sockets are left waiting, and two notices go out per match |
| Matchmaking.SameMillisecondLosesMatch | src/matchmaking/matchmaking.service.ts:70-81 | with clock-derived ids, four sockets joining in one millisecond leave only the second match pending: the first two players are in no match |
| Matchmaking.DistinctIdsKeepMatches | src/matchmaking/matchmaking.service.ts:63-81 | with a fresh id per match, the same four sockets end up in two pending matches, (first, second) then (third, fourth) |

## Left out

- **Database.** Creating and updating game records, loading usernames, and the card CRUD calls are database work. The game id, the username found and the card-count cache are parameters.
- **Timers.** Starting and clearing the turn timer, and the 30-second delay itself, are not modelled. `GamesService.Timeout` and `Matchmaking.Fire` can be applied at any moment, which includes every moment a timer could fire.
- **Randomness.** `Math.random` for the opening seat and the random sort comparator are not modelled. The seat is a parameter, and the comparator's effect is a list of swaps.
- **Broadcasts.** The game service's state broadcasts and log lines are not modelled; its view builder is. The matchmaking emits are modelled as `Notice` values.
- **Concurrency.** The service's `await`s can let other events interleave with an operation; each operation here is atomic.
- **Token verification.** Verifying the token is a library call, and it is a function parameter. Storing the payload on the socket is not modelled.
- **Gateways and controllers.** These are transport dispatch only, and are not part of this model. That includes the extra `userId` argument the matchmaking gateway passes to `addToQueue`.
- **Match id text.** The match id is modelled as its number. The text `match_<n>` is a one-to-one rendering of that number.
- **Unused fields.** The card timestamps and the unused `cardsOnDesk` field are not modelled. The catalog card descriptions are all empty.
- Matchmaking.TryMatchPlayers: reads the clock once per call, while the code reads it once per pair formed. In a valid lobby at most one pair forms per call (`Matchmaking.AddToQueueSpec`), so this loses nothing there.
- Matchmaking.TryMatchPlayers: gives each match a fresh id from a counter instead of the clock. `Matchmaking.TryMatchPlayersAsWritten` keeps the clock-derived ids; see Findings.
- Matchmaking.TryMatchPlayers: leaves out the unreachable `continue` for a missing queue entry.

## Findings

| source | as written | input that shows it | evidently intended | confidence | as-written member | corrected member |
|---|---|---|---|---|---|---|
| src/matchmaking/matchmaking.service.ts:70-81 | the match id comes from `Date.now()`, and `matches.set` replaces a pending match with the same id | sockets A, B, C and D join the queue within one millisecond: the (C, D) match replaces (A, B), so A and B are in no match, can no longer cancel, and never get a game start | every match is stored under its own id and stays pending until it starts or is cancelled | medium; not executed | Matchmaking.SameMillisecondLosesMatch | Matchmaking.DistinctIdsKeepMatches |
