# UNO game engine, modelled in Dafny

This project models the engine of a small multiplayer UNO server (`uno_server.js`)
and the part of its React Native client (`Game.tsx`) that decides what the
player may send. It also proves properties of both.

The server keeps a dictionary `games` from room id to a room object. A room object holds:

- the ordered `players`, each with an id, a name and a `wins` flag;
- a `deck` and a `discardPile` of card objects;
- a hand per player id;
- a turn cursor `currentPlayerIndex`;
- an `isOver` flag.

Handlers run one at a time and update a room object in place. The model follows that shape:

- `Cards` holds the colour and value tables, the 108-card deck `generateDeck` builds and its Fisher–Yates shuffle (`Shuffling`). `Shuffling.ShuffleInPlace` shuffles an `array` in place, as the source does.
- `Tables` holds the room object as a value, called `Table`, and its invariant `Sound`. It also holds `getCurrentPlayerId`, `getTopEffectiveColor` and the per-player snapshot.
- `Dealing.Init` is `initGameForRoom` as a function of the room and the freshly generated deck. `Dealing.Admit` is the body of a join on one room.
- `Actions.Step` is the body of `POST /action/:roomId` on one room. It returns the response and the new room.
- `Session.GameSession` is a class with the room object's fields. Its methods (`StartWith`, `Join`, `Act` and the steps under it) change those fields step by step, with the source's loops. Each method is proved to leave the fields exactly as the matching function says.
- `Rooms` holds the dictionary `games` as a value (`Games`), with join, listing, snapshot and action over it. `Server.Registry` is the class holding that dictionary.
- `Client` is the player's screen: `canPlayCard`, the turn gate of `doAction`, the hand-card press and the wild-colour chooser. Each is a function from the chooser state to the new state and the action it uploads, if any.

The random choices of `shuffle` are a parameter `roll: nat -> nat`; the `i`-th step swaps with
`roll(i) % (i + 1)`. The ids `uuidv4` hands out are a parameter `uuid: nat -> CardId`; card `k` of
the build order gets `uuid(k)`. The fresh room id for `null` is a parameter of the join.

## Model

| member | source | states |
|---|---|---|
| Shuffling.Pick | uno_server.js:43 | the swap partner of step `i` lies in `[0, i]` |
| Shuffling.Swap | uno_server.js:44 | swapping two cells exchanges exactly those cells, leaves every other cell as it was, and keeps the multiset |
| Shuffling.ShuffleFromPermutes | uno_server.js:41-47 | the loop from any index down to 1 keeps length and multiset |
| Shuffling.ShuffledPermutes | uno_server.js:41-47 | `shuffle` returns a permutation of its input, for every sequence of random choices |
| Shuffling.ShuffledMembers | uno_server.js:41-47 | a card is in the shuffled deck exactly when it was in the input |
| Shuffling.ShuffleFromMap | uno_server.js:41-47 | shuffling commutes with mapping each element, from any index down |
| Shuffling.ShuffledMap | uno_server.js:41-47 | shuffling then mapping equals mapping then shuffling with the same choices |
| Shuffling.SwapCells | uno_server.js:44 | the array after the swap is `Swap` of the array before |
| Shuffling.ShuffleInPlace | uno_server.js:41-47 | the in-place loop on an array leaves `Shuffled` of the old contents, a permutation |
| Shuffling.Shuffle | uno_server.js:41-47 | shuffling a copy returns `Shuffled` of the input, same length and multiset |
| Cards.ColorOfName | uno_server.js:296 | a `chosenColor` string is accepted exactly when it is one of red/blue/green/yellow, and then names a real colour |
| Cards.ColorNameRoundTrip | uno_server.js:318 | naming a real colour and reading the name back gives that colour |
| Cards.ValuesFacts | uno_server.js:23 | `VALUES` has no repeats and holds exactly the values that are not wild |
| Cards.ColorsFacts | uno_server.js:22 | `COLORS` is red, blue, green, yellow, without repeats, and holds every colour but wild |
| Cards.DistinctCount | uno_server.js:22-23 | an element of a list without repeats occurs once in its multiset |
| Cards.CopiesCount | uno_server.js:54-55 | one value of one colour pushes only cards of that kind |
| Cards.ColorRunCount | uno_server.js:53-56 | the inner loop pushes one `0` and two of every other value of the colour; its length is twice the values less one for `0` |
| Cards.ColorRunOther | uno_server.js:53-56 | the inner loop for one colour pushes no card of another colour |
| Cards.ColorRunValuesCount | uno_server.js:53-56 | per colour, the deck gets one `0` and two each of 1–9, `ban`, `reverse`, `draw_2` |
| Cards.ColorRunSize | uno_server.js:53-56 | the inner loop pushes 25 cards per colour |
| Cards.ColorsRunCount | uno_server.js:52-57 | the outer loop pushes the per-colour counts for the listed colours only, 25 per colour |
| Cards.WildRunCount | uno_server.js:59-61 | `r` rounds of the wild loop push `r` wild `change_color` and `r` wild `draw_4`, nothing else |
| Cards.CanonicalComposition | uno_server.js:50-63 | the unshuffled deck has 108 cards and exactly the canonical count of every kind |
| Cards.CanonicalWellFormed | uno_server.js:50-63 | every built card has a wild colour exactly when it has a wild value |
| Cards.LabelKinds | uno_server.js:54-60 | labelling kinds with fresh ids keeps the kinds in order |
| Cards.LabelSnoc | uno_server.js:54-60 | pushing one more card gives it the next fresh id |
| Cards.LabelIds | uno_server.js:54-60 | the `k`-th pushed card carries the `k`-th fresh id |
| Cards.ColorRunStep | uno_server.js:53-56 | one more iteration of `VALUES.forEach` appends the copies of that value |
| Cards.ColorsRunStep | uno_server.js:52-57 | one more iteration of `COLORS.forEach` appends that colour's run |
| Cards.PushColor | uno_server.js:53-56 | the inner loop appends, with fresh ids, exactly the run of one colour |
| Cards.PushWildRound | uno_server.js:60 | one round of the wild loop appends wild `change_color` then wild `draw_4` |
| Cards.WildRunSnoc | uno_server.js:59-61 | one more round of the wild loop appends one round's kinds |
| Cards.CanonicalSize | uno_server.js:50-63 | the unshuffled deck has 108 cards |
| Cards.GenerateDeck | uno_server.js:50-63 | `generateDeck` returns the shuffle of the canonical deck: 108 cards, a permutation of it |
| Cards.GeneratedDeckKinds | uno_server.js:50-63 | the generated deck holds exactly the canonical number of every (colour, value) kind, for all random choices |
| Cards.GeneratedDeckIds | uno_server.js:50-63 | the generated deck's ids are the 108 fresh ids, each once |
| Cards.GeneratedWellFormed | uno_server.js:50-63 | every generated card is wild-coloured exactly when it has a wild value |
| Tables.PlayerIndex | uno_server.js:167 | `findIndex` by id: the first seat with that id, or -1 when none has it |
| Tables.FindPlayer | uno_server.js:241 | `find` by id finds a seated player with that id exactly when the id is seated |
| Tables.EmptyTableSound | uno_server.js:153-159 | the empty room object satisfies the room invariant |
| Tables.CurrentPlayerId | uno_server.js:114-118 | there is no current player exactly for an empty room; otherwise it is a seated id |
| Tables.CurrentPlayerSeat | uno_server.js:114-118 | the current id is looked up again at the cursor's own seat |
| Tables.TopCard | uno_server.js:230 | the top card is the last discard, none for an empty pile |
| Tables.TopEffectiveColor | uno_server.js:31-38 | the effective colour is the top card's colour, none for an empty pile |
| Tables.TopColorIsReal | uno_server.js:31-38 | in a sound room the effective top colour is never `wild` |
| Tables.HandOf | uno_server.js:279 | a player's hand, and the empty hand for a player who has none |
| Tables.Snapshot | uno_server.js:220-250 | the snapshot carries the top card, the player's own hand, the seats, `isOver`, and `canPlay` exactly on that player's turn |
| Tables.SnapshotNamesCurrentPlayer | uno_server.js:239-245 | the current name is the current seat's name, and empty when there is no current player or its id is empty |
| Tables.SnapshotHidesOtherHands | uno_server.js:233 | a change to another player's hand does not change this player's snapshot |
| Dealing.DrawSeed | uno_server.js:80-86 | the seed loop pops past wild values to the first other card; it fails exactly when every card is wild-valued |
| Dealing.FreshSeed | uno_server.js:80-86 | on a fresh deck the seed is found and leaves 99 to 107 cards |
| Dealing.ResetWins | uno_server.js:73-75 | every seat keeps its id and name, with `wins` false |
| Dealing.ResetWinsIds | uno_server.js:73-75 | resetting `wins` keeps the seated ids and their distinctness |
| Dealing.DealtHand | uno_server.js:95-100 | each dealt hand has seven cards |
| Dealing.DealKeys | uno_server.js:93-101 | dealing to the first `n` players gives hands to exactly their ids |
| Dealing.DealHands | uno_server.js:93-101 | player `q` receives the `q`-th block of seven pops |
| Dealing.DealCardsFrom | uno_server.js:93-101 | every dealt card comes from the deck |
| Dealing.DealShape | uno_server.js:93-101 | the keys, the blocks and the provenance of the deal together |
| Dealing.WildCountConcat | uno_server.js:82-86 | the wild-value count of two decks is the sum of their counts |
| Dealing.WildCountAllWild | uno_server.js:82-86 | a deck of wild values only counts all its cards |
| Dealing.WildKindsCountAdd | uno_server.js:82-86 | adding one kind raises the wild count exactly when its value is wild |
| Dealing.WildCountByKinds | uno_server.js:82-86 | the wild count depends only on the multiset of kinds |
| Dealing.GeneratedWildCount | uno_server.js:59-61 | a generated deck has exactly eight wild-valued cards |
| Dealing.GeneratedFresh | uno_server.js:77 | a generated deck is fresh: 108 cards, eight wild-valued, each wild-coloured exactly when wild-valued |
| Dealing.Init | uno_server.js:66-111 | after `initGameForRoom` every `wins` is false and `isOver` is false; a failed deal leaves deck, discard and hands empty |
| Dealing.InitCases | uno_server.js:66-111 | unfolds `Init` into its three outcomes: no seed empties deck, discard and hands with the cursor kept; too few cards does the same with the cursor at 0; otherwise one seed card, seven-card hands, the rest of the deck, cursor 0 |
| Dealing.InitSucceeds | uno_server.js:80-101 | the deal succeeds exactly when a seed is found and seven cards per player remain after it |
| Dealing.InitDeals | uno_server.js:85-101 | after a success the discard is one non-wild card, every player holds seven cards and no `wins`, the cursor is 0, and the deck shrinks by the dealt cards |
| Dealing.InitFails | uno_server.js:104-110 | after a failure deck, discard and hands are empty, `isOver` is false and no one has `wins` |
| Dealing.InitCapacity | uno_server.js:77-101 | with a fresh deck, up to 14 players are always dealt in and 16 or more never are |
| Dealing.InitCardsFrom | uno_server.js:77-101 | every card of the dealt room comes from the new deck |
| Dealing.InitSound | uno_server.js:66-111 | dealing to two or more players with distinct ids from a fresh deck gives a sound room |
| Dealing.Admit | uno_server.js:162-193 | a join by a seated id changes nothing; otherwise the seats gain exactly the new id, ids stay distinct |
| Dealing.AdmitNew | uno_server.js:167-185 | unfolds `Admit` for an id not yet seated: the new id is appended with `wins` false, and the room is re-dealt when two or more sit |
| Dealing.AdmitIdempotent | uno_server.js:167-177 | joining twice with the same id is the same as joining once |
| Dealing.AdmitRedeals | uno_server.js:169-185 | every new join that leaves two or more players resets `wins` and `isOver` and, when at most 14 players sit after it, re-deals seven cards each |
| Dealing.AdmitFirst | uno_server.js:169-183 | the first join only seats the player |
| Dealing.AdmitSound | uno_server.js:162-193 | a join keeps the room sound |
| Actions.CardIndex | uno_server.js:280 | `findIndex` by card id: the first card with that id, or -1 |
| Actions.After | uno_server.js:384 | the next seat stays in range |
| Actions.AfterIsMod | uno_server.js:384 | the next seat is `(i + 1) % n` |
| Actions.Advance | uno_server.js:384 | any number of default advances stays in range |
| Actions.AdvanceWithin | uno_server.js:384 | up to a full round, `k` default advances move `k` seats, wrapping once |
| Actions.AdvanceCycles | uno_server.js:384 | `n` default advances at `n` seats come back to the start, and no fewer do |
| Actions.TurnCheck | uno_server.js:266-274 | an action passes the turn check exactly when the actor sits at the cursor; the rejection reports the current id |
| Actions.NotYourTurnRejected | uno_server.js:266-274 | an action by anyone but the current player is refused with the current id and name (`未知玩家` when unnamed) and changes nothing |
| Actions.PlayCheck | uno_server.js:277-307 | a card id not in the actor's hand is refused as not owned, and every refusal is one of the three 400 replies; `PlayChecks` gives each case |
| Actions.Rejection | uno_server.js:266-307 | a refusal is never success; a failed turn check is the refusal whatever the action; an action is refused exactly when the turn check fails or, for `PLAY_CARD`, a card check fails |
| Actions.Step | uno_server.js:266-384 | the handler answers success exactly when nothing refuses the action; a refusal answers that reason and leaves the room as it was; the seats keep their number. `StepKeepsSound`, `NotYourTurnRejected`, `PlayChecks`, `PlayStep` and `OtherAdvances` give the rest |
| Actions.PlayChecks | uno_server.js:277-307 | a card not in the hand, a wild card without an accepted colour, and a non-matching card are each refused with nothing changed; the play succeeds exactly when none applies |
| Actions.OtherAdvances | uno_server.js:370-384 | an action of any other type is accepted and only moves the cursor one seat |
| Actions.Penalty | uno_server.js:326-340 | a draw penalty pops `min(k, deck size)` cards onto the hand, last card first |
| Actions.MarkWon | uno_server.js:355-358 | only the actor's seat gets `wins`; the others keep theirs |
| Actions.Placed | uno_server.js:313-319 | the card pushed on the discard keeps its id and value and gets the chosen colour if it was wild |
| Actions.PlayFacts | uno_server.js:277-307 | a play that passes every check has the actor's hand, a card in it and a discard pile |
| Actions.Moved | uno_server.js:309-313 | moving the card keeps seats, cursor, deck and which players have hands |
| Actions.Draw | uno_server.js:370-382 | drawing keeps seats, cursor and `isOver` |
| Actions.PlayFactsThen | uno_server.js:309-368 | an accepted play leaves the seat count unchanged and the cursor on a seat |
| Actions.SeatsKept | uno_server.js:347-358 | reversing the seats or marking a winner keeps the seated ids and their distinctness |
| Actions.Effect | uno_server.js:321-349 | an effect keeps the number of seats, the cursor on a seat, the discard pile, `isOver` and the hand owners; `EffectFrame`, `EffectPenalty` and `EffectCursor` give each value's change |
| Actions.SkipFinished | uno_server.js:366-368 | only the cursor can change; it moves only when the seat at the cursor has won, and then to the next seat |
| Actions.Play | uno_server.js:309-368 | an accepted play keeps the number of seats and the cursor on a seat, and its discard pile is the old one with the played card on top; `PlayMovesCard`, `PlayPenalty`, `PlayWins` and `PlayTurnOrder` give the rest |
| Actions.EffectFrame | uno_server.js:321-349 | an effect leaves the discard, `isOver` and hand owners alone, reverses the seats only for `reverse`, and touches only the next player's hand |
| Actions.EffectPenalty | uno_server.js:322-341 | `draw_2`/`draw_4` move `min(k, deck size)` cards from the deck's end to the next player |
| Actions.DrawEffect | uno_server.js:322-341 | unfolds `Effect` for `draw_2` and `draw_4`: the effect's deck and the next hand are those of `Penalty` |
| Actions.PlayStep | uno_server.js:309-384 | an accepted play answers success and ends with the final `+1` after the play |
| Actions.PlayTail | uno_server.js:351-368 | the win check and skip change neither hands, deck nor discard |
| Actions.PlayMovesCard | uno_server.js:309-319 | an accepted play removes exactly that card from the hand (one fewer, the rest in order), pushes it recoloured on the discard, and changes no other hand but the penalised one |
| Actions.PlayPenalty | uno_server.js:322-341 | `draw_2` and `draw_4` give the next player the deck's last `min(k, deck size)` cards |
| Actions.PlayWins | uno_server.js:351-364 | emptying the hand marks the actor as winner and sets `isOver` exactly when all have won; otherwise seats and `isOver` are unchanged |
| Actions.WonFrame | uno_server.js:351-364 | the win check changes only `wins` and `isOver` |
| Actions.PlayStages | uno_server.js:309-368 | unfolds `Play`: a play is move, effect, win check, then skip-finished |
| Actions.EffectSeat | uno_server.js:321-349 | the cursor after an effect stays on a seat |
| Actions.EffectCursor | uno_server.js:321-349 | the cursor after the effect is the effect's seat for the played value |
| Actions.PlayCursor | uno_server.js:366-368 | the finished-player step happens exactly when the seat at the post-effect index has `wins` |
| Actions.PlayTurnOrder | uno_server.js:321-384 | the whole cursor move of a play: effect seat, the extra step for a finished seat there, then `+1` |
| Actions.PlainCardPassesTurn | uno_server.js:384 | a number or `change_color` card that does not end the hand passes the turn to the next seat |
| Actions.SkipCardPassesOver | uno_server.js:322-384 | `ban`, `draw_2` and `draw_4` pass over the next seat, one more if the skipped seat has won |
| Actions.ReverseHandsBack | uno_server.js:345-384 | after `reverse` the turn goes to the player who sat before the actor |
| Actions.PlayWinningNumber | uno_server.js:351-368 | a last number card marks the actor, whose own seat is then at the post-effect index and takes the extra step |
| Actions.WinningNumberSkipsNext | uno_server.js:351-384 | after a winning number card the next player is passed over as well |
| Actions.DrawFromDeck | uno_server.js:372-384 | with cards in the deck the actor gains its last card and the turn moves one seat; nothing else changes |
| Actions.DrawReshuffles | uno_server.js:374-384 | with an empty deck and two or more discards, the cards under the top are shuffled into the deck, the top stays alone, and the actor gets one of them; the new deck has two fewer cards than the old discard pile |
| Actions.DrawNothing | uno_server.js:374-384 | with an empty deck and at most one discard nothing is drawn and only the cursor moves |
| Actions.CursorMoveSound | uno_server.js:384 | moving the cursor to a seat keeps the room sound |
| Actions.HandsMarkedAfterPlay | uno_server.js:310-328 | after removing a card and adding penalty cards, every hand card is still wild-coloured only if wild-valued |
| Actions.PlayHandsMarked | uno_server.js:309-368 | the same, for a whole play |
| Actions.SoundAfterPlay | uno_server.js:309-368 | the conditions under which a played room is sound |
| Actions.PlaySeatsSound | uno_server.js:345-368 | a play keeps the seated ids distinct and the cursor on a seat |
| Actions.PlayDeckFrom | uno_server.js:322-341 | the deck after a play is part of the deck before |
| Actions.PlayKeepsSound | uno_server.js:309-368 | an accepted play keeps the room sound |
| Actions.SoundAfterDraw | uno_server.js:370-382 | the conditions under which a room after a draw is sound |
| Actions.ReshuffledColored | uno_server.js:375-378 | reshuffled discards are never `wild`-coloured, because played wild cards were recoloured |
| Actions.DrawKeepsSound | uno_server.js:370-384 | a draw keeps the room sound |
| Actions.StepKeepsSound | uno_server.js:257-394 | every action, accepted or refused, keeps the room sound |
| Session.GameSession.constructor | uno_server.js:153-159 | a new room object is the empty room and sound |
| Session.GameSession.From | uno_server.js:162 | a room object with the given fields |
| Session.GameSession.StartWith | uno_server.js:66-111 | the in-place `initGameForRoom` leaves the fields as `Init` says and reports success |
| Session.GameSession.StartGame | uno_server.js:66-111 | `initGameForRoom` with a generated deck |
| Session.GameSession.Join | uno_server.js:162-193 | the in-place join leaves the fields as `Admit` with a generated deck says |
| Session.GameSession.Seat | uno_server.js:169 | `players.push` appends the new seat and changes nothing else |
| Session.GameSession.Act | uno_server.js:266-384 | the in-place action handler returns the response and leaves the fields as `Step` says, keeping the room sound |
| Session.GameSession.Perform | uno_server.js:276-384 | the accepted branch of the handler |
| Session.GameSession.PlayCardStep | uno_server.js:309-368 | the in-place play ends as `Play` says |
| Session.GameSession.FinishPlay | uno_server.js:351-368 | the win check and skip-finished in place |
| Session.GameSession.MoveCard | uno_server.js:309-319 | `splice`, `push` and the recolouring in place |
| Session.GameSession.ApplyEffect | uno_server.js:321-349 | the effect of the played value in place, the `reverse` of `players` included |
| Session.GameSession.DrawStep | uno_server.js:370-382 | the `DRAW_CARD` branch in place, reshuffle included |
| Session.DrawPenalty | uno_server.js:326-340 | the penalty loop returns `Penalty` of the deck and hand |
| Session.MarkWinner | uno_server.js:355-363 | returns the seats with the actor marked and whether all have won |
| Session.JoinRoom | uno_server.js:162-193 | a join run on a room object returns `Admit` of the room |
| Session.ClearWins | uno_server.js:73-75 | the `forEach` loop returns the seats with `wins` reset |
| Session.TurnUpSeed | uno_server.js:80-86 | the `do … while` loop finds the seed exactly when `DrawSeed` does, with the same rest and card |
| Session.DealFromDeck | uno_server.js:93-101 | the nested deal loops succeed exactly when enough cards remain and then give `Deal`'s hands and the rest |
| Rooms.NoGamesOk | uno_server.js:19 | the empty dictionary is well formed |
| Rooms.Target | uno_server.js:146-150 | `'null'` is replaced by the fresh id, any other id is kept |
| Rooms.JoinGames | uno_server.js:145-196 | the join targets the resolved id, keeps every other room, and the room keys gain at most that id |
| Rooms.StateOf | uno_server.js:220-250 | an unknown room is the 404; otherwise the snapshot |
| Rooms.JoinCreates | uno_server.js:146-169 | `'null'` or an unknown id creates the room, with the joining player alone in it, listed last |
| Rooms.RejoinChangesNothing | uno_server.js:167-177 | re-joining with a seated id leaves the whole dictionary unchanged |
| Rooms.JoinRedeals | uno_server.js:169-185 | a new player joining a non-empty room triggers the re-deal |
| Rooms.PutKeepsOk | uno_server.js:152-160 | storing a sound room keeps the dictionary well formed |
| Rooms.JoinKeepsOk | uno_server.js:145-196 | a join keeps the dictionary well formed |
| Rooms.JoinPut | uno_server.js:145-196 | a join stores the joined room under the resolved id and lists a new room last |
| Rooms.Listing | uno_server.js:133-139 | `GET /rooms` on the dictionary; `ListFromShape` and `ListingCoversRooms` state its entries |
| Rooms.ListFromShape | uno_server.js:133-139 | the listing has one entry per listed room id with its player count and names in seat order |
| Rooms.ListingCoversRooms | uno_server.js:133-139 | every room appears in the listing, exactly once |
| Rooms.ActGames | uno_server.js:257-264 | `POST /action` on the dictionary; `ActUnknownRoom`, `ActTouchesOneRoom` and `ActKeepsOk` state it: the 404 for an unknown room, otherwise one room changes |
| Rooms.ActUnknownRoom | uno_server.js:262-264 | an action on an unknown room is the 404 and changes nothing |
| Rooms.ActTouchesOneRoom | uno_server.js:257-394 | an action changes only its own room, and a refused one changes nothing |
| Rooms.ActPut | uno_server.js:257-394 | the action stores the handler's new room under its id |
| Rooms.ActKeepsOk | uno_server.js:257-394 | an action keeps the dictionary well formed |
| Server.Registry.constructor | uno_server.js:19 | `const games = {}` |
| Server.Registry.Join | uno_server.js:145-196 | the join handler leaves the dictionary as `JoinGames` says and returns the room id |
| Server.Registry.ListRooms | uno_server.js:133-142 | `GET /rooms` returns `Listing` of the dictionary |
| Server.Registry.State | uno_server.js:220-250 | `GET /state` returns `StateOf` of the dictionary |
| Server.Registry.Act | uno_server.js:257-394 | `POST /action` returns the response and leaves the dictionary as `ActGames` says |
| Server.JoinInto | uno_server.js:145-196 | the join on the dictionary, with the room loaded into a room object and stored back, equals `JoinGames` and keeps it well formed |
| Server.Listed | uno_server.js:134-139 | the `map` over the rooms returns `ListFrom` |
| Client.HasWon | Game.tsx:175-176 | `fetchState` sets `won` from this player's own seat: true only when that seat has `wins`, and true when every seat with this id has it |
| Client.CanPlayCard | Game.tsx:276-288 | playable with no top card; never while `won` is true; otherwise wild, same colour or same value |
| Client.DoAction | Game.tsx:262-273 | the action is uploaded exactly on this player's turn, otherwise the alert |
| Client.OnWildCardPress | Game.tsx:67-70 | the card id is stored and the modal opened |
| Client.ChooseColor | Game.tsx:72-84 | the chooser is always reset |
| Client.CancelChoose | Game.tsx:85-88 | the chooser is reset without sending |
| Client.PressDraw | Game.tsx:378-380 | the draw pile uploads `DRAW_CARD` on this player's turn and nothing otherwise |
| Client.Playable | Game.tsx:438 | a hand card is shown playable when it is this player's turn and `canPlayCard` holds; `ClientAgreesWithServer` and `WinnerSeesNothingPlayable` state what that means |
| Client.PressCard | Game.tsx:442-450 | the `onPress` of a hand card; `PressUnplayable`, `PressWild`, `PressPlain` and `NothingOffTurn` give its three cases |
| Client.PressUnplayable | Game.tsx:438-443 | pressing a card that is not playable changes nothing and sends nothing |
| Client.PressWild | Game.tsx:437-449 | pressing a playable wild card stores it and opens the modal without sending |
| Client.PressPlain | Game.tsx:446-447 | pressing another playable card sends `PLAY_CARD` with only its id |
| Client.NothingOffTurn | Game.tsx:262-267 | off turn, no press uploads anything |
| Client.ChoosePending | Game.tsx:72-84 | with a card pending, choosing a colour sends `PLAY_CARD` with that colour and resets the chooser |
| Client.ChooseNothingPending | Game.tsx:73-83 | with nothing pending, choosing only resets the chooser |
| Client.WildFlow | Game.tsx:437-449 | a wild press followed by a colour sends the card with that colour |
| Client.ChooserMatchesServer | Game.tsx:32 | the chooser's colours are exactly those the server accepts |
| Client.GateMatchesServer | Game.tsx:262-267 | the client's turn flag is exactly the server's turn check |
| Client.IndexOfOwnCard | uno_server.js:280 | with distinct card ids, the server's lookup finds the pressed card |
| Client.ClientAgreesWithServer | Game.tsx:276-288 | before winning, a non-wild hand card is shown playable exactly when the server accepts it; a wild one is shown playable and accepted with any chooser colour |
| Client.WinnerSeesNothingPlayable | Game.tsx:279-281 | while `won` is true and a card is on the discard pile, no card is shown playable |

## Left out

- Client.HasWon: `won` is modelled only as `fetchState` sets it. The confirm button of the win modal (Game.tsx:334) also sets it to false, and it stays false until the next `fetchState`. In that window a player who has won and holds cards again is shown cards as playable, which the model does not capture.
- HTTP routing, status codes, JSON bodies, payloads of unexpected shape, and console logging. Handlers are methods returning a response datatype; `None` stands for the 404.
- The WebSocket server and `broadcastUpdate`. They only notify clients.
- `/state/:roomId/init` is not modelled. It reads a request field that is never set.
- The 500 branches of join and action are not modelled. `initGameForRoom` catches its own errors, and the room invariant rules out the exceptions the action handler could raise.
- `Math.random` is not modelled. The shuffle's choices are the parameter `roll`.
- `uuidv4` is not modelled. Ids are the parameter `uuid` and a fresh-room-id parameter, so the model does not prove them unique.
- Room listing order: rooms are listed in creation order. JavaScript lists integer-like keys of `games` first, and that is not modelled.
- Server.Registry: stores rooms as values. Each handler loads its room into a `GameSession` object, runs the in-place method and stores the fields back. Aliasing of room objects across handlers is not modelled.
- Tables.TopEffectiveColor: the `chosenColor` branch is left out. Nothing ever writes that field, because a played wild card has its `color` overwritten instead.
- A missing `wins` or `isOver` field is read as false, as JavaScript's tests treat `undefined`.
- Actions.After: written as a comparison instead of `% n`. `Actions.AfterIsMod` proves the two equal.
- Session.GameSession.MoveCard: the wild card is recoloured before it is pushed; the source pushes it and then recolours the same object. The resulting pile is identical.
- Game.tsx rendering, styles, loading and error screens, `fetchState` and the WebSocket setup, and `getCardAsset` are not modelled.
- `App.tsx`, `connection.ts`, `cardImages.ts` and `index.js` are not part of this model.

## Behaviour of the code the model keeps

Some of what the code does departs from the usual rules of UNO or is easy to miss. The model keeps each of these as written:

- The skip card is called `ban`.
- Every join of a new player that leaves two or more players re-deals the room, not only the first (uno_server.js:183-185).
- `DRAW_CARD` always moves the cursor exactly one seat, with no finished-player step (uno_server.js:370-384).
- A reshuffle leaves a deck of the old discard size minus two, since the actor draws one of the reshuffled cards straight away (uno_server.js:375-379).
- Wild cards popped while looking for the first discard are dropped, so the deck after dealing has fewer than 108 cards in total whenever a wild card was turned up first (uno_server.js:81-86).
- A draw penalty draws only while the deck is non-empty and never reshuffles (uno_server.js:326-340).
- The finished-player step tests the seat at the post-effect index, before the final `+1`. After a number card that is the actor's own seat (uno_server.js:366-368).
- A failed deal does not stop the join, which still answers success (uno_server.js:104-110, 195).
- An action of an unknown type is accepted and passes the turn (uno_server.js:370, 384).
- A played wild card keeps its chosen colour for good, and keeps it when it is reshuffled into the deck (uno_server.js:318, 377).
