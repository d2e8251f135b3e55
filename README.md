# Take-N card game: a verified model of the round engine

This project models the core of a small pygame card game in Dafny. It is a "Take-N" game: every
alive player commits one card per turn, and the committed cards are played in ascending order.
Each card goes on the row whose last card is the closest lower value. A player whose card fits no
row takes over a whole row and pays the summed penalty of its cards. Players above 60 points are
eliminated, the hands are redealt when the human's hand runs out, and the game ends when one
player is left.

The model follows the canonical version (`main2.py` with its `Player` and `Row` helpers, copied
in `player.py`), the weighted penalty table (`config.py`) and the earlier dealing routine
(`main1.py`). Modules:

- `Cards` (cards.dfy): the card value, penalty sums, `list.remove`, the first-hit search the
  click loops run, distinctness of card values, and the ordered and shuffled decks.
- `Config` (config.py, and the module-level table in main2.py): the rule constants and the
  penalty table, which lists value `v` as many times as its weight.
- `Pieces` (player.py): the classes `Row` and `Player`, whose methods change their fields in place.
- `Rules`: the turn on plain values. It covers:
  - `can_place_card_in_rows`;
  - the sort of the commitments by card value;
  - the plan that `handle_card_placement_final` records;
  - what applying a plan does to the rows, hands and points;
  - the elimination test and the branch `end_round` takes;
  - the dealing of `start_new_play`.
- `Screen`: the hand-card and row hit boxes of the click handlers in `main`.
- `Text`: `str(n)` and `int(s)` for the bot names and the menu's digit keys.
- `Session` (main2.py): class `Game` holds the phase machine menu → setup → round → reveal →
  animate / pick_row → leaderboard. Its methods:
  - change the players, rows, deck, commitments, plan and leaderboard in place;
  - keep the invariant `Valid()`;
  - are proved against the `Rules` functions.
- `Draft` (main1.py): `setup_game`, `Player.select_card` and `Bot.make_move`.

Modelling decisions:
- Randomness is a nondeterministic choice (`:|`). This covers `random.choice`, `random.shuffle`,
  `random.choices` and `random.randint`. A shuffle is any permutation.
- Where a contract mentions the shuffled deck, the method returns it as a ghost out-parameter.
- The animation is one boolean per tick: whether every card animation finished.
- A commitment (an entry of `player_cards_placed`) and a plan entry name their player and row by
  index into `Game.players` and `Game.rows`. Neither list is reordered while a plan exists.
- The dictionary of commitments is a sequence in insertion order, as Python dictionaries keep it.
  The model relies only on what `sorted` gives by card value: the same commitments, in
  non-decreasing order. The deck's values are distinct, so no two commitments tie and the order
  is strictly increasing (`Rules.PlanMeetsRowConditions`).
- Cards are values, so `card in hand` and `hand.remove(card)` compare a card's value and its
  penalty. The deck's values are distinct, so no two cards in play are equal.

Where the code departs from the game's usual rules, the model follows the code:
- The resolver plans every committed card against the rows as they stand before the turn. A
  lower card placed earlier in the same turn does not change which rows a later card may use.
- After a human picks a row, `pick_row_for_player` goes straight to `end_round`. The rest of the
  commitments are not resolved. The plan entries already recorded for lower cards are never
  animated or applied; those cards stay in their owners' hands.
- The redeal test at the end of a round looks only at alive **human** players' hands. A play
  ends when the human's hand is empty, whatever the bots still hold (`Rules.RedealIgnoresBots`).
- When the last players are eliminated together, nobody is alive. The count is then not 1, so
  the game redeals rather than ending (`Rules.NoSurvivorsRedeal`).
- Hands are lists, not sets.
- No row has a length cap. A card that fits a row goes there however long the row is.

## Model

| member | source | states |
|---|---|---|
| Cards.LastValue | main2.py:86-90 | None exactly for an empty list of cards, otherwise the value of the last card |
| Cards.PenaltySumBounds | main2.py:259-260 | taking over `k` cards with penalties in 1..6 costs between `k` and `6k` points |
| Cards.PenaltySumAppend | main2.py:256-260 | cards collected in two lots cost the sum of the two lots' penalties, so take-overs over the turn add up (used by `Rules.ApplyPlanCharges`) |
| Cards.FirstIndex | player.py:17-18 | the position of the first copy of a card present in the list |
| Cards.RemoveFirstCutsFirst | player.py:16-18 | removing a present card cuts out exactly its first copy; the other cards keep their order |
| Cards.RemoveFirstCount | player.py:16-18 | removing a present card shortens the list by one and takes one copy out of its multiset; removing an absent card changes nothing |
| Cards.FirstHit | main2.py:450-456 | the first box hit, searching in order: it is hit and no earlier one is; None exactly when no box is hit |
| Cards.PermutationKeepsDistinct | main2.py:142-143 | a rearrangement of cards with distinct values has distinct values |
| Cards.ShuffledOrderedDeck | main2.py:136-143 | any rearrangement of a freshly generated deck holds 110 cards with distinct values in 1..110 and penalties in 1..6 |
| Config.GetPenaltyDistribution | config.py:56-60 | the loop over the zipped values and weights builds exactly the penalty table |
| Config.RepeatCount | config.py:59 | `[v] * w` holds `w` copies of `v` (none when `w` is not positive) and nothing else |
| Config.ExpandLength | config.py:57-59 | the expanded list is as long as the weights add up to |
| Config.ExpandMembers | config.py:57-59 | every entry of the expanded list is one of the values, paired with a positive weight |
| Config.ExpandCountAt | config.py:57-59 | a value that occurs once among the values occurs as often as its weight says |
| Config.ExpandSorted | config.py:57-59 | strictly increasing values give a non-decreasing expanded list |
| Config.PenaltyDistributionLength | config.py:56-60 | the penalty table has 21 entries, the sum of the weights |
| Config.PenaltyDistributionCounts | config.py:40-41 | each penalty `v` in 1..6 occurs exactly `PENALTY_WEIGHTS[v-1]` times |
| Config.PenaltyDistributionRange | main2.py:31-35 | every entry of the penalty table lies in 1..6 |
| Config.PenaltyDistributionSorted | config.py:57-59 | the table lists all 1s, then all 2s, and so on up to 6 |
| Config.HigherPenaltiesRarer | config.py:40 | penalty `v` occurs strictly more often than `v + 1` |
| Pieces.Row.constructor | player.py:21-22 | a new row is empty |
| Pieces.Row.AddCard | player.py:24-25 | the card goes on the end, the earlier cards are unchanged, and the last value is the card's |
| Pieces.Row.ResetWithCard | player.py:27-30 | returns exactly the previous cards and leaves the row as `[card]` |
| Pieces.Row.LastCardValue | player.py:32-36 | None exactly for an empty row, otherwise the value of its final card |
| Pieces.Player.constructor | player.py:4-9 | the given name and kind, an empty hand, no points, alive |
| Pieces.Player.ChooseCard | player.py:11-14 | None exactly for a human or an empty hand, otherwise some card of the hand; the hand is not changed |
| Pieces.Player.RemoveCardFromHand | player.py:16-18 | the first copy of a present card leaves the hand (one card fewer, one copy fewer); an absent card changes nothing; points and alive flag kept |
| Screen.HandCardAtArithmetic | main2.py:448-452 | the hand card under a click is read off its coordinates: cards 75 pixels apart, 70 wide, the right and bottom edges outside |
| Screen.RowAtArithmetic | main2.py:458-463 | the row under a click is read off its coordinates: boxes 170 pixels apart and 110 wide, at y 180..429 |
| Screen.HandCardUnder | main2.py:450-456 | the click loop over the hand finds the first card whose box holds the point, or none |
| Screen.RowUnder | main2.py:460-465 | the click loop over the rows finds the first row whose box holds the point, or none |
| Text.DecimalRoundTrip | main2.py:149 | `str(n)` is a string of digits and `int(str(n)) == n` |
| Text.SingleDigitKey | main2.py:471-473 | a one-character key is a digit worth 1..9 exactly when it is one of '1'..'9' |
| Rules.BestRow | main2.py:198-211 | None exactly when no row has a last card below the value (empty rows never qualify); otherwise an eligible row with the smallest gap, the earliest among equal gaps |
| Rules.SortByValueSorts | main2.py:178 | the sorted commitments are the same commitments, in non-decreasing card order |
| Rules.PlanInCardOrder | main2.py:178-194 | a plan recorded from the sorted commitments lists their cards in non-decreasing order, and each entry is a commitment |
| Rules.TakeoverExactlyWhenNothingFits | main2.py:181-194 | a plan entry takes a row over exactly when no row can take its card; otherwise it goes on an eligible row (the closest); either way it names an existing row |
| Rules.PlanMeetsRowConditions | main2.py:178-194 | a plan recorded from commitments with distinct card values plays strictly increasing cards, and each appended card fits its row in the snapshot |
| Rules.ApplyPlanKeepsSeats | main2.py:250-266 | applying a plan never changes a seat's name, kind or alive flag |
| Rules.ApplyPlanCharges | main2.py:256-260 | over a whole plan, a seat's points rise by exactly the penalty sum of the rows it took over, each as it stood when taken |
| Rules.ApplyPlanPoints | main2.py:256-260 | with penalties in 1..6 a plan never lowers anyone's points, a seat with no take-over keeps its points, and the rows keep penalties in 1..6 |
| Rules.ApplyPlanHands | main2.py:258-263 | with one entry per player, each player loses exactly its entry's card (first copy) and a player with no entry keeps its hand |
| Rules.ApplyPlanKeepsRowsAscending | main2.py:250-266 | if every row is non-empty and strictly ascending, the plan's cards strictly increase, and each appended card fits its row, then every row stays non-empty and ascending |
| Rules.AppendKeepsAscending | main2.py:262 | a card above a row's last card keeps the row ascending |
| Rules.ResolvedPlanKeepsRowsInOrder | main2.py:250-263 | row monotonicity over a turn: from rows that are non-empty and ascending, applying the plan recorded from commitments with distinct card values leaves every row non-empty and ascending |
| Rules.TakeoverKeepsRowsInOrder | main2.py:268-270 | a human's take-over leaves the rows non-empty and ascending, since the taken row becomes `[card]` |
| Rules.EliminatedExactly | main2.py:279-282 | the leaderboard additions are exactly the (name, points) of the alive seats over 60 |
| Rules.EliminationCounts | main2.py:279-285 | survivors plus newly eliminated make up the seats that were alive |
| Rules.EliminateIdempotent | main2.py:279-282 | a second elimination test with unchanged points eliminates and lists nobody |
| Rules.SurvivorsWithinThreshold | main2.py:279-281 | after the test every alive seat has at most 60 points, and nobody's points changed |
| Rules.CompleteIffEveryAliveCommitted | main2.py:169-171 | with one commitment per player, all from alive players, the count test holds exactly when every alive player has committed |
| Rules.AliveIndices | main2.py:166-167 | the alive players, in seat order, each once |
| Rules.PoppedIsTail | main2.py:159 | the cards `count` pops take are exactly the last `count` cards of the deck |
| Rules.DealHands | main2.py:157-159 | dealing keeps the number of seats and leaves the bottom of the deck, ten cards shorter per alive seat |
| Rules.DealHandsKeepsSeatData | main2.py:157-159 | dealing changes hands only: each seat keeps its name, kind, points and alive flag |
| Rules.DealtSeat | main2.py:157-159 | an alive seat holds the ten cards on top when its turn came, in pop order; a dead seat keeps its hand |
| Rules.DealHandsKeepsCards | main2.py:157-159 | the dealt hands and the rest of the deck hold exactly the old deck's cards |
| Rules.NewPlay | main2.py:157-162 | a new play keeps the seats, lays four rows, and shrinks the deck by ten per alive seat plus four |
| Rules.NewPlayDealsHands | main2.py:157-159 | in a new play every alive seat holds ten cards, the next ten popped off the deck's tail when its turn came; a dead seat keeps its hand; every seat keeps its name, kind, points and alive flag |
| Rules.NewPlayDealsRows | main2.py:160-162 | row `j` is the single card `10·alive + j` places from the deck's end, and the deck is what lies below |
| Rules.NewPlayRowsInOrder | main2.py:160-162 | a new play starts with every row non-empty and ascending |
| Rules.NewPlayKeepsCards | main2.py:152-162 | hands, rows and the remaining deck together hold exactly the old deck: no card is made or lost |
| Rules.NewPlayLaysRest | main2.py:157-162 | the hands of a new play are the dealt ones; its rows and deck hold what dealing the hands left |
| Rules.NewPlayDistinct | main2.py:152-162 | dealt from a deck of distinct values, no value appears twice among hands, rows and deck |
| Rules.FreshSeatNamesDistinct | main2.py:145-149 | every player of a new game has its own name |
| Rules.RedealIgnoresBots | main2.py:285-295 | the round ends in a redeal exactly when the alive count is not 1 and no alive human holds a card |
| Rules.NoSurvivorsRedeal | main2.py:285-295 | with nobody alive the game redeals instead of ending |
| Session.ChargePenalties | main2.py:259-260 | the player's points rise by the penalty sum of the cards; hand and alive flag kept |
| Session.TakeRowWith | main2.py:256-260 | the row becomes `[card]`, the player pays the old row's penalty sum, and the card leaves the hand |
| Session.AppendTo | main2.py:261-263 | the card goes on the end of the row and leaves the hand; points unchanged |
| Session.NewRows | main2.py:160 | four new, distinct, empty rows |
| Session.Game.constructor | main2.py:117-134 | the menu phase, no players, four empty rows, empty deck, commitments and leaderboard, no selection, invariant established |
| Session.Game.PlacedIffEveryoneCommitted | main2.py:169-171 | `all_players_placed` holds exactly when every alive player has committed |
| Session.Game.GenerateDeck | main2.py:136-140 | the values 1..110 in ascending order, each penalty an entry of the penalty table |
| Session.Game.ShuffleDeck | main2.py:142-143 | the deck is a rearrangement of what it was |
| Session.Game.SetupPlayers | main2.py:145-150 | "Player 1" (human) followed by the bots "Bot 1" .. "Bot n", all new, distinct, alive, no cards or points; `active_players` is their number |
| Session.Game.PopCards | main2.py:159 | returns the cards popped off the deck's end in pop order; the deck loses exactly those |
| Session.Game.DealFromDeck | main2.py:157-159 | the players become the dealt seats and the deck what dealing left |
| Session.Game.DealNext | main2.py:157-159 | one pass of the dealing loop extends the dealt prefix of the seats by one player |
| Session.Game.LayRows | main2.py:160-162 | four new distinct rows, row `j` holding the `j`-th card popped; the deck loses four cards |
| Session.Game.StartNewPlay | main2.py:152-164 | the table is a new play dealt from the old deck, or from a new shuffled deck exactly when the old one held fewer than ten per alive player plus four; no commitments, phase "round" |
| Session.Game.RefillDeck | main2.py:153-156 | a deck too small for the alive players and the rows is replaced by a shuffled new deck; a large enough deck is kept |
| Session.Game.DealNewPlay | main2.py:157-162 | the seats, rows and deck become those of the new play dealt from the deck |
| Session.Game.HandleCardPlacementPrep | main2.py:173-175 | phase "reveal" with the timer at zero |
| Session.Game.HandleCardPlacementFinal | main2.py:177-196 | the plan follows the commitments in card order against the unchanged rows; it either pauses at a human's unplaceable card (phase "pick_row", card and player selected, no animation) or covers every commitment and is animated with the selection unchanged |
| Session.Game.PlaceInOrder | main2.py:179-196 | the loop of `handle_card_placement_final` records the plan for the ordered commitments against the row snapshot |
| Session.Game.StartAnimation | main2.py:213-238 | one animation per pending placement in plan order, phase "animate" |
| Session.Game.ApplyEntry | main2.py:251-263 | the table after one placement is `ApplyPlacement` of the table before |
| Session.Game.FinishPlacements | main2.py:250-266 | the table becomes `ApplyPlan` of the animated placements in order, and both lists are emptied |
| Session.Game.ApplyNext | main2.py:251-263 | one pass of the loop extends the applied prefix of the plan by one entry |
| Session.Game.EliminatePlayers | main2.py:279-282 | the seats become their elimination-tested form and the leaderboard gains exactly the newly eliminated, in seat order |
| Session.Game.ScreenNext | main2.py:279-282 | one pass of the elimination loop extends the tested prefix of the seats by one player |
| Session.Game.EndRound | main2.py:277-299 | eliminations recorded; then the leaderboard phase when one player is left, a new play when no alive human holds a card, otherwise the next trick with commitments cleared |
| Session.Game.ConcludeRound | main2.py:284-299 | the branch after the eliminations: game over, redeal or the next trick, as `RoundEndOutcome` says |
| Session.Game.Redeal | main2.py:291-295 | a redeal deals a new play and enters "round" |
| Session.Game.PickRowForPlayer | main2.py:268-275 | the selected player takes the clicked row with the selected card, the selection is cleared, and the round ends on that table; no other plan entry is applied |
| Session.Game.TakeSelectedRow | main2.py:268-274 | the take-over of the clicked row by the selected player with the selected card; the selection is cleared |
| Session.Game.BotsCommit | main2.py:304-310 | earlier commitments are kept; each new one is an alive bot's card from its own hand, appended in seat order; every alive bot holding a card has committed |
| Session.Game.PollBot | main2.py:305-310 | one pass of the bots' loop extends the polled prefix of the alive players by one, and adds at most one commitment, from the seat it polls |
| Session.Game.RoundTick | main2.py:302-312 | the bots commit, their new commitments in seat order; the phase becomes "reveal" (timer zero) exactly when every alive player has committed, otherwise stays "round" |
| Session.Game.RevealTick | main2.py:314-318 | the timer counts one tick; until it exceeds 60 the phase, plan, animations and selection are unchanged; after that the plan is resolved, and if it is animated the selection is unchanged |
| Session.Game.SetUp | main2.py:322-327 | a shuffled new deck, the players of a new game, and the first play dealt from that deck; phase "round" |
| Session.Game.NewGame | main2.py:324-326 | the deck is a shuffled new deck and the players are those of a new game |
| Session.Game.FreshShape | main2.py:145-149 | a new game seats the human first and at most ten players |
| Session.Game.AnimateStep | main2.py:240-248 | while an animation is unfinished the phase, table, deck, leaderboard, commitments, plan, animations and row list are unchanged; once all are done the plan is applied, both lists emptied, and the round ends on that table |
| Session.Game.Update | main2.py:301-329 | one tick: "menu", "pick_row" and "leaderboard" leave every field unchanged (phase, table, deck, commitments, timer, plan, animations, selection, seat and row lists, leaderboard); "round" goes to "round" or "reveal"; "reveal" to "reveal", "pick_row" or "animate"; "setup" to "round"; "animate" to "animate", "round" or "leaderboard" |
| Session.Game.ClickCard | main2.py:443-456 | a click counts only in "round" with the human alive and uncommitted: it commits the first hand card under the cursor and starts the reveal exactly when everyone alive has committed; any other click changes nothing |
| Session.Game.CommitHumanCard | main2.py:453-455 | the human's card is added to the commitments; the reveal starts exactly when every alive player has committed |
| Session.Game.ClickRow | main2.py:457-465 | a click counts only in "pick_row" on a row: that row is taken over and the round ends; otherwise the phase, table, deck, commitments, leaderboard, selection and row list are unchanged |
| Session.Game.KeyDown | main2.py:469-475 | only in the menu, and only for a digit 1..9, the number of bots is set and setup begins; otherwise nothing changes |
| Draft.NewCard | main1.py:27-29 | the card keeps its number and its points come from the penalty table, so they lie in 1..6 |
| Draft.PopAt | main1.py:60 | `cards.pop(i)` leaves every other card, in order, one card fewer, the popped card's copy gone |
| Draft.CardAtArithmetic | main1.py:53-59 | the card under a click is read off its coordinates: boxes 60 pixels apart and 50 wide, both edges inside, at y 50..120 |
| Draft.Player.constructor | main1.py:44-47 | the given name, no cards, no points |
| Draft.Player.SelectCard | main1.py:53-60 | a click on a card box pops and returns the first such card; otherwise None and the hand is unchanged |
| Draft.Player.MakeMove | main1.py:67-69 | a bot with cards pops and returns one card of its hand |
| Draft.RearrangedNumbers | main1.py:77-78 | a shuffle of 1..110 holds 110 distinct numbers in 1..110 |
| Draft.NewPlayers | main1.py:79-81 | "Human Player" followed by "Bot 1", "Bot 2", ..., new, distinct, without cards or points |
| Draft.DealTen | main1.py:83-85 | the inner loop gives a player the next ten numbers popped off the list, as cards with points in 1..6 |
| Draft.DealPlayer | main1.py:82-85 | one pass of the dealing loop serves one more player |
| Draft.LayDraftRows | main1.py:86 | four one-card rows, row `j` carrying the `j`-th number popped |
| Draft.SetupGame | main1.py:76-87 | for `n` players (1 if fewer are asked for): the named human and bots, ten cards each carrying the numbers popped in turn off a shuffle of 1..110, and four one-card rows with the next numbers |
| Draft.DealtNumbersDistinct | main1.py:77-86 | for at most ten players every dealt number lies in 1..110 and none is dealt twice, within a hand, across hands or between a hand and a row |

## Left out

- Rendering is not modelled: every `draw*` method, `Card.draw`, `Card.rect`, the fonts, images and display setup, and `draw_back_of_cards`.
- The event pump and frame clock are not modelled (`pygame.event.get`, `clock.tick`, `pygame.time.wait`). The model keeps their effects: the key and click handlers and `Game.update` are methods, one call per event or tick.
- The QUIT event and the ESC key end the process; they are not modelled.
- Mouse buttons other than the left one (main2.py:442) are ignored by the click handler. Session.Game.ClickCard and Session.Game.ClickRow model left clicks only, so a caller passes them only those.
- `select_num_players` and the rest of main1.py's event loop are interactive I/O and are not modelled.
- `CardAnimation.update` (float progress), `start_animation`'s screen positions, card.py and animation_manager.py are not part of this model. The "animate" phase takes a parameter saying whether every animation has finished. No claim is made about how many ticks that takes.
- Session.Game.StartAnimation: the animations are modelled as their placements only, without positions or progress.
- Session.Game.Valid does not carry three facts of the playing phases: the rows are non-empty and ascending, the card values in play are distinct, and penalties lie in 1..6. They are proved on values instead. `Rules.NewPlayRowsInOrder` and `Rules.NewPlayDistinct` give them for a new play. `Rules.ResolvedPlanKeepsRowsInOrder` and `Rules.TakeoverKeepsRowsInOrder` keep the row order over a turn, given commitments with distinct card values. The step from distinct dealt cards to distinct committed values is not proved, and the class methods do not restate these facts.
- `Game.active_players` is set (Session.Game.SetupPlayers) but nothing reads it, so the model states nothing else about it.
- No row-length cap. test_game.py:6-37 and test_game.py:46-84 expect a card to take over a row of five cards even when the card fits. `can_place_card_in_rows` (main2.py:198-211) has no such cap, so the model follows the code and states no such property.
- Resuming the remaining commitments after a human row pick is not implemented in the code, so it is not in the model.
- The probabilities of `random.choice`, `random.shuffle`, `random.choices` and `random.randint` are not modelled. Each is a nondeterministic choice, and nothing about distributions is stated.
- Text.SingleDigitKey: `str.isdigit` also accepts digit characters outside '0'..'9', such as superscripts. The model recognises only '0'..'9', which is all a keyboard's number keys produce.
- Draft.Player.MakeMove: requires a non-empty hand, since `random.randint(0, -1)` raises on an empty one.
- Draft.SetupGame: requires at most ten players. With more, the 110 numbers run out and `pop` raises.
- Draft.DealtNumbersDistinct: states distinctness for the numbers each hand position and row receives. It does not restate this over the player objects.
