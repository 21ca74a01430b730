# Maverick: the turn-resolution engine, modelled in Dafny

Maverick is a single-player card game played against a row of 13 monsters drawn from a catalog of
18 archetypes. The player holds a hand of action cards worth 1 to 5. Each click selects an action
(Move, Range or Melee with the character or the companion, Swap, EndTurn) or a card from the hand.
EndTurn resolves as soon as it is selected, with or without a card, and spends no selected card:
it clears the selection, and the hand is then cleared and dealt afresh from the deck. Any other
action resolves once a card is selected too, and spends that card:

- the pieces move along the row;
- Melee, Range and Move hit markers are recorded on a monster;
- a monster whose markers cover its kill requirements dies, and an exact-strength killing blow
  earns a trophy;
- Rally monsters strengthen their neighbours;
- a Move that lands on a living Noxious monster costs a random card of the remaining hand, when
  one is left (see "## Findings" for the empty hand).

Running out of cards turns the player Monstrous, with a hand of six. The game ends when hand and
deck are both empty. The score is 3 per payment, 2 per trophy and 1 per card left.

The project has these modules:

- `Wrappers` (`wrappers.dfy`): the `Option` type.
- `Catalog` (`catalog.dfy`): the monster catalog `MONSTER_STATS` and the flattening of its
  kill-requirement slots.
- `Cards` (`cards.dfy`):
  - the 40-card deck and the set-up shuffle;
  - `Vec::remove` on the hand;
  - popping cards off the end of the deck.
- `Rules` (`rules.dfy`): one call of `Game::update` as pure functions over a `Session` value. The
  phases are `Select`, `Resolve`, `KillCheck`, `Recompute` (Rally) and `Finish` (hand exhaustion,
  refill, end of game); `Step` composes them. The module also holds the score.
- `Properties` (`properties.dfy`): what an update promises, proved over those functions. This
  includes the invariant `Inv` that every update keeps.
- `EmptyHandDiscard` (`empty_hand_discard.dfy`): the Noxious discard on an empty hand (see "## Findings").
- `Maverick` (`game.dfy`): the stateful side, imperative as in the source.
  - The classes `Monsters` and `Game` hold the same game-state fields as the Rust structs.
  - The methods update them in place with the source's loops.
  - Each method is proved to leave `Model()` equal to the matching `Rules` function of the old
    model, so `Game.Update` is proved to be `Step`, and it keeps `Valid()`.

Input is logical. The screen hit-test at the top of `update` becomes a `Click`:
`SelectAction`, `SelectCard(i)`, `RequestReset` or `Elsewhere`. Every random number the source draws
becomes a parameter:

- the Noxious `roll`;
- the monster draw `rolls`;
- the companion `coin`;
- the shuffle `swaps`.

The model therefore states what happens for every possible outcome of the random source. Card
values (`u8`) and counters (`u32`) are unbounded naturals. The invariant bounds them, and
`ScoreFitsU32` and `EffectiveStrength` show that the `u32` and `u8` arithmetic of the source cannot
overflow.

The hand-index `assert!`s of the source (main.rs:869, 930, 950, 998, 1044) are caller contract
checks. The presentation layer offers only the cards that are in the hand. The model states them
as the precondition `ClickAllowed` together with the invariant `Inv`, which includes
`currentCard < |hand|`. `StepPreservesInv` proves that every update keeps that invariant. The
asserts therefore cannot fire as long as every click satisfies `ClickAllowed`, that is, names a card
index the hand still has when `update` receives it. The event loop in `app` (main.rs:1189-1199),
which is not modelled, does not guarantee this by itself: it feeds every pending pointer event to
`update` before the next `draw` rebuilds the clickable regions, so a second click in the same batch
is hit-tested against regions drawn for an older hand. `ClickAllowed` is the assumption that each
click is valid for the session it reaches.

## Model

| member | source | states |
|---|---|---|
| Catalog.MONSTER_STATS | src/main.rs:90-109 | the catalog of 18 archetypes, entry by entry: name, base strength, ability and three kill-requirement slots; `CatalogShape` states its shape |
| Catalog.KillRequirements | src/main.rs:164-167 | the flattened list is no longer than the slots and holds only kinds some slot holds; `KillRequirementsCount` and `KillRequirementsEmpty` give the exact counts |
| Catalog.KillRequirementsCount | src/main.rs:163-167 | each requirement kind occurs in the flattened list exactly as often as a filled slot holds it |
| Catalog.KillRequirementsEmpty | src/main.rs:163-167 | the flattened list is empty exactly when every slot is empty |
| Catalog.CatalogShape | src/main.rs:90-109 | 18 archetypes (at least 13); each has base strength at most 5, three slots and 1 to 3 kill requirements |
| Cards.FRESH_DECK | src/main.rs:316-322 | the unshuffled deck literal, as five rows of eight; `FreshDeckContents` states its contents |
| Cards.FreshDeckContents | src/main.rs:316-322 | the fresh deck holds 40 cards, exactly eight of each value 1 to 5 and nothing else |
| Cards.FreshDeckValid | src/main.rs:316-322 | every card of the fresh deck is worth 1 to 5 |
| Cards.CopiesCount | src/main.rs:317-321 | a row of the deck literal holds `n` copies of its value and nothing else |
| Cards.RemoveAt | src/main.rs:872 | `Vec::remove`: one element shorter, the multiset minus the removed card, earlier cards in place, later ones shifted down by one |
| Cards.Popped | src/main.rs:1149-1153 | the `k` cards popped off the end, in pop order: element `j` is the deck's `j`-th card from the end |
| Cards.PoppedConserves | src/main.rs:1149-1153 | popping moves cards from the deck to the hand: popped cards plus the rest of the deck are the old deck as a multiset |
| Cards.PoppedIsReversedTop | src/main.rs:1149-1153 | the popped cards are the top `k` of the deck, reversed |
| Cards.SwapStep | src/main.rs:329-334 | one shuffle step trades positions `x % len` and `y % len` and leaves all other positions alone |
| Cards.ShuffledDeck | src/main.rs:327-335 | the deck after one swap step per pair of random numbers keeps 40 cards; `ShuffleIsPermutation` proves it a permutation of the fresh deck |
| Cards.ShuffleIsPermutation | src/main.rs:327-335 | whatever the random numbers, the shuffled deck is a permutation of the fresh deck |
| Cards.SwapPermutes | src/main.rs:329-334 | a single swap step keeps the deck's multiset |
| Rules.InitialSession | src/main.rs:316-363 | a new game is Playing with no trophy, one payment, both pieces on square 0, a Regular player with limit 5, five cards in hand, 34 in the deck and nothing selected; `InitialSessionValid` adds the invariant and card accounting |
| Rules.Select | src/main.rs:846-858 | a click changes only the selection slots: an action click fills the action slot, a card click fills the card slot, anything else changes nothing |
| Rules.RowOf | src/main.rs:146-174 | the row built from the drawn indexes: all alive, no hits, no adjustment, each name, strength, ability and requirement list taken from the catalog entry |
| Rules.EffectiveStrength | src/main.rs:909-910 | base strength plus Rally adjustment is at most 7, so the `u8` sum cannot overflow |
| Rules.MoveTarget | src/main.rs:874-904 | a Move always lands inside the row |
| Rules.RangeTarget | src/main.rs:955-1036 | a Range shot reports a target only inside the row |
| Rules.NoxiousDiscardAsWritten | src/main.rs:914-919 | as written: panics (None) exactly on an empty hand, otherwise removes one card |
| Rules.NoxiousDiscard | src/main.rs:914-919 | corrected: discards one card exactly when the hand is non-empty, never adds cards |
| Rules.ResolveMove | src/main.rs:868-926 | contract: the result stays on the board and its target lies in the row; `MoveClamps`, `ResolveSpendsSelectedCard` and `ResolveRecordsOneHit` carry its meaning |
| Rules.ResolveRange | src/main.rs:948-1041 | contract: the result stays on the board and its target lies in the row; `RangeHitsOnlyInsideRow` carries its meaning |
| Rules.ResolveMelee | src/main.rs:1042-1075 | contract: the result stays on the board and its target lies in the row; `MeleeHitIffStrongEnough` carries its meaning |
| Rules.Resolve | src/main.rs:866-1084 | contract: the result stays on the board and its target lies in the row; `ResolveSpendsSelectedCard`, `ResolveFrame`, `ResolveRecordsOneHit` and `ResolveKeepsHandValid` carry its meaning |
| Rules.RemoveItem | src/main.rs:1098 | `Vec::remove_item`: the multiset loses one copy of the item, if any |
| Rules.Remaining | src/main.rs:1093-1099 | the requirements left after removing the hits one for one are the multiset difference |
| Rules.KillCheck | src/main.rs:1091-1112 | the kill check stays on the board, changes only the monsters and the trophies, and adds a trophy only for an exact blow, at most one; `KillCheckSpec` gives exactly when it kills |
| Rules.RallyAdjustments | src/main.rs:1114-1132 | one adjustment per position, each at most 2 |
| Rules.Recompute | src/main.rs:1114-1132 | contract: the result stays on the board; `RallyAdjustmentCounts`, `RecomputeIdempotent` and `StepRecomputesRally` carry its meaning |
| Rules.Refill | src/main.rs:1144-1160 | contract: the result stays on the board; `FinishSpec` and `RefillConserves` carry its meaning |
| Rules.Finish | src/main.rs:1134-1167 | contract: the result stays on the board; `FinishSpec`, `FinishConservesCards` and `FinishKeepsInv` carry its meaning |
| Rules.Step | src/main.rs:845-1168 | contract: the result stays on the board; `StepPreservesInv`, `StepConservesCards`, `TrophyOnlyForExactKill`, `StepNeverRevives`, `StepRecomputesRally`, `StepMonotone` and `EndGameIffNoCards` carry its meaning |
| Rules.Score | src/main.rs:436-438 | the score counts at least one point per card left, and with no card left it is payments times 3 plus trophies times 2 |
| Properties.KilledIffCovered | src/main.rs:1093-1102 | removing the hits empties the requirements exactly when the hits cover them as a multiset |
| Properties.KillCheckSpec | src/main.rs:1091-1112 | a blow that kills marks only the target dead, clears its hits and adds a trophy exactly when exact; any other blow changes nothing |
| Properties.KillCheckKills | src/main.rs:1101-1110 | the kill case of the kill check, field by field |
| Properties.KillCheckSpares | src/main.rs:1091-1112 | no target, a dead target or uncovered requirements leave the session unchanged |
| Properties.KillsIffNothingRemains | src/main.rs:1091-1102 | on a living target, it dies exactly when no requirement remains |
| Properties.KillCheckFields | src/main.rs:1091-1112 | what the kill check leaves for the rest of the update: other monsters untouched, at most one trophy, only `monsters` and `trophies` change |
| Properties.RallyAdjustmentCounts | src/main.rs:1119-1132 | the adjustment of position `i` is the number of living Rally monsters at `i - 1` and `i + 1` |
| Properties.RecomputeIdempotent | src/main.rs:1114-1132 | recomputing the adjustments twice equals recomputing once |
| Properties.RallyDeathLowersNeighbours | src/main.rs:1119-1132 | when a living Rally monster dies, each neighbour's adjustment drops by one and no other adjustment changes |
| Properties.RallyIgnoresHits | src/main.rs:1119-1132 | the adjustments depend on abilities and alive flags only, not on the hits |
| Properties.ResolveSpendsSelectedCard | src/main.rs:866-1084 | a card action spends exactly the selected card, hit or not, and clears both slots; only a Move onto a living Noxious monster with cards left discards the card at `roll % len` |
| Properties.ResolveFrame | src/main.rs:866-1084 | resolution leaves the deck, counters, hand limit, kinds, state and alive flags alone; only Swap toggles the companion; only EndTurn asks for a refill; incomplete selections change nothing |
| Properties.ResolveRecordsOneHit | src/main.rs:866-1075 | resolution adds at most one hit, of the action's own kind, on the monster it reports |
| Properties.MoveClamps | src/main.rs:874-904 | Move saturates at 0 going left and clamps to 12 going right, moves only the chosen piece, reports the landing square as the target and adds one Move hit to the monster there, and is exact iff the card equals that strength |
| Properties.RangeHitsOnlyInsideRow | src/main.rs:948-1041 | Range hits iff `index ∓ num` lies in [0, 13); otherwise no hit, no trophy and an unchanged row, though the card is spent |
| Properties.MeleeHitIffStrongEnough | src/main.rs:1052-1070 | Melee hits the monster under the piece iff the card reaches its effective strength, and is exact iff it equals it |
| Properties.ResolveKeepsHandValid | src/main.rs:866-1084 | resolution only removes cards from the hand and keeps a pending card index valid |
| Properties.FinishSpec | src/main.rs:1134-1167 | hand exhaustion without a discard turns the player Monstrous with limit 6; exhaustion or EndTurn refills `min(limit, deck)` cards from the end of the deck and clears all hits; the state becomes EndGame when hand and deck end up empty and otherwise stays as it was; `discarded` cleared |
| Properties.ResetShortCircuits | src/main.rs:851-854 | a Reset click only sets the state to Reset |
| Properties.RefillConserves | src/main.rs:1144-1153 | the refill creates no card and keeps a prefix of the deck |
| Properties.FinishConservesCards | src/main.rs:1134-1160 | the end of an update creates no card, and the deck only loses its top |
| Properties.StepConservesCards | src/main.rs:845-1168 | an update creates no card: the new hand and deck are a sub-multiset of the old ones, and the new deck is a prefix of the old |
| Properties.TrophyOnlyForExactKill | src/main.rs:1091-1112 | trophies grow by at most one per update, exactly when an exact blow killed a living monster |
| Properties.StepNeverRevives | src/main.rs:1091-1112 | a dead monster stays dead |
| Properties.StepRecomputesRally | src/main.rs:1114-1132 | after every non-reset update each adjustment is the from-scratch Rally count, at most 2; a reset click returns before the recompute and leaves the adjustments as they were |
| Properties.StepMonotone | src/main.rs:1134-1167 | hand limit and the Monstrous kind never revert, EndGame lasts until a reset, and `discarded` is false on exit |
| Properties.StepPreservesInv | src/main.rs:845-1168 | every update keeps the invariant: indices on the board, hand within the limit, selected card in the hand, valid cards, trophies at most the slain monsters, at most 40 cards |
| Properties.SelectKeepsInv | src/main.rs:846-858 | a click the board offers keeps the invariant |
| Properties.ResolveKeepsInv | src/main.rs:866-1084 | resolution keeps the invariant except for the discard flag |
| Properties.KillCheckKeepsInv | src/main.rs:1091-1132 | the kill check and Rally recompute keep the invariant, in particular the trophies stay at most the slain monsters; the one-trophy-per-kill fact is `KillCheckSpec` and `TrophyOnlyForExactKill` |
| Properties.FinishKeepsInv | src/main.rs:1134-1167 | the end of an update restores the whole invariant |
| Properties.HandExhaustionUpgrades | src/main.rs:1134-1160 | playing the last card without a discard makes the player Monstrous with limit 6, deals up to six cards off the deck and clears every hit |
| Properties.EndGameIffNoCards | src/main.rs:1162-1165 | after a non-reset update the game is over exactly when hand and deck are both empty |
| Properties.FinishKeepsTally | src/main.rs:1134-1167 | the end of an update kills nobody and awards nothing |
| Properties.FinishEndsExactlyWhenEmpty | src/main.rs:1162-1165 | the end of an update sets EndGame exactly when hand and deck are empty |
| Properties.ExactMeleeKillEarnsTrophy | src/main.rs:1042-1112 | an exact Melee that completes a living monster's requirements kills it and earns exactly one trophy |
| Properties.ScoreAtEndGame | src/main.rs:436-438 | at EndGame no card is left, so the score is payments times 3 plus trophies times 2 |
| Properties.ScoreFitsU32 | src/main.rs:436-438 | the score is at most 3·40 + 2·13, far inside `u32` |
| Properties.InitialSessionValid | src/main.rs:316-363 | a new game has 34 cards in the deck, 5 in hand and 1 payment, loses only the payment card, and satisfies the invariant |
| Properties.FirstDeal | src/main.rs:337-344 | the opening hand and deck hold every card of the shuffled deck but the payment |
| EmptyHandDiscard.ResolveMoveAsWritten | src/main.rs:868-926 | the Move arm as written panics (None) exactly when it lands on a living Noxious monster with the hand already empty; otherwise it resolves exactly as the corrected `ResolveMove` |
| EmptyHandDiscard.LastCardOntoNoxiousPanics | src/main.rs:868-926 | as written, a Move that plays the last card panics exactly when it lands on a living Noxious monster: the discard takes a remainder by zero |
| EmptyHandDiscard.NoxiousPanicPoised | src/main.rs:914-919 | a session satisfying the invariant is poised on that Move |
| EmptyHandDiscard.NoxiousDiscardAgrees | src/main.rs:914-919 | wherever the code as written does not panic, the corrected discard gives the same hand |
| EmptyHandDiscard.LastCardOntoNoxiousUpgrades | src/main.rs:914-919 | corrected: that Move ends like any play of the last card, with a Monstrous upgrade and a refill of up to six |
| Maverick.CompanionFor | src/main.rs:309-313 | the low bit of the random byte picks the companion: Melee exactly when it is even |
| Maverick.RejectionDraw | src/main.rs:116-132 | the draw stays inside the catalog |
| Maverick.DrawShape | src/main.rs:116-132 | the draw extends what was drawn, never repeats a monster, stays within 13, and stops short only when every roll is used |
| Maverick.FullDrawValid | src/main.rs:116-132 | a completed draw is 13 distinct catalog indexes |
| Maverick.SelectMonsterIndexes | src/main.rs:116-132 | the rejection-sampling loop computes the draw: distinct catalog indexes, at most 13 |
| Maverick.ShuffleDeck | src/main.rs:327-335 | the swap loop computes the shuffled deck, a 40-card permutation of the fresh deck |
| Maverick.DealOpeningHand | src/main.rs:337-344 | pops the payment, then pops five cards into the hand; hand, deck and payment hold every card |
| Maverick.OpeningDeck | src/main.rs:316-344 | shuffle, payment and deal together |
| Maverick.OpeningValid | src/main.rs:316-363 | every opening the set-up can produce is the initial session and satisfies the invariant |
| Maverick.DrawUpTo | src/main.rs:1149-1153 | the refill loop pops `min(limit, deck)` cards off the end of the deck |
| Maverick.Monsters.constructor | src/main.rs:134-174 | `Monsters::init` fills the parallel vectors with the row built from the draw |
| Maverick.Monsters.Hit | src/main.rs:907 | pushes one marker onto the target's hits |
| Maverick.Monsters.RemainingRequirements | src/main.rs:1093-1099 | the `remove_item` loop leaves the requirements the hits do not cover |
| Maverick.Monsters.Kill | src/main.rs:1103-1104 | marks the monster dead and clears its hits |
| Maverick.Monsters.RecomputeAdjustments | src/main.rs:1114-1132 | the two loops leave the from-scratch Rally adjustments |
| Maverick.Monsters.ClearHits | src/main.rs:1155-1158 | clears the hits of every monster |
| Maverick.Game.constructor | src/main.rs:316-363 | `Game::init` produces the initial session and a valid game |
| Maverick.Game.Update | src/main.rs:845-1168 | `update` changes the fields exactly as `Step` says and keeps the invariant |
| Maverick.Game.TakeTurn | src/main.rs:860-1168 | everything after the click is selected, as `Step` says |
| Maverick.Game.SelectFrom | src/main.rs:846-858 | fills the action slot or the card slot |
| Maverick.Game.ResolveSelection | src/main.rs:866-1084 | the match on the selection resolves as `Resolve` says |
| Maverick.Game.MovePiece | src/main.rs:868-926 | the Move arm resolves as `ResolveMove` says |
| Maverick.Game.Commit | src/main.rs:906-925 | the writes that end a card action |
| Maverick.Game.Shoot | src/main.rs:948-1041 | the two Range arms resolve as `ResolveRange` says |
| Maverick.Game.Strike | src/main.rs:1042-1075 | the Melee arm resolves as `ResolveMelee` says |
| Maverick.Game.CheckKill | src/main.rs:1091-1112 | the kill check changes the fields as `KillCheck` says |
| Maverick.Game.Slay | src/main.rs:1103-1110 | the writes of a kill, with the trophy for an exact blow |
| Maverick.Game.FinishTurn | src/main.rs:1134-1167 | hand exhaustion, refill, end of game and the discard flag, as `Finish` says |

## Left out

- Rendering, layout, fonts, images and the Reign tooltip of `Game::draw` (main.rs:368-843) are not
  modelled. Reign is advisory only: `update` never consults it, and neither does the model.
- The `Rectangle::contains` hit-test over the clickable regions (main.rs:846-858) is replaced by one
  logical `Click`. When several regions overlap the location, the source applies each in turn; the
  model takes one selection per call.
- The display-time `hand.sort()` (main.rs:785) is not modelled. The hand is the sequence indexed at
  selection time, whatever its order.
- The async event loop, `app` and `main` (main.rs:22-32, 1172-1241), asset loading and `info!`
  logging are not modelled.
- `rand::random` is not modelled as a distribution. Every draw is a parameter, and every lemma holds
  for all of them.
- `Monsters::init` loops until 13 distinct monsters are drawn. The model consumes a finite sequence
  of rolls, and its constructors require that the rolls complete the row.
- The game the player first sees is not `InitialSession` itself. Right after `Game::init`, `app`
  calls `update` once with the location (0, 0) (main.rs:1182-1185), which hits no region. So the
  first click already sees the Rally adjustments computed: the game as first met is
  `Step(InitialSession(..), Elsewhere, _)`. The model's constructor, like `Game::init`, leaves every
  adjustment at 0 and does not include that first call.
- `PADDING` (consts.rs:5) is a layout constant and is not modelled.

## Findings

| source | as written | input that shows it | evidently intended | confidence | as-written member | corrected member |
|---|---|---|---|---|---|---|
| src/main.rs:917 | the Noxious discard computes `rand % hand.len()` after the played card was removed, so a Move that spends the last card and lands on a living Noxious monster takes a remainder by zero and panics | `PanicExample`: hand `[2]`, Move right from 0 onto a Ghost at position 2 (`NoxiousPanicPoised`) | with no card left there is nothing to discard: skip the discard, so `discarded` stays false and the hand-exhaustion upgrade and refill follow | not executed | EmptyHandDiscard.LastCardOntoNoxiousPanics | EmptyHandDiscard.LastCardOntoNoxiousUpgrades |

The as-written discard is `Rules.NoxiousDiscardAsWritten`, and the as-written Move arm is
`EmptyHandDiscard.ResolveMoveAsWritten`; in both, None stands for the panic. The corrected discard
is `Rules.NoxiousDiscard`, which the rest of the model uses. `EmptyHandDiscard.NoxiousDiscardAgrees`
proves that the two discards agree wherever the code as written does not panic, and the contract of
`ResolveMoveAsWritten` says the same of the two Move arms.
