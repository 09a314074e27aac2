# Thirty-one game engine, modelled in Dafny

The Kotlin repository is a game-tree engine for a two-player card game in the family of
"thirty-one". Each player holds three cards. On its turn a player first picks up a card,
then puts one down. It picks up either blind, from the cards nobody has in sight, or the
visible card of the centre pile. A player may instead knock when its hand is worth 26 or
more. A hand is worth 30 for three cards of one value; otherwise it is worth its best suit
total, where an ace counts 11, number cards their face value, and tens and court cards 10.

The model covers the core of the engine:

- **Cards** (`Cards`, Card.kt): suit, value, the 0..51 index, the hand value, and the
  two-character text form with its parser.
- **Deck helpers** (`Decks`, Deck.kt): the 52-card deck, parsing lists of card strings,
  the hand value, and `padFrom`, which completes a hand in every way from a pool.
- **Utilities** (`Utils`, Utils.kt): `nestedLoop`, an odometer over a counter array that
  yields the cartesian product of several lists, plus `repeatedArray`, `toMap` and
  `foldToList`. The loops are methods with loop invariants, proved against
  specification functions (`Product`, `Repeated`, `LastValue`, `Flatten`).
- **Stages and offers** (`Stages`, `Offers`, GameStage.kt): the hand sizes of each stage
  and the actions each stage offers.
- **Fully observed state** (`GameStates`, FullGameState.kt): the pickup deck, the
  winning rule and `getBestMove` (`BestMoves`).
- **Actions** (`Actions`, Action.kt): each action maps a state to the states it leads
  to, after asserting its stage.
- **Partial state** (`PartialStates`, PartialGameState.kt): the player's own view, which
  branches into every fully observed state the opponent's unseen cards allow.
- **Game tree** (`Trees`, GameStateTreeNode.kt): a class whose nodes hold a state and a
  mutable list of children. `add` appends a leaf, `asSequence` lists the subtree in
  post-order, and `branch(depth)` grows the tree in place.
- **The earlier rewrite** (`Structures`, Structures.kt): a mutable `Deck` class changed
  in place by `+=`, `-=` and `pop`. It also has a `GameState` whose `branch` lists the
  successor states, and a `nestedLoop` without the empty-input guard.

Kotlin sets built with `setOf`, `toSet` or `+` are insertion-ordered, so hands are
sequences without duplicates:

- `Set + x` appends `x` if it is absent (`Lists.AddIfAbsent`).
- `List - Iterable` and `Set - x` filter (`Lists.Without`).
- `List - x` and `MutableList.remove` drop the first occurrence (`Lists.RemoveFirst`).

A failed Kotlin `assert` becomes an error result, as if assertions were enabled. So does
a thrown exception.

## Model

| member | source | states |
|---|---|---|
| Cards.New | src/main/kotlin/Card.kt:4-18 | a card exists exactly when its value is 0..12 and then holds the given suit and value; any other value is the `handValue` initialiser's error |
| Cards.Index | src/main/kotlin/Card.kt:11 | a card of the four suits has an index in 0..51, and the index modulo 13 is the card's value |
| Cards.FromIndex | src/main/kotlin/Card.kt:20-23 | `Card(index)` has that index, and is a card of the four suits for 0..51 |
| Cards.FromIndexOfIndex | src/main/kotlin/Card.kt:11-23 | `Card(card.index)` is the card itself |
| Cards.HandValue | src/main/kotlin/Card.kt:13-18 | an ace is worth 11, a card of value 1 to 9 its value plus one, and a ten or court card 10 |
| Cards.IndexOf | src/main/kotlin/Card.kt:6-9 | `indexOf` gives -1 exactly when the character is absent, otherwise its first position |
| Cards.Parse | src/main/kotlin/Card.kt:6-9 | a string shorter than two characters fails on `string[1]`; it parses exactly when its first character is a value character; an unknown suit character gives suit -1; the value character is the card's |
| Cards.Show | src/main/kotlin/Card.kt:25-27 | `toString` gives two characters, a value then a suit, exactly for cards of the four suits |
| Cards.ShowThenParse | src/main/kotlin/Card.kt:6-27 | parsing the text of a card gives the card back |
| Cards.ParseThenShow | src/main/kotlin/Card.kt:6-27 | printing the card parsed from a well-formed string gives the string back |
| Lists.Without | src/main/kotlin/FullGameState.kt:5 | `-` keeps exactly the elements not in the other collection, and keeps a set free of repeats |
| Lists.WithoutAppend | src/main/kotlin/FullGameState.kt:5 | `-` filters element by element: on a concatenation it concatenates the filtered parts, so the kept elements stay in order |
| Lists.WithoutSingleton | src/main/kotlin/FullGameState.kt:5 | a single element is kept exactly when the other collection lacks it |
| Lists.AddIfAbsent | src/main/kotlin/Action.kt:35 | `Set + x` holds the old elements and `x`, adding `x` at the end exactly when it was absent |
| Lists.RemoveFirst | src/main/kotlin/Action.kt:54 | `List - x` removes one copy of a present element and changes nothing otherwise; `RemoveFirstOccurrence` shows the copy is the first |
| Lists.RemoveFirstOccurrence | src/main/kotlin/Structures.kt:57-59 | the removed copy is the first occurrence: the result is the list with that position cut out, the rest in order |
| Lists.Dedup | src/main/kotlin/FullGameState.kt:5 | `toSet()` has the same members, none twice, and is the list itself when nothing repeats |
| Lists.DedupFirstOccurrences | src/main/kotlin/FullGameState.kt:5 | `toSet()` keeps first occurrences in order: an element precedes another in the result only if it occurs in the list before the other first does |
| Lists.WithoutSameMembers | src/main/kotlin/Structures.kt:61-63 | removing `others` or `others.toSet()` gives the same list |
| Lists.DedupSize | src/main/kotlin/Structures.kt:127-129 | `toSet()` is as long as the list exactly when no element repeats |
| Decks.ToCards | src/main/kotlin/Deck.kt:1 | `toCards` succeeds exactly when every string parses, giving the parsed cards in order; otherwise it fails with the error of the first string that does not parse |
| Decks.ToCardsSet | src/main/kotlin/Deck.kt:3 | `toCardsSet` succeeds exactly when `toCards` does, and holds the same cards, none twice |
| Decks.AllCards | src/main/kotlin/Deck.kt:5 | `allCards()` has 52 cards, the i-th with index i |
| Decks.AllCardsDistinctAndComplete | src/main/kotlin/Deck.kt:5 | the 52 cards are different, and every card of the four suits is among them |
| Decks.GetHandValue | src/main/kotlin/Deck.kt:7-27 | 30 when some value occurs three times; otherwise the largest suit total, at least every suit's total |
| Decks.HandValuePermutation | src/main/kotlin/Deck.kt:7-27 | the hand value does not depend on the order of the cards |
| Decks.HandValueOfEmpty | src/main/kotlin/Deck.kt:18-26 | an empty hand is worth 0 |
| Decks.HandValueAtMost31 | src/main/kotlin/Deck.kt:7-27 | a hand of at most three different cards is worth at most 31 |
| Decks.PadFromCount | src/main/kotlin/Deck.kt:29-32 | `padFrom` gives `|source|^(length - count)` completions of a short hand, and none of a full one |
| Decks.PadFromShape | src/main/kotlin/Deck.kt:29-32 | every completion has the requested length, starts with the hand and continues with pool cards |
| Decks.PadFromComplete | src/main/kotlin/Deck.kt:29-32 | every way of drawing the missing cards from the pool is a completion |
| Decks.PadFromMembers | src/main/kotlin/Deck.kt:29-32 | a completion holds the hand and otherwise only pool cards, and more different cards than a repeat-free hand disjoint from the pool |
| Utils.NestedLoop | src/main/kotlin/Utils.kt:1-18 | `nestedLoop` yields nothing for no lists and otherwise exactly the cartesian product, first list slowest, as many tuples as the product of the sizes |
| Utils.Increment | src/main/kotlin/Utils.kt:9-16 | the increment loop moves the counter to the next tuple of the product, or overflows exactly at the last tuple |
| Utils.ProductAt | src/main/kotlin/Utils.kt:6 | the tuple a counter selects is the product's element at the counter's mixed-radix rank |
| Utils.ProductMembersOnly | src/main/kotlin/Utils.kt:1-18 | every yielded tuple takes its i-th element from the i-th list |
| Utils.ProductMembersAll | src/main/kotlin/Utils.kt:1-18 | every tuple that takes its i-th element from the i-th list is yielded |
| Utils.RankIsLexicographic | src/main/kotlin/Utils.kt:10-16 | a lexicographically smaller counter is yielded earlier |
| Utils.OdometerStep | src/main/kotlin/Utils.kt:10-16 | raising one position and wrapping the maxed positions after it advances the rank by one |
| Utils.RankOfDigits | src/main/kotlin/Utils.kt:3-16 | every position of the product has a counter that selects it |
| Utils.Repeated | src/main/kotlin/Utils.kt:20-26 | `max(length, 0)` copies of the element and nothing else |
| Utils.RepeatedArray | src/main/kotlin/Utils.kt:20-26 | the loop over `1..length` yields exactly `Repeated(element, length)` |
| Utils.ToMap | src/main/kotlin/Utils.kt:37-41 | the map's keys are the pairs' keys, each mapped to the value of its last pair |
| Utils.LastPairWins | src/main/kotlin/Utils.kt:37-41 | a pair whose key no later pair repeats decides that key's value |
| Utils.FoldToList | src/main/kotlin/Utils.kt:43-47 | `foldToList` yields the in-order concatenation of the parts |
| Utils.FlattenLength | src/main/kotlin/Utils.kt:43-47 | the concatenation is as long as all the parts together |
| Utils.FlattenMembers | src/main/kotlin/Utils.kt:43-47 | an element is in the concatenation exactly when it is in some part |
| Utils.FlattenAppend | src/main/kotlin/Utils.kt:43-47 | concatenating two lists of parts concatenates their results |
| Stages.HandSizesFollowTurn | src/main/kotlin/GameStage.kt:1-23 | both hands hold three cards, except that the side to act holds four in its down stage; `isOpp` holds exactly for the opponent's stages |
| Stages.DownStageOf | src/main/kotlin/Action.kt:32-72 | a pick moves the actor to its own down stage |
| GameStates.Unseen | src/main/kotlin/FullGameState.kt:4-5 | the pickup deck holds exactly the cards of the four suits that are in no hand and not in the centre pile, each once, in index order |
| GameStates.UnseenIsDeckMinusKnown | src/main/kotlin/FullGameState.kt:4-5 | that deck is `allCards() - myCards - oppCards - centreCards`; subtracting the pile or `centreCards.toSet()` is the same by `Lists.WithoutSameMembers` |
| GameStates.UnseenElems | src/main/kotlin/FullGameState.kt:4-5 | as a set, the pickup deck is the 52 cards minus the cards in sight |
| GameStates.UnseenSize | src/main/kotlin/FullGameState.kt:4-5 | with valid known cards the pickup deck has `52 - |my| - |opp| - |centre|` cards |
| GameStates.KnownCardsValidIff | src/main/kotlin/FullGameState.kt:2 | the known cards are valid exactly when each pile repeats no card, the piles share none, and all are cards of the four suits |
| GameStates.MeWins | src/main/kotlin/FullGameState.kt:7-15 | a verdict exists exactly when a hand is worth 31 or play is back at the knocker; my 31 wins, checked before the opponent's 31, which loses for me; without a 31, at `OPP_UP` after the opponent's knock I win with `>=`, and at `ME_UP` after my knock only with `>` |
| GameStates.MeWinsMirror | src/main/kotlin/FullGameState.kt:7-15 | swapping the sides swaps the verdict, unless both hands are worth 31 |
| GameStates.TieGoesToNonKnocker | src/main/kotlin/FullGameState.kt:10-13 | with equal hands below 31 and a verdict, the side that did not knock wins |
| GameStates.MeWinsBothThirtyOne | src/main/kotlin/FullGameState.kt:8-9 | with two hands of 31 I win from both sides, since my 31 is checked first |
| Actions.RequiredStage | src/main/kotlin/Action.kt:6-63 | corrected (see Findings): each action asserts the actor's down stage for a play and the actor's up stage otherwise; as written `OPP_KNOCK` asserts `ME_UP` (`Actions.BranchAsWritten`) |
| Actions.NextStage | src/main/kotlin/Action.kt:7-67 | a pick moves the actor down; a play or a knock hands the turn to the other side's up stage |
| Actions.Branch | src/main/kotlin/Action.kt:2-72 | corrected (see Findings): a branch fails exactly when its assertion does, and otherwise gives the action's successor states |
| Actions.Successors | src/main/kotlin/Action.kt:4-72 | corrected (see Findings): every successor is in the next stage with the other hand untouched; a knock sets the flag, a play moves the card from the hand to the top of the pile, a blind pick gives one state per pickup card in order, a visible pick moves the first centre card to the hand |
| Actions.PlayState | src/main/kotlin/Action.kt:7 | corrected (see Findings): playing removes the card from the hand and puts it on top (the front) of the pile, leaving the other hand alone; as written it is appended (`Actions.PlayAppending`) |
| Actions.PlayAppending | src/main/kotlin/Action.kt:7 | as written, a play appends the card to the end of the centre pile |
| Actions.PickState | src/main/kotlin/Action.kt:35 | picking adds the card to the hand if absent, leaving the other hand and the pile alone |
| Actions.PickEach | src/main/kotlin/Action.kt:32-44 | a blind pick gives one state per card of the pickup deck, in deck order |
| Actions.PickVisible | src/main/kotlin/Action.kt:46-72 | a visible pick moves the first centre card into the hand and off the pile |
| Actions.BranchAsWritten | src/main/kotlin/Action.kt:2-72 | as written, `OPP_KNOCK` succeeds exactly in `ME_UP`, and a play appends to the pile; all else is as in `Branch` |
| Actions.OppKnockAsWrittenFails | src/main/kotlin/Action.kt:25-30 | in `OPP_UP` the written knock fails and the corrected one hands the turn to me with the flag false |
| Actions.PlayedCardIsVisible | src/main/kotlin/Action.kt:4-72 | after my play, the opponent's visible pick takes the card I played and restores the pile |
| Actions.PlayedCardBuriedAsWritten | src/main/kotlin/Action.kt:4-72 | as written, that pick takes the oldest card instead, and the played card stays at the bottom of the pile |
| Actions.PlayEvery | src/main/kotlin/Action.kt:4-16 | corrected (see Findings): the enum's play branch fails outside the actor's down stage, and otherwise gives one state per card of the hand, the card on top of the pile |
| Actions.PlayEveryIsConcatenation | src/main/kotlin/Action.kt:4-16 | corrected: the enum's play branch is the concatenation of playing each card of the hand, in hand order |
| Actions.PlayEveryAsWritten | src/main/kotlin/Action.kt:4-16 | as written: the same stage assertion and one state per hand card, each differing from the corrected one only in the pile, where the card is appended |
| Actions.PlayEveryAsWrittenIsConcatenation | src/main/kotlin/Action.kt:4-16 | as written: the enum's play branch is the concatenation of the as-written parameterised branches (`BranchAsWritten`), in hand order |
| Actions.PlayOf | src/main/kotlin/GameStage.kt:10-23 | the play action of a side names the side and the card |
| Actions.BranchKeepsConsistent | src/main/kotlin/Action.kt:4-72 | corrected (see Findings): every admissible action keeps the cards consistent; a pick grows the actor's hand by one, a play shrinks it by one, and a knock leaves both hands alone |
| Actions.BranchKeepsDealt | src/main/kotlin/Action.kt:4-72 | corrected (see Findings): every admissible action keeps the hand sizes of the stage table |
| Offers.UpOffers | src/main/kotlin/GameStage.kt:2-20 | an up stage offers one to three actions, the blind pick first |
| Offers.DownOffers | src/main/kotlin/GameStage.kt:10-23 | a down stage offers one play per card of the actor's hand, in hand order |
| Offers.UpActions | src/main/kotlin/GameStage.kt:2-20 | the mutable-set lambda yields exactly `UpOffers` |
| Offers.UpOffersExactly | src/main/kotlin/GameStage.kt:2-20 | the blind pick is always offered, the knock exactly at a hand worth 26 or more, and the visible pick exactly when the pile is not empty; nothing else, and nothing twice |
| Offers.StageActionsByStage | src/main/kotlin/GameStage.kt:1-23 | the offers of each of the four stages |
| Offers.OfferedActionsApply | src/main/kotlin/GameStage.kt:1-23 | every offered action passes its branch's assertion and plays only a card the actor holds |
| Offers.PlayKeepsDealt | src/main/kotlin/GameStage.kt:1-23 | whatever the players choose, the game stays consistent, with hands sized by the stage table |
| Offers.OppKnockOfferedButRejected | src/main/kotlin/GameStage.kt:13-20 | the knock offered in `OPP_UP` fails the written assertion and passes the corrected one |
| Offers.OppKnockCounterexample | src/main/kotlin/Action.kt:25-30 | a concrete dealt state in which the offered opponent knock fails |
| BestMoves.ArgMax | src/main/kotlin/FullGameState.kt:20 | `maxBy` picks the first position of largest score |
| BestMoves.GetBestMove | src/main/kotlin/FullGameState.kt:17-21 | a move exists exactly when the stage offers one; it is an offered action, scored at least as high as every other offer, and no offer of the same score comes before it |
| BestMoves.FirstOfTies | src/main/kotlin/FullGameState.kt:17-21 | `maxBy` over the distinct offers picks one that occurs no later than any offer of equal score |
| BestMoves.BestMoveApplies | src/main/kotlin/FullGameState.kt:17-21 | the chosen move passes its branch's assertion |
| BestMoves.NoMoveOnlyWithEmptyHand | src/main/kotlin/FullGameState.kt:17-21 | only a down stage with an empty hand has no move |
| PartialStates.PickupDeck | src/main/kotlin/PartialGameState.kt:4-6 | the pickup deck holds exactly the cards of the four suits not known to be anywhere, each once |
| PartialStates.ToFullGameState | src/main/kotlin/PartialGameState.kt:12-15 | the full state keeps everything known and takes the given opponent cards as a set |
| PartialStates.Branch | src/main/kotlin/PartialGameState.kt:8-10 | one full state per completion of the opponent's hand, in `padFrom` order |
| PartialStates.BranchCount | src/main/kotlin/PartialGameState.kt:8-10 | there are `|pickup|^(missing)` states when the opponent's known hand is short, and none when it is full |
| PartialStates.PickupDeckSize | src/main/kotlin/PartialGameState.kt:4-6 | with valid known cards the pickup deck has `52 - |my| - |opp| - |centre|` cards |
| PartialStates.BranchKeepsKnown | src/main/kotlin/PartialGameState.kt:8-15 | every branch state keeps what is known; new opponent cards come from the pickup deck; the hand reaches the stage's size exactly when the drawn cards repeat none |
| PartialStates.BranchConsistent | src/main/kotlin/PartialGameState.kt:8-15 | if the known cards are valid, every branch state is consistent |
| PartialStates.BranchComplete | src/main/kotlin/PartialGameState.kt:8-15 | every filling of the opponent's hand from the pickup deck is a branch state |
| Trees.Moves | src/main/kotlin/GameStateTreeNode.kt:21-22 | one successor list per offered action, in offer order |
| Trees.NextStatesMembers | src/main/kotlin/GameStateTreeNode.kt:21-23 | a state is one move away exactly when some offered action leads to it |
| Trees.NextStatesDealt | src/main/kotlin/GameStateTreeNode.kt:21-23 | every state one move away from a dealt state is dealt |
| Trees.GameStateTreeNode.constructor | src/main/kotlin/GameStateTreeNode.kt:1 | a new node holds the given value, probabilities and parent, and has no children |
| Trees.GameStateTreeNode.AddNode | src/main/kotlin/GameStateTreeNode.kt:1 | the delegated `add(node)` appends the subtree and keeps the tree valid |
| Trees.GameStateTreeNode.Add | src/main/kotlin/GameStateTreeNode.kt:9-11 | `add(value)` appends one new leaf holding the value, keeping the earlier children |
| Trees.GameStateTreeNode.AsSequenceNodes | src/main/kotlin/GameStateTreeNode.kt:13-16 | `asSequence` yields every node of the subtree exactly once, this node last |
| Trees.GameStateTreeNode.AsSequenceLength | src/main/kotlin/GameStateTreeNode.kt:13-16 | `asSequence` is one longer than the children's subtrees together |
| Trees.GameStateTreeNode.Branch | src/main/kotlin/GameStateTreeNode.kt:19-30 | `branch(depth)` appends one child per state one move away, each grown to `depth - 1`; a negative depth changes nothing; the node's own fields stay |
| Trees.GameStateTreeNode.BranchBy | src/main/kotlin/GameStateTreeNode.kt:19-30 | the same growth for any successor function |
| Trees.GameStateTreeNode.GrowAll | src/main/kotlin/GameStateTreeNode.kt:22-28 | the `forEach` appends one grown child per state, in order |
| Trees.GameStateTreeNode.GrowNext | src/main/kotlin/GameStateTreeNode.kt:25-28 | one turn of the `forEach`: the next state's grown child is appended and the children grown before it are unchanged and still grown |
| Trees.GameStateTreeNode.GrowChild | src/main/kotlin/GameStateTreeNode.kt:24-27 | one new child with this node as parent, grown to `depth - 1` and appended |
| Trees.GameStateTreeNode.GrownHeight | src/main/kotlin/GameStateTreeNode.kt:19-30 | a tree grown to `depth` is at most `depth + 1` edges high |
| Trees.GameStateTreeNode.GrownDealt | src/main/kotlin/GameStateTreeNode.kt:19-30 | grown from a dealt state, every node of the tree holds a dealt state |
| Structures.Deck.constructor | src/main/kotlin/Structures.kt:32-47 | a deck holds the given cards |
| Structures.Deck.FromStrings | src/main/kotlin/Structures.kt:45 | the string constructor succeeds exactly when every string parses, giving a new deck of the parsed cards in order; otherwise it fails with `toCards`' error, that of the first string that does not parse |
| Structures.Deck.None | src/main/kotlin/Structures.kt:35 | `none()` is a new empty deck |
| Structures.Deck.All | src/main/kotlin/Structures.kt:37-42 | `all()` is a new deck of `Card(0)`..`Card(51)` in order |
| Structures.Deck.PlusAssignCard | src/main/kotlin/Structures.kt:49-51 | `+= card` puts the card in front |
| Structures.Deck.PlusAssignAll | src/main/kotlin/Structures.kt:53-55 | `+= cards` appends them in order |
| Structures.Deck.MinusAssignCard | src/main/kotlin/Structures.kt:57-59 | `-= card` leaves `RemoveFirst` of the old cards, which cuts out the card's first occurrence (`Lists.RemoveFirstOccurrence`) |
| Structures.Deck.MinusAssignAll | src/main/kotlin/Structures.kt:61-63 | `-= cards` removes every occurrence of every listed card |
| Structures.Deck.PlusCard | src/main/kotlin/Structures.kt:65-70 | `+ card` is a new deck with the card in front; this deck is unchanged |
| Structures.Deck.PlusAll | src/main/kotlin/Structures.kt:72-77 | `+ cards` is a new deck with the cards appended |
| Structures.Deck.MinusCard | src/main/kotlin/Structures.kt:79-84 | `- card` is a new deck holding `RemoveFirst` of the cards, without the card's first occurrence (`Lists.RemoveFirstOccurrence`), this deck unchanged |
| Structures.Deck.MinusAll | src/main/kotlin/Structures.kt:86-91 | `- cards` is a new deck without any listed card |
| Structures.Deck.Get | src/main/kotlin/Structures.kt:95 | `get` gives the card at an index in range, and the index error otherwise |
| Structures.Deck.Peek | src/main/kotlin/Structures.kt:101-103 | `peek` gives `get(0)` for a non-empty deck, and no such element otherwise |
| Structures.Deck.Pop | src/main/kotlin/Structures.kt:97-99 | `pop` returns what `peek` showed and removes it; an empty deck throws and stays empty |
| Structures.Deck.GetHandValue | src/main/kotlin/Structures.kt:105-125 | the deck's hand value is 30 for three of a value and otherwise its best suit total |
| Structures.Deck.IsUnique | src/main/kotlin/Structures.kt:127-129 | `isUnique` holds exactly when no card repeats |
| Structures.PlusAssignThenMinusAssign | src/main/kotlin/Structures.kt:49-59 | `-= card` after `+= card` gives the deck back |
| Structures.PickupDeckIsDeckMinusKnown | src/main/kotlin/Structures.kt:134-135 | `Deck.all() - myCards - oppCards - centreCards.toSet()` is the pickup deck of the fully observed state |
| Structures.UpBranch | src/main/kotlin/Structures.kt:171-184 | a pick-up branch fails exactly on an empty centre pile, and otherwise has one state per pickup card plus one |
| Structures.DownBranch | src/main/kotlin/Structures.kt:185-193 | the put-down branch has one state per card of my hand |
| Structures.Branch | src/main/kotlin/Structures.kt:169-207 | `branch` fails exactly in a pick-up stage with an empty centre pile |
| Structures.BranchKeepsStage | src/main/kotlin/Structures.kt:169-207 | no branch state changes the stage or the knock flag |
| Structures.UpBranchShape | src/main/kotlin/Structures.kt:171-207 | the i-th pick-up state puts the i-th pickup card in front of the actor's hand; the last takes the pile's top card off the pile; the other hand stays |
| Structures.UpPickIsFresh | src/main/kotlin/Structures.kt:171-184 | a blind card is one nobody has in sight, so the state's cards stay free of repeats |
| Structures.DownBranchMovesCard | src/main/kotlin/Structures.kt:185-193 | putting a card down moves it from my hand to the top of the pile, and the two together hold the same cards |
| Structures.VisiblePickMovesCard | src/main/kotlin/Structures.kt:178-183 | taking the visible card keeps the cards in sight the same |
| Structures.NestedLoopUnguarded | src/main/kotlin/Structures.kt:226-241 | with no lists the loop yields the empty tuple again and again; otherwise it yields the product in order |
| Structures.UnguardedNeverStops | src/main/kotlin/Structures.kt:226-241 | run on no lists, the unguarded loop has yielded as many empty tuples as asked, while the guarded `Utils.NestedLoop` yields none |

## Left out

- Main.kt: the entry point and `input` read the console and print. They are not part of this model.
- `FullGameState.toString`, `FullGameState.minus` and `PartialGameState.toString` only build text for printing, and `GameStateTreeNode.print` writes to the console. None of them is modelled.
- `standardise` works on floating-point numbers. It is not called by the core and is not modelled.
- `getWinProbability` is called by `getBestMove` but defined in no source file. `BestMoves.GetBestMove` takes the score as a parameter, and its `println` is left out.
- Probabilities (`Double?`) are `Option<real>`. No arithmetic is done on them.
- Kotlin `assert` only runs on a JVM started with assertions enabled. The model takes them as enabled, so a failed assertion is an `AssertionFailed` result.
- GameStage.kt:11 and :22 write `Action.ME_PLAY_CARD(it)`, but the enum entry takes no argument. The model parameterises the play action by its card (`Actions.MePlayCard(card)`), and `Actions.PlayEveryIsConcatenation` (corrected) and `Actions.PlayEveryAsWrittenIsConcatenation` (as written) relate it to the enum's play-every-card branch.
- GameStateTreeNode.kt:21 writes `value.stage.actions.map`, which does not compile on the function-typed property. It is read as `value.stage.actions(value).map`.
- Trees.GameStateTreeNode.AddNode: `add(node)`, delegated to the children list, requires a subtree that shares no node with this tree. The Kotlin code does not check this. `branch` only ever adds new nodes.
- Trees.GameStateTreeNode.constructor: the `children` constructor argument is always the default empty list in the source, so the constructor takes no children.
- The game tree grows with the corrected catalogue (see Findings), through `Trees.NextStates`.
- Structures.kt `GameState.getBestMove` (:137-167) computes local values and returns nothing. It has no observable effect and is not modelled.
- Structures.Branch: the `OPP_DOWN` case (:208-221) calls `foldRight(mapOf(), )` without its operation and does not compile. `Structures.Branch` requires another stage.
- Structures.Branch: `branch` returns a `Map<GameState, Double?>` whose values are all null. Its keys hold `Deck` objects, which compare by identity, so no two keys collide. The model returns the sequence of keys in insertion order.
- Structures.GameState holds each deck's card list by value. The model does not capture states sharing `Deck` objects with the state they were copied from.
- Structures.NestedLoopUnguarded: the unguarded loop never ends for no lists. The model stops it after `limit` tuples and proves what it has yielded by then.
- Where the game's documented rules and the code disagree, the model follows the code:
  - `padFrom` draws the missing opponent cards with repetition, and `toSet` then merges repeats. The model keeps those smaller hands; `PartialStates.BranchKeepsKnown` says exactly when a hand is full.
  - A fully known opponent hand gives no states, not one, because `nestedLoop` of no lists yields nothing (`PartialStates.BranchCount`).
  - `maxBy` breaks ties by taking the first action offered (`BestMoves.ArgMax`).

## Findings

| source | as written | input that shows it | evidently intended | confidence | as-written member | corrected member |
|---|---|---|---|---|---|---|
| src/main/kotlin/Action.kt:25-30 | `OPP_KNOCK` asserts `stage == ME_UP`, a stage in which it is never offered | `OPP_UP`, opponent holding the ace, king and queen of hearts (worth 31): the stage offers `OPP_KNOCK` (GameStage.kt:15-16) and its branch fails the assertion | assert `OPP_UP`, the stage that offers the knock | not executed; high | Offers.OppKnockCounterexample | Offers.OfferedActionsApply |
| src/main/kotlin/Action.kt:4-16 | a played card is appended to the end of the centre pile (`centreCards + it`), in the parameterised play and in the enum's play-every-card branch (`Actions.PlayEveryAsWritten`), while a visible pick takes the first card | `ME_DOWN` with centre pile [3C]: I play AD, the pile becomes [3C, AD], and `OPP_PICK_VISIBLE` gives the opponent 3C | the played card goes on top, where the next visible pick takes it, as `Deck.plus(card)` does in Structures.kt:185-193 | not executed; medium | Actions.PlayedCardBuriedAsWritten | Actions.PlayedCardIsVisible |
| src/main/kotlin/Structures.kt:226-241 | `nestedLoop` has no guard for zero lists | `nestedLoop()` with no lists: the guard `none { it < 0 }` holds on the empty zip forever, so the empty tuple is yielded endlessly | stop at once, as Utils.kt:2 does | not executed; high | Structures.NestedLoopUnguarded | Utils.NestedLoop |
