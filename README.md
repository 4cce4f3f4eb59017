# smart-uno-bot: a Dafny model of the computer opponent

This project models the move-selection engine of the UNO-like card game
smart-uno-bot, together with the card vocabulary and the hand operations it builds on,
and proves properties of that model. The model covers:

- the cards of `card.py`: colours, values, the value predicates, `matches`, the
  `__lt__` order and `generate_deck`;
- the `Player` class of `player.py`: drawing from the deck, playing a card by index and
  the playable-card filter;
- the engine of `ai.py`:
  - the two hand heuristics `calculate_hand_cost` and `evaluate_hand`;
  - `choose_color`;
  - the best-first search `a_star_search`;
  - the expectimax search `expectimax` / `expectimax_value`;
  - the arbiter `get_best_move`, which reconciles the answers of the two searches.

Modules, one per concern of the source:

| module | file | models |
|---|---|---|
| `Wrappers` | wrappers.dfy | `Option`, for Python's `None` results |
| `Cards` | cards.dfy | `Card`, its predicates, `matches`, `__lt__` (card.py) |
| `Deck` | deck.dfy | `generate_deck` and `random.shuffle` (card.py) |
| `Hands` | hands.dfy | removing a card by index; the playability test that ai.py writes out four times |
| `Players` | player.dfy | the `Player` class (player.py) |
| `Heuristics` | heuristics.dfy | `calculate_hand_cost`, `evaluate_hand`, `choose_color` and the colour update after a play (ai.py) |
| `BestFirst` | best_first.dfy | `a_star_search` (ai.py) |
| `Expectimax` | expectimax.dfy | `expectimax`, `expectimax_value` (ai.py) |
| `Arbiter` | arbiter.dfy | `get_best_move` (ai.py) |

The following correspond to the source as described:

- **Colours and values.** They are enumerations. Python's string comparison in `__lt__`
  is modelled on their names (`ColorName`, `ValueName`) with a lexicographic order on
  strings (`StrLess`).
- **`list.remove(card)`.** A `Card` has no `__eq__`, so `remove` takes out the object
  being iterated. This is removal at that card's index (`RemoveAt`). The playable cards
  are handled as the list of their indices (`PlayableIndices`), in hand order.
- **Copied hands.** Hands are sequence values, so no search can change its caller's hand.
  The tuple and list copies at ai.py:10 and ai.py:38-39 need no model of their own.
- **Randomness** becomes parameters:
  - `choose_color`'s `random.choice` is the `pick` argument of `ChooseColor`. Inside the
    searches it is a `ColorDraw` function of the hand.
  - `random.choices` in `get_best_move` is the boolean `pickExpectimax`.
  - `random.shuffle` is a Fisher-Yates shuffle driven by a `draw` function.
- **The searches' colour choice.** The searches take a `Chooser` (a colour for a hand).
  `GetBestMove` passes them `ColorChoice(draw)`, which is `choose_color` with the draw
  `draw` supplies. Their properties therefore hold for any colour-choosing function.
- **The heap** (`heapq`) is a sequence whose pop returns some entry of least cost. Which
  one is left open. The frontier's contents are tracked as a multiset.
- **Floats.** The expectimax weights 0.7/0.2/0.1 are exact `real`s. The `-inf`
  sentinels are `None` in an `Option<real>`.
- **The first search is only one ply deep.** A state with a non-empty path and a
  playable card returns at once, so `a_star_search` only ever expands the root. It is
  proved to return None exactly when the hand is empty, has no playable card, or has 100
  or more playable cards. In that last case the frontier bound stops the loop right after the root.
  Otherwise it returns a playable card of the hand. When some child of the root ends the
  search (its hand is empty or still holds a playable card), the answer is the card of a
  cheapest such child: the heap pops by least cost, and the explored set never skips such
  a child, because two children of the root with the same hand are the same state.

## Model

| member | source | states |
|---|---|---|
| Cards.Color | card.py:3-5 | the colour strings a card can carry: the four of COLORS and "Wild" |
| Cards.Value | card.py:4-5 | the value strings of VALUES and WILD_CARDS: the digits "0" to "9", "Skip", "Reverse", "+2", "Wild", "+4" |
| Cards.Card | card.py:7-10 | a card is its two fields, colour and value; equality on the datatype compares (colour, value), and the removal of a card object from a list by identity becomes removal at its index (`RemoveAt`) |
| Cards.IsSkip | card.py:26-27 | defines `is_skip`: the value is Skip |
| Cards.IsReverse | card.py:29-30 | defines `is_reverse`: the value is Reverse |
| Cards.IsPlusTwo | card.py:32-33 | defines `is_plus_two`: the value is +2 |
| Cards.IsPlusFour | card.py:35-36 | defines `is_plus_four`: the value is +4 |
| Cards.IsWild | card.py:38-39 | defines `is_wild`: the value is Wild |
| Cards.IsSpecial | card.py:26-42 | a card is special exactly when its value is Skip, Reverse, +2, Wild or +4; the colour plays no part |
| Cards.Matches | card.py:20-24 | a Wild or +4 card matches anything; any other card matches exactly when colours or values are equal |
| Cards.ColorName | card.py:3 | defines the colour strings of COLORS, with "Wild" for the wild colour |
| Cards.ValueName | card.py:4-5 | defines the value strings of VALUES and WILD_CARDS |
| Cards.StrLess | card.py:15-18 | defines Python's `<` on strings: code-point order with a proper prefix first; its order properties are the three lemmas below |
| Cards.CardLess | card.py:15-18 | defines `__lt__`: colour names compared first, value names when the colours are equal; its order properties are the `CardLess` lemmas |
| Cards.StrLessIrreflexive | card.py:15-18 | the string order used by `__lt__` is irreflexive |
| Cards.StrLessTransitive | card.py:15-18 | the string order used by `__lt__` is transitive |
| Cards.StrLessTotal | card.py:15-18 | two different strings are ordered one way or the other |
| Cards.ColorNameInjective | card.py:3-5 | different colours have different names, so comparing names compares colours |
| Cards.ValueNameInjective | card.py:3-5 | different values have different names |
| Cards.BaseColors | card.py:3 | the four non-wild colours in the order of COLORS |
| Cards.BaseColorNames | card.py:3 | `BaseColors` spells out COLORS, "Red", "Green", "Blue", "Yellow", and holds every colour but "Wild" |
| Cards.CardLessIrreflexive | card.py:15-18 | no card is less than itself |
| Cards.CardLessTransitive | card.py:15-18 | the (colour, value) order on cards is transitive |
| Cards.CardLessTotal | card.py:15-18 | two different cards are ordered one way or the other |
| Deck.Pairs | card.py:53-55 | defines the cards the inner loop appends: two of each value, in order |
| Deck.ColorBlock | card.py:50-55 | defines one colour's cards: a "0", then the pairs for `VALUES[1:]` |
| Deck.ColorBlocks | card.py:48-55 | defines the cards of the colour loop, colour by colour |
| Deck.WildBlock | card.py:58-60 | defines k rounds of the wild loop: a (Wild, Wild) and a (Wild, +4) card each |
| Deck.OrderedDeck | card.py:44-60 | defines the list built before the shuffle: the colour blocks for Red, Green, Blue, Yellow, then four wild rounds; its length and counts are `OrderedDeckLength` and `OrderedDeckCount` |
| Deck.DeckCount | card.py:48-60 | defines the count table of a full deck, independent of the loops: 1 "0" and 2 of each other coloured value per base colour, 4 (Wild, Wild), 4 (Wild, +4), nothing else |
| Deck.PairsLength | card.py:53-55 | the inner loop adds two cards per value |
| Deck.PairsCount | card.py:53-55 | for distinct values, the inner loop holds two copies of each card of the colour with one of those values and no other card |
| Deck.DropLast | card.py:53-55 | dropping the last of distinct values keeps them distinct and removes exactly that value |
| Deck.PairsStep | card.py:54-55 | the last value's round adds two copies of its card and nothing else |
| Deck.ValuesTailMembers | card.py:4 | `VALUES[1:]` holds every coloured value but "0" |
| Deck.Values | card.py:4 | the thirteen coloured values in the order of VALUES |
| Deck.ValueNames | card.py:4 | `Values` spells out VALUES, "0" to "9", "Skip", "Reverse", "+2", and holds every value but "Wild" and "+4" |
| Deck.ColorBlockCount | card.py:48-55 | one colour's block holds one "0" and two of every other coloured value of that colour, nothing else |
| Deck.ColorBlockLength | card.py:48-55 | one colour's block has 25 cards |
| Deck.WildBlockFacts | card.py:58-60 | k rounds of the wild loop give 2k cards, k each of (Wild, Wild) and (Wild, +4) |
| Deck.BaseBlocks | card.py:48 | the colour loop visits Red, Green, Blue, Yellow in that order |
| Deck.ColorBlocksSnoc | card.py:48-55 | one more colour appends that colour's block |
| Deck.PairsSnoc | card.py:53-55 | one more value appends its two cards |
| Deck.PairsAppend | card.py:53-55 | one round of the inner loop appends the two cards of the next value |
| Deck.ColorBlockDone | card.py:50-55 | after the last round the inner loop has appended the whole colour block |
| Deck.OrderedDeckLength | card.py:44-60 | the list built before the shuffle has 108 cards |
| Deck.OrderedDeckCount | card.py:44-60 | the built list holds each card as often as a full deck (`DeckCount`): 1 "0" and 2 of each other coloured value per colour, 4 (Wild, Wild) and 4 (Wild, +4) |
| Deck.DeckColorsAndValues | card.py:48-60 | in any arrangement of the deck, a card has colour Wild exactly when its value is Wild or +4 |
| Deck.Shuffle | card.py:62 | the shuffle keeps the length and the multiset of cards |
| Deck.AppendColorBlock | card.py:48-55 | the body of the colour loop appends that colour's block |
| Deck.GenerateDeck | card.py:44-63 | the deck is a permutation of the built list, has 108 cards and holds each card `DeckCount` times |
| Deck.DeckCounts | card.py:44-63 | every permutation of the built list holds each card `DeckCount` times |
| Hands.RemoveAt | ai.py:38-39 | removing one card shortens the hand by one |
| Hands.RemoveAtFacts | player.py:23-24 | the cards before the index keep their place, those after move down by one, and exactly one copy of the removed card is gone |
| Hands.Playable | ai.py:25-29 | defines the playability test ai.py writes out four times: the active colour, or the reference value, or a Wild/+4 card |
| Hands.PlayableFrom | ai.py:25-29 | every kept index is in range and playable, and the indices keep hand order |
| Hands.PlayableFromComplete | ai.py:25-29 | every playable card is kept |
| Hands.PlayableIndices | ai.py:25-29 | defines the playable cards of a hand as the list of their indices in hand order; `PlayableFrom` and `PlayableFromComplete` say it keeps exactly the playable ones |
| Hands.NoPlayableIff | ai.py:76-83 | the playable list is empty exactly when no card of the hand is playable |
| Hands.MatchesIsPlayable | card.py:20-24 | `matches(top)` is the playability test with the top card's colour as active colour |
| Players.MatchingCards | player.py:17-19 | the filter holds each matching card as often as the hand does, no other card, and in hand order |
| Players.MatchingCardsMembers | player.py:17-19 | a card is in the filter exactly when it is in the hand and matches |
| Players.MatchingNonEmpty | player.py:13-19 | the filter is non-empty exactly when some card of the hand matches |
| Players.CardList.constructor | player.py:6-10 | the deck list holds the given cards |
| Players.Player.constructor | player.py:2-4 | a new player has the given name and an empty hand |
| Players.Player.DrawCard | player.py:6-11 | on a non-empty deck, the deck's last card moves to the end of the hand and True is answered; on an empty deck, False is answered and nothing changes; the total number and multiset of cards are kept |
| Players.Player.HasPlayableCard | player.py:13-15 | true exactly when `get_playable_cards` is non-empty |
| Players.Player.GetPlayableCards | player.py:17-19 | the order-preserving filter of the hand by `matches(top)` |
| Players.Player.PlayCard | player.py:21-25 | an index in range returns that card and removes it, the rest in order; any other index, negative ones included, returns None and leaves the hand alone |
| Heuristics.CountSpecial | ai.py:63 | defines the number of special cards |
| Heuristics.CountWild | ai.py:66 | defines the number of Wild/+4 cards |
| Heuristics.BaseColorsIn | ai.py:69 | defines the set of non-Wild colours of the hand |
| Heuristics.HandCost | ai.py:57-72 | defines `calculate_hand_cost`: −1000 for an empty hand, else 10n − 5s + 3w − 2c; its properties are `HandCostBounds`, `CostPlusEvaluation` and `ReplacingOneCard` |
| Heuristics.EvaluateHand | ai.py:141-157 | defines `evaluate_hand`: 1000 for an empty hand, else −10n + 5s + 3c + 8w; its properties are `EvaluateHandBounds`, `CostPlusEvaluation` and `ReplacingOneCard` |
| Heuristics.BaseColorsInMembers | ai.py:69 | the colour set holds exactly the non-Wild colours of the hand |
| Heuristics.CountBounds | ai.py:63-70 | the Wild/+4 count is at most the special count, which is at most the hand size; at most one colour per card |
| Heuristics.HandCostBounds | ai.py:57-72 | a non-empty hand costs between 3n and 10n, more than the −1000 of an empty hand |
| Heuristics.EvaluateHandBounds | ai.py:141-157 | a non-empty hand scores between −10n and 6n, and below the 1000 of an empty hand when it has at most 166 cards |
| Heuristics.CostPlusEvaluation | ai.py:57-72 | cost (with the score of `evaluate_hand`, ai.py:141-157) plus score of a non-empty hand is 11w + c: the two formulas have opposite signs except for the Wild bonus and the colour terms |
| Heuristics.CountsUpdate | ai.py:63-70 | replacing a card by one of the same colour changes the special and wild counts by the two cards' indicators and keeps the colour set |
| Heuristics.ReplacingOneCard | ai.py:57-72 | with hand size and colours held fixed (one card replaced by another of the same colour), each special card changes the cost by −5 and the score of `evaluate_hand` (ai.py:141-157) by +5, and each Wild/+4 card changes the cost by +3 and the score by +8 |
| Heuristics.CountColor | ai.py:194 | defines the Counter's count of one colour |
| Heuristics.Tally | ai.py:194 | defines the Counter's keys in insertion order |
| Heuristics.MostCommonIndex | ai.py:200 | `most_common(1)` picks a position of the tally |
| Heuristics.OccursSnoc | ai.py:194 | a colour occurs in a hand exactly when it occurs before the last card or is the last card's |
| Heuristics.TallyMembers | ai.py:194 | the `Counter`'s keys are exactly the non-Wild colours of the hand |
| Heuristics.TallyOrder | ai.py:194 | the `Counter`'s keys are in order of first occurrence in the hand |
| Heuristics.MostCommonIndexIsFirstMax | ai.py:200 | `most_common(1)` picks a key of largest count, the first such in key order |
| Heuristics.ChooseColorSpec | ai.py:192-200 | the colour is never Wild; with no non-Wild card it is the drawn base colour; otherwise it is a colour of the hand with the largest count, met in the hand no later than any other colour of that count |
| Heuristics.ChooseColor | ai.py:192-200 | defines `choose_color` with its random draw as a parameter; what it returns is `ChooseColorSpec` |
| Heuristics.ColorChoice | ai.py:192-200 | defines `choose_color` as the colour-choosing function the searches take, the random draw supplied per hand |
| Heuristics.ResultingColor | ai.py:41-45 | defines the colour after a play (also ai.py:105-109): the chosen colour for the remaining hand after a Wild/+4 card, else the card's colour unless it is "Wild", else the current colour |
| BestFirst.HandKey | ai.py:16 | defines the explored-set key: the ordered tuple of (colour, value) pairs |
| BestFirst.HandKeyInjective | ai.py:16-20 | two hands have the same key exactly when they hold the same cards in the same order, so a state is skipped only when a hand equal to its own was explored |
| BestFirst.SearchState | ai.py:10 | the heap entry `(cost, hand, path, colour)`, with the hand as a sequence |
| BestFirst.Child | ai.py:38-53 | defines the state pushed for one playable card: the hand without that card, the colour after the play, the new hand's cost less 2 for a special card, the path extended by the card |
| BestFirst.Children | ai.py:37-53 | one pushed state per playable card |
| BestFirst.ChildrenSnoc | ai.py:37-53 | one more playable card appends its state |
| BestFirst.PushStep | ai.py:37-53 | one round of the push loop adds the next state to the frontier's entries |
| BestFirst.ChildrenAt | ai.py:37-53 | the j-th pushed state is the state for the j-th playable card |
| BestFirst.Expand | ai.py:25-53 | defines what the push loop appends for a popped state: one state per playable card, in hand order |
| BestFirst.FromRoot | ai.py:37-53 | defines a state one move below the root: one playable card of the root hand played and removed |
| BestFirst.RootExpansion | ai.py:10-53 | defines the states pushed when the root is expanded |
| BestFirst.RootExpansionMember | ai.py:37-53 | a state pushed for the root plays one of its playable cards and holds one card less |
| BestFirst.ExpandRoot | ai.py:22-53 | every state pushed from the root has a one-card path of a playable card and a hand one card shorter, so the three-fewer-cards exit fires only on an emptied hand |
| BestFirst.RootPush | ai.py:37-53 | expanding the root into the empty heap leaves one entry per playable card; every entry is a state of the root's expansion, and every state of it that ends the search is an entry |
| BestFirst.LeafPush | ai.py:37-53 | expanding a state with no playable card leaves the heap holding the same entries |
| BestFirst.MinCost | ai.py:14 | the least cost is the cost of some entry and at most every entry's |
| BestFirst.PushChildren | ai.py:37-53 | the loop adds exactly the states for the playable cards of the popped state: colour after the play, cost of the new hand less 2 for a special card, path extended by the card |
| BestFirst.PopMin | ai.py:14 | `heappop` takes out one entry of least cost and leaves the others |
| BestFirst.Examine | ai.py:22-35 | defines the three exit tests of the loop body, in their order; `ExamineRoot` and `ExamineChild` say how they fall at the root and one move below it |
| BestFirst.ExamineRoot | ai.py:22-32 | at the root the loop answers None exactly when the hand is empty or has no playable card, and expands otherwise |
| BestFirst.ExamineChild | ai.py:22-35 | a state one move below the root answers its move exactly when it ends the search (`Answers`); otherwise it has no playable card and pushes nothing |
| BestFirst.Answers | ai.py:22-35 | defines when a state one move below the root ends the search: its hand is empty or holds a playable card |
| BestFirst.LeastAnswer | ai.py:14-35 | defines a cheapest state among those of the root's expansion that end the search |
| BestFirst.AnswersWaiting | ai.py:13-14 | defines the loop's guarantee that every state of the root's expansion that ends the search is still in the heap |
| BestFirst.ExploredNonAnswers | ai.py:16-20 | defines the loop's guarantee that the explored set holds the root's key and keys of children that did not end the search |
| BestFirst.RemoveAtSameElement | ai.py:38-39 | removing two positions that leave the same list removes equal cards |
| BestFirst.ChildByHand | ai.py:38-53 | two plays from one state that leave the same hand push the same state |
| BestFirst.RootChildrenByHand | ai.py:37-53 | two states of the root's expansion with the same hand are the same state |
| BestFirst.SkippedChild | ai.py:16-18 | a child of the root skipped because its hand key was explored does not end the search |
| BestFirst.ExploreStep | ai.py:20 | adding the root's key, or a non-answering child's key, keeps the explored-set guarantee |
| BestFirst.PopKeepsAnswers | ai.py:14 | popping a state that does not end the search keeps in the heap every state that does |
| BestFirst.PopBest | ai.py:14-35 | a popped least-cost state that ends the search is a cheapest answering child of the root |
| BestFirst.AStarSearch | ai.py:5-55 | None exactly when the hand is empty, has no playable card, or has 100 or more playable cards; otherwise a playable card of the hand; and when some child of the root ends the search, the card played by a cheapest such child |
| Expectimax.MaxSeq | ai.py:132-137 | defines the running `max` over a non-empty list of values; `MaxSeqIsMax` says it is their maximum |
| Expectimax.NodeValue | ai.py:100-139 | defines the value `expectimax_value` computes: the score at depth 0 or on an empty hand; at a chance node 0.7 and 0.1 times the decision node plus 0.2 times (score − 10); at a decision node score − 5 without a playable card, else the maximum over the children; its properties are `ChanceNodeValue`, `DecisionNodeValue` and `NodeValueBounds` |
| Expectimax.MaxSeqIsMax | ai.py:132-139 | the running maximum is one of the values and at least every value |
| Expectimax.MaxSeqSnoc | ai.py:137 | one more value replaces the maximum only when larger |
| Expectimax.MaxPrefixStep | ai.py:133-137 | one round of the decision loop advances the running maximum over one more child |
| Expectimax.ChildValues | ai.py:133-136 | one value per playable card |
| Expectimax.ChanceNodeValue | ai.py:111-120 | a chance node is worth 0.8 times its decision node plus 0.2 times (score − 10), since lines 114 and 118 make the same call |
| Expectimax.DecisionNodeUnfold | ai.py:122-139 | a decision node is worth score − 5 without a playable card, else the maximum of its children's values |
| Expectimax.ChildValuesMax | ai.py:132-139 | that maximum is the value of one child and bounds every child, each child's hand being one card smaller |
| Expectimax.DecisionNodeValue | ai.py:122-139 | a decision node without a playable card is worth score − 5; otherwise it is worth the largest value among the children one card smaller |
| Expectimax.NodeValueBounds | ai.py:100-157 | every value lies between −10n − 10 and 1000, for hands of at most 166 cards |
| Expectimax.ChanceBounds | ai.py:111-120 | the bounds at a chance node |
| Expectimax.DecisionBounds | ai.py:122-139 | the bounds at a decision node |
| Expectimax.ChildValuesBounds | ai.py:132-139 | the bounds for every child and their maximum |
| Expectimax.ExpectimaxValue | ai.py:100-139 | the recursive method computes the value `NodeValue` defines, and terminates by its depth |
| Expectimax.BestChildValue | ai.py:132-139 | the loop over the playable cards ends with the maximum of the children's values |
| Expectimax.FirstMaxIndex | ai.py:85-96 | the kept position is a position of the values |
| Expectimax.FirstMaxIndexIsFirstMax | ai.py:88-96 | the kept position holds a largest value, and every earlier value is strictly smaller |
| Expectimax.FirstMaxPrefixStep | ai.py:94-96 | a later card replaces the best one only when its value is strictly larger |
| Expectimax.RootValues | ai.py:88-92 | one value per playable root card |
| Expectimax.Expectimax | ai.py:74-98 | None exactly when no card is playable; otherwise the first playable card, in hand order, of largest value |
| Arbiter.Arbitrate | ai.py:177-190 | None only when both answers are None; always one of the two; the other one when one is None; A* for hands of at most 3 cards; when either is special, expectimax's if it is special, else A*'s; otherwise the weighted draw decides |
| Arbiter.ActiveColor | ai.py:161-162 | the active colour defaults to the top card's colour |
| Arbiter.GetBestMove | ai.py:159-190 | None exactly when no card is playable against the active colour and the top card's value; otherwise the arbitration (`Arbitrate`) of the two engines' answers, where the expectimax answer is the first playable card of largest value and the A* answer is None exactly when 100 or more cards are playable and otherwise a playable card; the move is a playable card of the hand; when some child of the root ends the search, the A* answer is the card of a cheapest such child |

## Left out

- main.py is not part of this model: it is the tkinter front-end and game loop (widgets,
  dialogs, scheduling, applying card effects, reshuffling the discard pile). Its
  `is_card_playable` is the playability test already modelled in `Hands.Playable`.
- Probabilities: the random draws are parameters (see above). Their distributions
  (uniform colour, 0.4/0.6 weights, uniform shuffle) are not modelled.
- Heuristics.ChooseColor: the random fallback colour depends only on the hand here
  (`ColorDraw`). In the source, every call makes a fresh draw. A decision node of
  `expectimax_value` therefore gets the same colour as its chance node in this model,
  though the source could draw a different one.
- Floating point: the weighted sums are exact reals, so rounding of 0.7/0.2/0.1 is not
  modelled.
- The heap's tie-break among entries of equal cost, and its internal order. Python
  compares such tuples through `Card.__lt__` and identity. Only the frontier's multiset
  of entries is modelled.
- The explored set is kept as in the source. The model proves that it never skips a
  child of the root that ends the search, and makes no other claim about which duplicate
  hand it skips.
- `Card.__str__` is display formatting.
- `expectimax_value`'s `top_card` parameter is never read, so it is not a parameter
  here.
- BestFirst.AStarSearch: when no child of the root ends the search, the answer is
  proved only to be a playable card of the hand. The source then answers with the card of
  the last child popped, a child of highest cost; the model does not state which.
- Integers are unbounded in both Python and Dafny, so no overflow arises.
