/** `expectimax` and `expectimax_value` of ai.py: a two-level look-ahead that alternates
    chance nodes (a weighted mix of the opponent's possible answers) and decision nodes
    (the best of our own playable cards), scoring leaves with `evaluate_hand`.
    Values are exact reals; the `top_card` argument of `expectimax_value` is never read
    and is not a parameter here. */
module Expectimax {
  import opened Wrappers
  import opened Cards
  import opened Hands
  import opened Heuristics

  /** The largest element of a non-empty sequence, as the running `max` of the loop leaves it. */
  function MaxSeq(s: seq<real>): real
    requires s != []
  {
    if |s| == 1 then s[0]
    else
      var m := MaxSeq(s[..|s| - 1]);
      if m < s[|s| - 1] then s[|s| - 1] else m
  }

  /** `MaxSeq` is an element of the sequence and no element exceeds it. */
  lemma {:induction false} MaxSeqIsMax(s: seq<real>)
    requires s != []
    ensures MaxSeq(s) in s
    ensures forall k :: 0 <= k < |s| ==> s[k] <= MaxSeq(s)
  {
    if |s| > 1 {
      var init := s[..|s| - 1];
      MaxSeqIsMax(init);
      assert forall k :: 0 <= k < |s| - 1 ==> s[k] == init[k];
      assert MaxSeq(init) in s by {
        var k :| 0 <= k < |init| && init[k] == MaxSeq(init);
        assert s[k] == MaxSeq(init);
      }
    }
  }

  lemma MaxSeqSnoc(s: seq<real>, x: real)
    requires s != []
    ensures MaxSeq(s + [x]) == (if MaxSeq(s) < x then x else MaxSeq(s))
  {
    assert (s + [x])[..|s|] == s;
  }

  /** `expectimax_value(hand, played_card, _, current_color, depth, is_chance_node)`: the
      value of the position where `played` has just been played and `hand` is left. */
  function NodeValue(hand: seq<Card>, played: Card, color: Color, depth: nat, chance: bool,
                     choose: Chooser): real
    decreases depth, 1
  {
    if depth == 0 || hand == [] then EvaluateHand(hand) as real
    else
      var newColor := ResultingColor(played, color, hand, choose);
      if chance then
        0.7 * NodeValue(hand, played, newColor, depth - 1, false, choose)
        + 0.2 * (EvaluateHand(hand) - 10) as real
        + 0.1 * NodeValue(hand, played, newColor, depth - 1, false, choose)
      else
        var playable := PlayableIndices(hand, newColor, played.value);
        if playable == [] then (EvaluateHand(hand) - 5) as real
        else MaxSeq(ChildValues(hand, playable, newColor, depth - 1, choose))
  }

  /** The values of the chance nodes reached by playing, in turn, each card of `hand` at
      `idxs`. */
  function ChildValues(hand: seq<Card>, idxs: seq<nat>, color: Color, depth: nat,
                       choose: Chooser): (vals: seq<real>)
    requires forall j :: 0 <= j < |idxs| ==> idxs[j] < |hand|
    ensures |vals| == |idxs|
    decreases depth + 1, 0
  {
    seq(|idxs|, j requires 0 <= j < |idxs| =>
      NodeValue(RemoveAt(hand, idxs[j]), hand[idxs[j]], color, depth, true, choose))
  }

  /** A chance node averages its decision node with weight 0.8 and the hand's score less 10
      with weight 0.2. */
  lemma ChanceNodeValue(hand: seq<Card>, played: Card, color: Color, depth: nat, choose: Chooser)
    requires depth > 0 && hand != []
    ensures NodeValue(hand, played, color, depth, true, choose) ==
            0.8 * NodeValue(hand, played, ResultingColor(played, color, hand, choose), depth - 1, false, choose)
            + 0.2 * (EvaluateHand(hand) - 10) as real
  {
  }

  /** A decision node with no playable card is worth the hand's score less 5; otherwise it
      is worth the largest value among the chance nodes reached by playing one of its
      playable cards, each leaving a hand one card smaller. */
  lemma DecisionNodeValue(hand: seq<Card>, played: Card, color: Color, depth: nat, choose: Chooser)
    requires depth > 0 && hand != []
    ensures var newColor := ResultingColor(played, color, hand, choose);
            var p := PlayableIndices(hand, newColor, played.value);
            var v := NodeValue(hand, played, color, depth, false, choose);
            (p == [] ==> v == (EvaluateHand(hand) - 5) as real) &&
            (p != [] ==>
               (exists j :: 0 <= j < |p| &&
                  v == NodeValue(RemoveAt(hand, p[j]), hand[p[j]], newColor, depth - 1, true, choose)) &&
               (forall j :: 0 <= j < |p| ==>
                  |RemoveAt(hand, p[j])| == |hand| - 1 &&
                  NodeValue(RemoveAt(hand, p[j]), hand[p[j]], newColor, depth - 1, true, choose) <= v))
  {
    var newColor := ResultingColor(played, color, hand, choose);
    var p := PlayableIndices(hand, newColor, played.value);
    DecisionNodeUnfold(hand, played, color, depth, choose);
    if p != [] {
      ChildValuesMax(hand, p, newColor, depth - 1, choose, NodeValue(hand, played, color, depth, false, choose));
    }
  }

  /** One unfolding of `NodeValue` at a decision node. */
  lemma DecisionNodeUnfold(hand: seq<Card>, played: Card, color: Color, depth: nat, choose: Chooser)
    requires depth > 0 && hand != []
    ensures var newColor := ResultingColor(played, color, hand, choose);
            var p := PlayableIndices(hand, newColor, played.value);
            var v := NodeValue(hand, played, color, depth, false, choose);
            (p == [] ==> v == (EvaluateHand(hand) - 5) as real) &&
            (p != [] ==> v == MaxSeq(ChildValues(hand, p, newColor, depth - 1, choose)))
  {
  }

  /** The largest child value `m` is the value of one child and bounds all of them. */
  lemma ChildValuesMax(hand: seq<Card>, idxs: seq<nat>, color: Color, depth: nat, choose: Chooser, m: real)
    requires idxs != []
    requires forall j :: 0 <= j < |idxs| ==> idxs[j] < |hand|
    requires m == MaxSeq(ChildValues(hand, idxs, color, depth, choose))
    ensures exists j :: 0 <= j < |idxs| &&
              m == NodeValue(RemoveAt(hand, idxs[j]), hand[idxs[j]], color, depth, true, choose)
    ensures forall j :: 0 <= j < |idxs| ==>
              |RemoveAt(hand, idxs[j])| == |hand| - 1 &&
              NodeValue(RemoveAt(hand, idxs[j]), hand[idxs[j]], color, depth, true, choose) <= m
  {
    var vals := ChildValues(hand, idxs, color, depth, choose);
    MaxSeqIsMax(vals);
    var k :| 0 <= k < |vals| && vals[k] == MaxSeq(vals);
    assert forall j :: 0 <= j < |idxs| ==>
             vals[j] == NodeValue(RemoveAt(hand, idxs[j]), hand[idxs[j]], color, depth, true, choose);
  }

  /** Every value lies between the worst score of the hand (less 10) and the 1000 of an
      emptied hand, the latter being the value of every position with an emptied hand. */
  lemma {:induction false} NodeValueBounds(hand: seq<Card>, played: Card, color: Color, depth: nat,
                                           chance: bool, choose: Chooser)
    requires |hand| <= 166
    ensures -10.0 * |hand| as real - 10.0 <= NodeValue(hand, played, color, depth, chance, choose) <= 1000.0
    ensures hand == [] ==> NodeValue(hand, played, color, depth, chance, choose) == 1000.0
    decreases depth, 2
  {
    EvaluateHandBounds(hand);
    if depth == 0 || hand == [] {
    } else if chance {
      ChanceBounds(hand, played, color, depth, choose);
    } else {
      DecisionBounds(hand, played, color, depth, choose);
    }
  }

  lemma {:induction false} ChanceBounds(hand: seq<Card>, played: Card, color: Color, depth: nat, choose: Chooser)
    requires 0 < |hand| <= 166 && depth > 0
    ensures -10.0 * |hand| as real - 10.0 <= NodeValue(hand, played, color, depth, true, choose) <= 1000.0
    decreases depth, 1
  {
    EvaluateHandBounds(hand);
    var newColor := ResultingColor(played, color, hand, choose);
    var d := NodeValue(hand, played, newColor, depth - 1, false, choose);
    NodeValueBounds(hand, played, newColor, depth - 1, false, choose);
    assert NodeValue(hand, played, color, depth, true, choose) == 0.8 * d + 0.2 * (EvaluateHand(hand) - 10) as real;
  }

  lemma {:induction false} DecisionBounds(hand: seq<Card>, played: Card, color: Color, depth: nat, choose: Chooser)
    requires 0 < |hand| <= 166 && depth > 0
    ensures -10.0 * |hand| as real - 10.0 <= NodeValue(hand, played, color, depth, false, choose) <= 1000.0
    decreases depth, 1
  {
    EvaluateHandBounds(hand);
    var newColor := ResultingColor(played, color, hand, choose);
    var playable := PlayableIndices(hand, newColor, played.value);
    if playable != [] {
      ChildValuesBounds(hand, playable, newColor, depth - 1, choose);
    }
  }

  /** The bounds of `NodeValueBounds` for the positions one card below `hand`. */
  lemma {:induction false} ChildValuesBounds(hand: seq<Card>, idxs: seq<nat>, color: Color, depth: nat,
                                             choose: Chooser)
    requires 0 < |hand| <= 166
    requires forall j :: 0 <= j < |idxs| ==> idxs[j] < |hand|
    ensures forall j :: 0 <= j < |idxs| ==>
              -10.0 * |hand| as real - 10.0 <= ChildValues(hand, idxs, color, depth, choose)[j] <= 1000.0
    ensures idxs != [] ==>
              -10.0 * |hand| as real - 10.0 <= MaxSeq(ChildValues(hand, idxs, color, depth, choose)) <= 1000.0
    decreases depth + 1, 0
  {
    var vals := ChildValues(hand, idxs, color, depth, choose);
    forall j | 0 <= j < |idxs|
      ensures -10.0 * |hand| as real - 10.0 <= vals[j] <= 1000.0
    {
      NodeValueBounds(RemoveAt(hand, idxs[j]), hand[idxs[j]], color, depth, true, choose);
    }
    if idxs != [] {
      MaxSeqIsMax(vals);
      var k :| 0 <= k < |vals| && vals[k] == MaxSeq(vals);
    }
  }

  /** `expectimax_value`, recursive as in ai.py. */
  method ExpectimaxValue(hand: seq<Card>, played: Card, color: Color, depth: nat, chance: bool,
                         choose: Chooser) returns (v: real)
    ensures v == NodeValue(hand, played, color, depth, chance, choose)
    decreases depth, 1
  {
    if depth == 0 || hand == [] {
      return EvaluateHand(hand) as real;
    }
    var newColor := ResultingColor(played, color, hand, choose);

    if chance {
      var value: real := 0.0;
      var first := ExpectimaxValue(hand, played, newColor, depth - 1, false, choose);
      value := value + 0.7 * first;
      value := value + 0.2 * (EvaluateHand(hand) - 10) as real;
      var second := ExpectimaxValue(hand, played, newColor, depth - 1, false, choose);
      value := value + 0.1 * second;
      return value;
    }

    var playable := PlayableIndices(hand, newColor, played.value);
    if playable == [] {
      return (EvaluateHand(hand) - 5) as real;
    }
    v := BestChildValue(hand, playable, newColor, depth, choose);
  }

  /** The `for card in playable_cards` loop of a decision node: the largest value among the
      chance nodes below it; `best_value = -inf` is `None`. */
  method BestChildValue(hand: seq<Card>, playable: seq<nat>, color: Color, depth: nat, choose: Chooser)
    returns (best: real)
    requires depth > 0 && playable != []
    requires forall j :: 0 <= j < |playable| ==> playable[j] < |hand|
    ensures best == MaxSeq(ChildValues(hand, playable, color, depth - 1, choose))
    decreases depth, 0
  {
    ghost var vals := ChildValues(hand, playable, color, depth - 1, choose);
    var bestValue: Option<real> := None;
    for i := 0 to |playable|
      invariant i == 0 <==> bestValue.None?
      invariant i > 0 ==> bestValue == Some(MaxSeq(vals[..i]))
    {
      var value := ExpectimaxValue(RemoveAt(hand, playable[i]), hand[playable[i]], color, depth - 1, true, choose);
      MaxPrefixStep(vals, i);
      bestValue := Some(if bestValue.None? || bestValue.value < value then value else bestValue.value);
    }
    assert vals[..|playable|] == vals;
    return bestValue.value;
  }

  /** One step of the running maximum over the prefixes of `s`. */
  lemma MaxPrefixStep(s: seq<real>, i: nat)
    requires i < |s|
    ensures MaxSeq(s[..i + 1]) == if i == 0 then s[0] else (if MaxSeq(s[..i]) < s[i] then s[i] else MaxSeq(s[..i]))
  {
    if i > 0 {
      assert s[..i + 1] == s[..i] + [s[i]];
      MaxSeqSnoc(s[..i], s[i]);
    }
  }

  /** The position of the first largest element: the card the strict `>` test of
      `expectimax` keeps. */
  function FirstMaxIndex(s: seq<real>): (j: nat)
    requires s != []
    ensures j < |s|
  {
    if |s| == 1 then 0
    else
      var j := FirstMaxIndex(s[..|s| - 1]);
      if s[j] < s[|s| - 1] then |s| - 1 else j
  }

  /** `FirstMaxIndex` finds a largest element, and every element before it is smaller. */
  lemma {:induction false} FirstMaxIndexIsFirstMax(s: seq<real>)
    requires s != []
    ensures forall k :: 0 <= k < |s| ==> s[k] <= s[FirstMaxIndex(s)]
    ensures forall k :: 0 <= k < FirstMaxIndex(s) ==> s[k] < s[FirstMaxIndex(s)]
  {
    if |s| > 1 {
      var init := s[..|s| - 1];
      FirstMaxIndexIsFirstMax(init);
      assert forall k :: 0 <= k < |s| - 1 ==> s[k] == init[k];
    }
  }

  /** One step of the running first maximum over the prefixes of `s`: a later element
      replaces the best so far only when it is strictly larger. */
  lemma FirstMaxPrefixStep(s: seq<real>, i: nat)
    requires i < |s|
    ensures FirstMaxIndex(s[..i + 1]) ==
              if i == 0 then 0
              else if s[FirstMaxIndex(s[..i])] < s[i] then i else FirstMaxIndex(s[..i])
  {
    if i > 0 {
      assert s[..i + 1][..i] == s[..i];
      assert s[..i][FirstMaxIndex(s[..i])] == s[FirstMaxIndex(s[..i])];
    }
  }

  /** The value of each root move: the chance node after playing the card at each playable
      index of `hand`. */
  function RootValues(hand: seq<Card>, top: Card, color: Color, depth: nat, choose: Chooser): (vals: seq<real>)
    ensures |vals| == |PlayableIndices(hand, color, top.value)|
  {
    ChildValues(hand, PlayableIndices(hand, color, top.value), color, depth, choose)
  }

  /** `expectimax(hand, top_card, current_color, depth=2)`: None when no card is playable,
      otherwise the first playable card whose chance node has the largest value. */
  method Expectimax(hand: seq<Card>, top: Card, color: Color, choose: Chooser, depth: nat := 2)
    returns (best: Option<Card>)
    ensures best.None? <==> PlayableIndices(hand, color, top.value) == []
    ensures best.Some? ==>
              var p := PlayableIndices(hand, color, top.value);
              best.value == hand[p[FirstMaxIndex(RootValues(hand, top, color, depth, choose))]]
  {
    var playable := PlayableIndices(hand, color, top.value);
    if playable == [] {
      return None;
    }
    ghost var vals := RootValues(hand, top, color, depth, choose);
    var bestCard: Option<Card> := None;
    var bestValue: Option<real> := None;
    for i := 0 to |playable|
      invariant i == 0 <==> bestValue.None?
      invariant i == 0 <==> bestCard.None?
      invariant i > 0 ==> bestValue == Some(vals[FirstMaxIndex(vals[..i])]) &&
                          bestCard == Some(hand[playable[FirstMaxIndex(vals[..i])]])
    {
      var value := ExpectimaxValue(RemoveAt(hand, playable[i]), hand[playable[i]], color, depth, true, choose);
      FirstMaxPrefixStep(vals, i);
      if bestValue.None? || value > bestValue.value {
        bestValue := Some(value);
        bestCard := Some(hand[playable[i]]);
      }
    }
    assert vals[..|playable|] == vals;
    return bestCard;
  }
}
