/** The scoring and colour-choice helpers of ai.py: `calculate_hand_cost`,
    `evaluate_hand` and `choose_color`. */
module Heuristics {
  import opened Cards

  // ---------------------------------------------------------------------------
  // Counts over a hand

  /** The number of special cards (`is_special`). */
  function CountSpecial(hand: seq<Card>): nat {
    if hand == [] then 0 else (if IsSpecial(hand[0]) then 1 else 0) + CountSpecial(hand[1..])
  }

  /** The number of Wild and +4 cards. */
  function CountWild(hand: seq<Card>): nat {
    if hand == [] then 0
    else (if IsWild(hand[0]) || IsPlusFour(hand[0]) then 1 else 0) + CountWild(hand[1..])
  }

  /** The set of colours other than "Wild" that the hand's cards carry. */
  function BaseColorsIn(hand: seq<Card>): set<Color> {
    if hand == [] then {}
    else (if hand[0].color != WildColor then {hand[0].color} else {}) + BaseColorsIn(hand[1..])
  }

  /** `calculate_hand_cost` (lower is better). */
  function HandCost(hand: seq<Card>): int {
    if hand == [] then -1000
    else 10 * |hand| - 5 * CountSpecial(hand) + 3 * CountWild(hand) - 2 * |BaseColorsIn(hand)|
  }

  /** `evaluate_hand` (higher is better). */
  function EvaluateHand(hand: seq<Card>): int {
    if hand == [] then 1000
    else -10 * |hand| + 5 * CountSpecial(hand) + 3 * |BaseColorsIn(hand)| + 8 * CountWild(hand)
  }

  /** `BaseColorsIn` is the set comprehension `set(card.color for card in hand if card.color != "Wild")`. */
  lemma {:induction false} BaseColorsInMembers(hand: seq<Card>)
    ensures forall c :: c in BaseColorsIn(hand) <==> c != WildColor && Occurs(hand, c)
  {
    if hand != [] {
      BaseColorsInMembers(hand[1..]);
      forall c
        ensures c in BaseColorsIn(hand) <==> c != WildColor && Occurs(hand, c)
      {
        if Occurs(hand, c) {
          var i :| 0 <= i < |hand| && hand[i].color == c;
          if i > 0 {
            assert hand[1..][i - 1].color == c;
          }
        }
        if Occurs(hand[1..], c) {
          var i :| 0 <= i < |hand[1..]| && hand[1..][i].color == c;
          assert hand[i + 1].color == c;
        }
      }
    }
  }

  /** Wild cards are special, and no count exceeds the hand size. */
  lemma {:induction false} CountBounds(hand: seq<Card>)
    ensures CountWild(hand) <= CountSpecial(hand) <= |hand|
    ensures |BaseColorsIn(hand)| <= |hand|
  {
    if hand != [] {
      CountBounds(hand[1..]);
      var head := if hand[0].color != WildColor then {hand[0].color} else {};
      assert |head + BaseColorsIn(hand[1..])| <= |head| + |BaseColorsIn(hand[1..])|;
    }
  }

  /** A non-empty hand costs between 3 and 10 per card (a Wild/+4 card is also special, so
      its +3 never outweighs its -5), so an emptied hand (-1000) is the cheapest state
      there is. */
  lemma HandCostBounds(hand: seq<Card>)
    ensures hand != [] ==> 3 * |hand| <= HandCost(hand) <= 10 * |hand|
    ensures hand != [] ==> HandCost([]) < HandCost(hand)
  {
    CountBounds(hand);
  }

  /** A non-empty hand evaluates to between -10 and 6 per card, always below the 1000 of an
      emptied hand while it has fewer than 167 cards. */
  lemma EvaluateHandBounds(hand: seq<Card>)
    ensures hand != [] ==> -10 * |hand| <= EvaluateHand(hand) <= 6 * |hand|
    ensures 0 < |hand| <= 166 ==> EvaluateHand(hand) < EvaluateHand([])
  {
    CountBounds(hand);
  }

  /** The two heuristics are not each other's negation: on a non-empty hand they add up to
      11 per Wild/+4 card plus 1 per colour present. */
  lemma CostPlusEvaluation(hand: seq<Card>)
    requires hand != []
    ensures HandCost(hand) + EvaluateHand(hand) == 11 * CountWild(hand) + |BaseColorsIn(hand)|
  {
  }

  function Indicator(b: bool): int { if b then 1 else 0 }

  /** Replacing one card by another of the same colour changes the counts only by that card. */
  lemma {:induction false} CountsUpdate(hand: seq<Card>, i: nat, x: Card)
    requires i < |hand| && x.color == hand[i].color
    ensures CountSpecial(hand[i := x]) == CountSpecial(hand) - Indicator(IsSpecial(hand[i])) + Indicator(IsSpecial(x))
    ensures CountWild(hand[i := x]) == CountWild(hand) - Indicator(IsWild(hand[i]) || IsPlusFour(hand[i]))
                                       + Indicator(IsWild(x) || IsPlusFour(x))
    ensures BaseColorsIn(hand[i := x]) == BaseColorsIn(hand)
  {
    if i > 0 {
      assert hand[i := x][1..] == hand[1..][i - 1 := x];
      CountsUpdate(hand[1..], i - 1, x);
    } else {
      assert hand[i := x][1..] == hand[1..];
    }
  }

  /** Holding the hand size and colours fixed, each special card lowers the cost by 5 and
      raises the evaluation by 5, and each Wild/+4 card raises the cost by 3 and the
      evaluation by 8. */
  lemma ReplacingOneCard(hand: seq<Card>, i: nat, x: Card)
    requires i < |hand| && x.color == hand[i].color
    ensures HandCost(hand[i := x]) == HandCost(hand)
              - 5 * (Indicator(IsSpecial(x)) - Indicator(IsSpecial(hand[i])))
              + 3 * (Indicator(IsWild(x) || IsPlusFour(x)) - Indicator(IsWild(hand[i]) || IsPlusFour(hand[i])))
    ensures EvaluateHand(hand[i := x]) == EvaluateHand(hand)
              + 5 * (Indicator(IsSpecial(x)) - Indicator(IsSpecial(hand[i])))
              + 8 * (Indicator(IsWild(x) || IsPlusFour(x)) - Indicator(IsWild(hand[i]) || IsPlusFour(hand[i])))
  {
    CountsUpdate(hand, i, x);
  }

  // ---------------------------------------------------------------------------
  // choose_color: Counter(...).most_common(1)[0][0], or random.choice of the base colours

  /** How many cards of the hand carry colour `c`. */
  function CountColor(hand: seq<Card>, c: Color): nat {
    if hand == [] then 0
    else CountColor(hand[..|hand| - 1], c) + (if hand[|hand| - 1].color == c then 1 else 0)
  }

  predicate Occurs(hand: seq<Card>, c: Color) {
    exists i :: 0 <= i < |hand| && hand[i].color == c
  }

  /** The keys of the Counter in insertion order: the non-wild colours of the hand in the
      order in which they first occur. */
  function Tally(hand: seq<Card>): seq<Color> {
    if hand == [] then []
    else
      var t := Tally(hand[..|hand| - 1]);
      var c := hand[|hand| - 1].color;
      if c == WildColor || c in t then t else t + [c]
  }

  /** The position in `t` that `max` over the Counter's items picks: the first one with the
      largest count (a later item replaces the best so far only when its count is larger). */
  function MostCommonIndex(t: seq<Color>, hand: seq<Card>): (m: nat)
    requires t != []
    ensures m < |t|
  {
    if |t| == 1 then 0
    else
      var m := MostCommonIndex(t[..|t| - 1], hand);
      if CountColor(hand, t[|t| - 1]) > CountColor(hand, t[m]) then |t| - 1 else m
  }

  /** `choose_color`; `pick` is the draw `random.choice` makes when the hand has no
      non-wild card. */
  function ChooseColor(hand: seq<Card>, pick: nat): Color {
    var t := Tally(hand);
    if t == [] then BaseColors[pick % 4] else t[MostCommonIndex(t, hand)]
  }

  lemma OccursSnoc(hand: seq<Card>)
    requires hand != []
    ensures forall c :: Occurs(hand, c) <==> Occurs(hand[..|hand| - 1], c) || hand[|hand| - 1].color == c
  {
    var init := hand[..|hand| - 1];
    forall c ensures Occurs(hand, c) <==> Occurs(init, c) || hand[|hand| - 1].color == c {
      if Occurs(init, c) {
        var i :| 0 <= i < |init| && init[i].color == c;
        assert hand[i].color == c;
      }
      if Occurs(hand, c) {
        var i :| 0 <= i < |hand| && hand[i].color == c;
        if i < |init| {
          assert init[i].color == c;
        }
      }
    }
  }

  /** The Counter's keys are exactly the non-wild colours present. */
  lemma {:induction false} TallyMembers(hand: seq<Card>)
    ensures forall c :: c in Tally(hand) <==> c != WildColor && Occurs(hand, c)
  {
    if hand != [] {
      TallyMembers(hand[..|hand| - 1]);
      OccursSnoc(hand);
    }
  }

  /** The Counter's keys come in order of first occurrence: a hand position carrying the
      colour of key `q` is preceded by a card of every earlier key `p`. */
  lemma {:induction false} TallyOrder(hand: seq<Card>)
    ensures forall p, q, k :: 0 <= p < q < |Tally(hand)| && 0 <= k < |hand| && hand[k].color == Tally(hand)[q]
              ==> Occurs(hand[..k], Tally(hand)[p])
  {
    if hand != [] {
      var n := |hand|;
      var init := hand[..n - 1];
      var t', t := Tally(init), Tally(hand);
      TallyOrder(init);
      TallyMembers(init);
      forall p, q, k | 0 <= p < q < |t| && 0 <= k < n && hand[k].color == t[q]
        ensures Occurs(hand[..k], t[p])
      {
        assert t[p] == t'[p];
        assert t'[p] in t';
        if k == n - 1 {
          assert hand[..k] == init;
        } else {
          assert init[k] == hand[k];
          assert init[..k] == hand[..k];
          assert Occurs(init, t[q]);
          assert q < |t'|;
          assert t[q] == t'[q];
        }
      }
    }
  }

  /** `max` keeps the first item of largest count. */
  lemma {:induction false} MostCommonIndexIsFirstMax(t: seq<Color>, hand: seq<Card>)
    requires t != []
    ensures forall p :: 0 <= p < |t| ==> CountColor(hand, t[p]) <= CountColor(hand, t[MostCommonIndex(t, hand)])
    ensures forall p :: 0 <= p < MostCommonIndex(t, hand) ==> CountColor(hand, t[p]) < CountColor(hand, t[MostCommonIndex(t, hand)])
  {
    if |t| > 1 {
      var init := t[..|t| - 1];
      MostCommonIndexIsFirstMax(init, hand);
      assert forall p :: 0 <= p < |init| ==> init[p] == t[p];
    }
  }

  /** `choose_color` answers a base colour. When a non-wild card is present it is a colour
      of the hand with the largest count, and of all such colours the one met first in
      hand order; otherwise it is the randomly picked base colour. */
  lemma ChooseColorSpec(hand: seq<Card>, pick: nat)
    ensures ChooseColor(hand, pick) != WildColor
    ensures (forall k :: 0 <= k < |hand| ==> hand[k].color == WildColor) ==>
              ChooseColor(hand, pick) == BaseColors[pick % 4]
    ensures (exists k :: 0 <= k < |hand| && hand[k].color != WildColor) ==>
              && Occurs(hand, ChooseColor(hand, pick))
              && (forall k :: 0 <= k < |hand| && hand[k].color != WildColor ==>
                    CountColor(hand, hand[k].color) <= CountColor(hand, ChooseColor(hand, pick)))
              && (forall k ::
                    (0 <= k < |hand| && hand[k].color != WildColor &&
                     CountColor(hand, hand[k].color) == CountColor(hand, ChooseColor(hand, pick))) ==>
                    Occurs(hand[..k + 1], ChooseColor(hand, pick)))
  {
    var t := Tally(hand);
    TallyMembers(hand);
    if t != [] {
      var m := MostCommonIndex(t, hand);
      var r := t[m];
      assert ChooseColor(hand, pick) == r;
      assert r in t;
      assert Occurs(hand, r);
      MostCommonIndexIsFirstMax(t, hand);
      TallyOrder(hand);
      forall k | 0 <= k < |hand| && hand[k].color != WildColor
        ensures CountColor(hand, hand[k].color) <= CountColor(hand, r)
        ensures CountColor(hand, hand[k].color) == CountColor(hand, r) ==> Occurs(hand[..k + 1], r)
      {
        var c := hand[k].color;
        assert Occurs(hand, c);
        var q :| 0 <= q < |t| && t[q] == c;
        if CountColor(hand, c) == CountColor(hand, r) {
          if q == m {
            assert hand[..k + 1][k].color == r;
          } else if m < q {
            assert Occurs(hand[..k], r);
            var j :| 0 <= j < k && hand[..k][j].color == r;
            assert hand[..k + 1][j].color == r;
          }
        }
      }
    } else {
      forall k | 0 <= k < |hand|
        ensures hand[k].color == WildColor
      {
        assert Occurs(hand, hand[k].color);
      }
    }
  }

  /** The random draw `choose_color` makes when it is called on a given hand. */
  type ColorDraw = seq<Card> -> nat

  /** `choose_color` as the search modules call it: a colour for each hand. */
  type Chooser = seq<Card> -> Color

  /** `choose_color` itself, its random fallback taken from `draw`. */
  function ColorChoice(draw: ColorDraw): Chooser {
    h => ChooseColor(h, draw(h))
  }

  /** The active colour after `played` is played, leaving `hand`: the colour `choose`
      picks for the hand after a Wild/+4 card, else the card's own colour unless it is
      "Wild", else the current colour unchanged. */
  function ResultingColor(played: Card, current: Color, hand: seq<Card>, choose: Chooser): Color {
    if IsWild(played) || IsPlusFour(played) then choose(hand)
    else if played.color != WildColor then played.color
    else current
  }
}
