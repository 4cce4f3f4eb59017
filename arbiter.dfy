/** `get_best_move` of ai.py: runs both search engines and arbitrates between their
    answers. */
module Arbiter {
  import opened Wrappers
  import opened Cards
  import opened Hands
  import opened Heuristics
  import BestFirst
  import Expectimax

  /** The decision rule applied once both engines have answered. `handSize` is the
      length of the hand; `pickExpectimax` is the outcome of the weighted draw
      `random.choices(..., weights=[0.4, 0.6])`, true when it picks expectimax. */
  function Arbitrate(handSize: nat, aStar: Option<Card>, expecti: Option<Card>, pickExpectimax: bool)
    : (r: Option<Card>)
    ensures r.None? <==> aStar.None? && expecti.None?
    ensures r == aStar || r == expecti
    ensures aStar.None? ==> r == expecti
    ensures expecti.None? ==> r == aStar
    ensures aStar.Some? && expecti.Some? && handSize <= 3 ==> r == aStar
    ensures aStar.Some? && expecti.Some? && handSize > 3 ==>
              (IsSpecial(r.value) <==> IsSpecial(aStar.value) || IsSpecial(expecti.value))
    ensures aStar.Some? && expecti.Some? && handSize > 3 && IsSpecial(expecti.value) ==> r == expecti
    ensures aStar.Some? && expecti.Some? && handSize > 3 ==>
              (IsSpecial(aStar.value) && !IsSpecial(expecti.value) ==> r == aStar)
    ensures aStar.Some? && expecti.Some? && handSize > 3 ==>
              (!IsSpecial(aStar.value) && !IsSpecial(expecti.value) ==>
                 r == (if pickExpectimax then expecti else aStar))
  {
    if aStar.None? then expecti
    else if expecti.None? then aStar
    else if handSize <= 3 then aStar
    else if IsSpecial(aStar.value) || IsSpecial(expecti.value) then
      (if IsSpecial(expecti.value) then expecti else aStar)
    else if pickExpectimax then expecti
    else aStar
  }

  /** The colour the engines play against: `current_color`, or the top card's colour
      when none is given. */
  function ActiveColor(top: Card, currentColor: Option<Color>): (c: Color)
    ensures currentColor.Some? ==> c == currentColor.value
    ensures currentColor.None? ==> c == top.color
  {
    if currentColor.Some? then currentColor.value else top.color
  }

  /** `get_best_move(hand, top_card, current_color=None)`. `draw` stands for the random
      colour `choose_color` picks for a hand without coloured cards, and `pickExpectimax`
      for the weighted draw between the two answers. The answer is None exactly when no
      card is playable; otherwise it is the arbitration of the two engines' answers and
      a playable card of the hand. The ghost results `aStar` and `expecti` are those
      answers, as the contracts of `AStarSearch` and `Expectimax` describe them: in
      particular `aStar` is played by a cheapest child of the root that ends the search,
      whenever one does. */
  method GetBestMove(hand: seq<Card>, top: Card, currentColor: Option<Color>, draw: ColorDraw,
                     pickExpectimax: bool)
    returns (move: Option<Card>, ghost aStar: Option<Card>, ghost expecti: Option<Card>)
    ensures move.None? <==>
              forall i :: 0 <= i < |hand| ==> !Playable(hand[i], ActiveColor(top, currentColor), top.value)
    ensures move.Some? ==> move == Arbitrate(|hand|, aStar, expecti, pickExpectimax)
    ensures var c := ActiveColor(top, currentColor);
            var p := PlayableIndices(hand, c, top.value);
            p != [] ==>
              && expecti == Some(hand[p[Expectimax.FirstMaxIndex(Expectimax.RootValues(hand, top, c, 2, ColorChoice(draw)))]])
              && (aStar.None? <==> |p| >= 100)
              && (aStar.Some? ==>
                    exists i :: 0 <= i < |hand| && aStar.value == hand[i] && Playable(hand[i], c, top.value))
    ensures var children := BestFirst.RootExpansion(hand, ActiveColor(top, currentColor), top.value, ColorChoice(draw));
            aStar.Some? && (exists s :: s in children && BestFirst.Answers(s, top.value)) ==>
              exists s :: BestFirst.LeastAnswer(s, children, top.value) && s.path == [aStar.value]
    ensures move.Some? ==>
              exists i :: 0 <= i < |hand| && move.value == hand[i] &&
                          Playable(hand[i], ActiveColor(top, currentColor), top.value)
  {
    var color := ActiveColor(top, currentColor);
    var playable := PlayableIndices(hand, color, top.value);
    NoPlayableIff(hand, color, top.value);
    if playable == [] {
      return None, None, None;
    }
    var a := BestFirst.AStarSearch(hand, top, color, ColorChoice(draw));
    var e := Expectimax.Expectimax(hand, top, color, ColorChoice(draw));
    aStar, expecti := a, e;
    assert e.Some?;
    move := Arbitrate(|hand|, a, e, pickExpectimax);
    if move == e {
      var p := PlayableIndices(hand, color, top.value);
      var j := Expectimax.FirstMaxIndex(Expectimax.RootValues(hand, top, color, 2, ColorChoice(draw)));
      assert move.value == hand[p[j]];
    }
  }
}
