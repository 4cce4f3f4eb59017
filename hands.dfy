/** Operations on hands shared by player.py and ai.py: removing the card at an
    index, and the playability test that ai.py writes out four times. */
module Hands {
  import opened Cards

  /** The hand without its card at index `i`, the rest in the same order
      (`list.pop(i)`, and `list.remove(card)` for the card object found at `i`). */
  function RemoveAt<T>(s: seq<T>, i: nat): (r: seq<T>)
    requires i < |s|
    ensures |r| == |s| - 1
  {
    s[..i] + s[i + 1..]
  }

  /** The cards before `i` stay where they are, those after it move down by one, and
      exactly one copy of `s[i]` is gone. */
  lemma RemoveAtFacts<T>(s: seq<T>, i: nat)
    requires i < |s|
    ensures forall k :: 0 <= k < i ==> RemoveAt(s, i)[k] == s[k]
    ensures forall k :: i <= k < |s| - 1 ==> RemoveAt(s, i)[k] == s[k + 1]
    ensures multiset(RemoveAt(s, i)) == multiset(s) - multiset{s[i]}
  {
    assert s == s[..i] + [s[i]] + s[i + 1..];
  }

  /** The playability test of ai.py: the card carries the active colour, or has the
      reference card's value, or is a Wild or +4 card. */
  predicate Playable(c: Card, activeColor: Color, refValue: Value) {
    c.color == activeColor || c.value == refValue || IsWild(c) || IsPlusFour(c)
  }

  /** The indices, from `from` on and in increasing order, of the playable cards of `hand`:
      the positions the list comprehension `[card for card in hand if ...]` keeps. */
  function PlayableFrom(hand: seq<Card>, activeColor: Color, refValue: Value, from: nat): (idx: seq<nat>)
    requires from <= |hand|
    ensures forall j :: 0 <= j < |idx| ==> from <= idx[j] < |hand| && Playable(hand[idx[j]], activeColor, refValue)
    ensures forall j, k :: 0 <= j < k < |idx| ==> idx[j] < idx[k]
    decreases |hand| - from
  {
    if from == |hand| then []
    else
      var rest := PlayableFrom(hand, activeColor, refValue, from + 1);
      if Playable(hand[from], activeColor, refValue) then [from] + rest else rest
  }

  /** Every playable card from `from` on is kept. */
  lemma {:induction false} PlayableFromComplete(hand: seq<Card>, activeColor: Color, refValue: Value, from: nat, i: nat)
    requires from <= i < |hand| && Playable(hand[i], activeColor, refValue)
    ensures i in PlayableFrom(hand, activeColor, refValue, from)
    decreases |hand| - from
  {
    if from < i {
      PlayableFromComplete(hand, activeColor, refValue, from + 1, i);
    }
  }

  function PlayableIndices(hand: seq<Card>, activeColor: Color, refValue: Value): seq<nat> {
    PlayableFrom(hand, activeColor, refValue, 0)
  }

  /** There is no playable card exactly when the comprehension is empty. */
  lemma NoPlayableIff(hand: seq<Card>, activeColor: Color, refValue: Value)
    ensures PlayableIndices(hand, activeColor, refValue) == [] <==>
            forall i :: 0 <= i < |hand| ==> !Playable(hand[i], activeColor, refValue)
  {
    var idx := PlayableIndices(hand, activeColor, refValue);
    if idx != [] {
      assert Playable(hand[idx[0]], activeColor, refValue);
    }
    forall i | 0 <= i < |hand| && Playable(hand[i], activeColor, refValue)
      ensures idx != []
    {
      PlayableFromComplete(hand, activeColor, refValue, 0, i);
    }
  }

  /** `Card.matches(top)` is the ai.py test with the top card's colour as active colour. */
  lemma MatchesIsPlayable(c: Card, top: Card)
    ensures Matches(c, top) == Playable(c, top.color, top.value)
  {
  }
}
