/** player.py: a player's hand and the list operations on it. */
module Players {
  import opened Wrappers
  import opened Cards
  import opened Hands

  /** `a` is obtained from `b` by deleting elements, the survivors keeping their order. */
  predicate IsSubsequence(a: seq<Card>, b: seq<Card>)
    decreases |b|
  {
    if a == [] then true
    else if b == [] then false
    else if a[0] == b[0] then IsSubsequence(a[1..], b[1..])
    else IsSubsequence(a, b[1..])
  }

  /** The cards of `hand` that match `top`, in hand order. */
  function MatchingCards(hand: seq<Card>, top: Card): (r: seq<Card>)
    ensures forall x :: multiset(r)[x] == if Matches(x, top) then multiset(hand)[x] else 0
    ensures IsSubsequence(r, hand)
  {
    if hand == [] then []
    else
      var rest := MatchingCards(hand[1..], top);
      assert hand == [hand[0]] + hand[1..];
      if Matches(hand[0], top) then [hand[0]] + rest else rest
  }

  /** Membership in the filter: the matching cards of the hand and nothing else. */
  lemma MatchingCardsMembers(hand: seq<Card>, top: Card)
    ensures forall x :: x in MatchingCards(hand, top) <==> x in hand && Matches(x, top)
  {
    forall x
      ensures x in MatchingCards(hand, top) <==> x in hand && Matches(x, top)
    {
      assert x in MatchingCards(hand, top) <==> x in multiset(MatchingCards(hand, top));
      assert x in hand <==> x in multiset(hand);
    }
  }

  /** The list `deck` that `draw_card` pops from, shared by reference with its owner. */
  class CardList {
    var cards: seq<Card>

    constructor (cards: seq<Card>)
      ensures this.cards == cards
    {
      this.cards := cards;
    }
  }

  class Player {
    const name: string
    var hand: seq<Card>

    constructor (name: string)
      ensures this.name == name && hand == []
    {
      this.name := name;
      hand := [];
    }

    /** `draw_card`: moves the deck's last card to the end of the hand and answers True;
        on an empty deck answers False and changes nothing. */
    method DrawCard(deck: CardList) returns (drew: bool)
      modifies this, deck
      ensures drew <==> old(deck.cards) != []
      ensures drew ==> (hand == old(hand) + [old(deck.cards)[|old(deck.cards)| - 1]] &&
                        deck.cards == old(deck.cards)[..|old(deck.cards)| - 1])
      ensures !drew ==> hand == old(hand) && deck.cards == old(deck.cards)
      ensures |hand| + |deck.cards| == old(|hand| + |deck.cards|)
      ensures multiset(hand) + multiset(deck.cards) == old(multiset(hand) + multiset(deck.cards))
    {
      if deck.cards != [] {
        var n := |deck.cards|;
        var top := deck.cards[n - 1];
        assert deck.cards == deck.cards[..n - 1] + [top];
        deck.cards := deck.cards[..n - 1];
        hand := hand + [top];
        drew := true;
      } else {
        drew := false;
      }
    }

    /** `has_playable_card`: some card of the hand matches `top`. */
    function HasPlayableCard(top: Card): (has: bool)
      reads this
      ensures has <==> GetPlayableCards(top) != []
    {
      MatchingNonEmpty(hand, top);
      exists i | 0 <= i < |hand| :: Matches(hand[i], top)
    }

    /** `get_playable_cards`: the cards that match `top`, in hand order. */
    function GetPlayableCards(top: Card): (r: seq<Card>)
      reads this
      ensures forall x :: multiset(r)[x] == if Matches(x, top) then multiset(hand)[x] else 0
      ensures forall x :: x in r <==> x in hand && Matches(x, top)
      ensures IsSubsequence(r, hand)
    {
      MatchingCardsMembers(hand, top);
      MatchingCards(hand, top)
    }

    /** `play_card`: removes and returns the card at `index`; an index out of range,
        negative ones included, gives None and leaves the hand alone. */
    method PlayCard(index: int) returns (played: Option<Card>)
      modifies this
      ensures 0 <= index < old(|hand|) ==> played == Some(old(hand)[index]) && hand == RemoveAt(old(hand), index)
      ensures !(0 <= index < old(|hand|)) ==> played == None && hand == old(hand)
    {
      if 0 <= index < |hand| {
        played := Some(hand[index]);
        hand := RemoveAt(hand, index);
      } else {
        played := None;
      }
    }
  }

  /** The filter is empty exactly when no card of the hand matches. */
  lemma MatchingNonEmpty(hand: seq<Card>, top: Card)
    ensures MatchingCards(hand, top) != [] <==> exists i | 0 <= i < |hand| :: Matches(hand[i], top)
  {
    var r := MatchingCards(hand, top);
    MatchingCardsMembers(hand, top);
    if r != [] {
      assert r[0] in r;
    }
    forall i | 0 <= i < |hand| && Matches(hand[i], top)
      ensures r != []
    {
      assert hand[i] in r;
    }
  }
}
