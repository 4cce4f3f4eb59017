/** `generate_deck` of card.py: the 108-card deck, built in a fixed order and
    then shuffled in place. */
module Deck {
  import opened Cards

  /** The VALUES list: "0".."9", "Skip", "Reverse", "+2". */
  const Values: seq<Value> := [Number(0), Number(1), Number(2), Number(3), Number(4),
                               Number(5), Number(6), Number(7), Number(8), Number(9),
                               Skip, Reverse, PlusTwo]

  /** `Values` spells out the VALUES list: every value but the two wild ones. */
  lemma ValueNames()
    ensures seq(|Values|, i requires 0 <= i < |Values| => ValueName(Values[i])) ==
            ["0", "1", "2", "3", "4", "5", "6", "7", "8", "9", "Skip", "Reverse", "+2"]
    ensures forall v :: v in Values <==> v != Wild && v != PlusFour
  {
  }

  /** Two cards of colour `c` for each value of `vs`, in that order. */
  function Pairs(c: Color, vs: seq<Value>): seq<Card> {
    if vs == [] then []
    else Pairs(c, vs[..|vs| - 1]) + [Card(c, vs[|vs| - 1]), Card(c, vs[|vs| - 1])]
  }

  /** The cards the inner loop adds for one colour: one "0", then two of every other value. */
  function ColorBlock(c: Color): seq<Card> {
    [Card(c, Number(0))] + Pairs(c, Values[1..])
  }

  function ColorBlocks(cs: seq<Color>): seq<Card> {
    if cs == [] then [] else ColorBlocks(cs[..|cs| - 1]) + ColorBlock(cs[|cs| - 1])
  }

  /** `k` rounds of the last loop: a (Wild, Wild) and a (Wild, +4) card each. */
  function WildBlock(k: nat): seq<Card> {
    if k == 0 then [] else WildBlock(k - 1) + [Card(WildColor, Wild), Card(WildColor, PlusFour)]
  }

  /** The list `generate_deck` builds before it shuffles. */
  function OrderedDeck(): seq<Card> {
    ColorBlocks(BaseColors) + WildBlock(4)
  }

  /** How many copies of `card` a full deck holds. */
  function DeckCount(card: Card): nat {
    if card.color != WildColor then
      if card.value == Number(0) then 1
      else if card.value == Wild || card.value == PlusFour then 0
      else 2
    else if card.value == Wild || card.value == PlusFour then 4
    else 0
  }

  lemma {:induction false} PairsLength(c: Color, vs: seq<Value>)
    ensures |Pairs(c, vs)| == 2 * |vs|
  {
    if vs != [] {
      PairsLength(c, vs[..|vs| - 1]);
    }
  }

  lemma {:induction false} PairsCount(c: Color, vs: seq<Value>, card: Card)
    requires forall i, j :: 0 <= i < j < |vs| ==> vs[i] != vs[j]
    ensures multiset(Pairs(c, vs))[card] == if card.color == c && card.value in vs then 2 else 0
  {
    if vs != [] {
      var init := vs[..|vs| - 1];
      DropLast(vs, init, card.value);
      PairsCount(c, init, card);
      PairsStep(c, vs, card);
    }
  }

  /** Dropping the last value keeps the values distinct and removes only that value. */
  lemma DropLast(vs: seq<Value>, init: seq<Value>, v: Value)
    requires vs != [] && init == vs[..|vs| - 1]
    requires forall i, j :: 0 <= i < j < |vs| ==> vs[i] != vs[j]
    ensures forall i, j :: 0 <= i < j < |init| ==> init[i] != init[j]
    ensures vs[|vs| - 1] !in init
    ensures v in vs <==> v in init || v == vs[|vs| - 1]
  {
    assert vs == init + [vs[|vs| - 1]];
  }

  /** The last pair adds two copies of its card and nothing else. */
  lemma PairsStep(c: Color, vs: seq<Value>, card: Card)
    requires vs != []
    ensures multiset(Pairs(c, vs))[card] ==
            multiset(Pairs(c, vs[..|vs| - 1]))[card] + if card.color == c && card.value == vs[|vs| - 1] then 2 else 0
  {
  }

  lemma ValuesTailMembers(v: Value)
    ensures v in Values[1..] <==> v != Number(0) && v != Wild && v != PlusFour
  {
    if v.Number? && v.digit != 0 {
      assert Values[1..][v.digit - 1] == v;
    }
  }

  lemma ColorBlockCount(c: Color, card: Card)
    ensures multiset(ColorBlock(c))[card] ==
            if card.color != c then 0
            else if card.value == Number(0) then 1
            else if card.value == Wild || card.value == PlusFour then 0
            else 2
  {
    PairsCount(c, Values[1..], card);
    ValuesTailMembers(card.value);
  }

  lemma ColorBlockLength(c: Color)
    ensures |ColorBlock(c)| == 25
  {
    PairsLength(c, Values[1..]);
  }

  lemma {:induction false} WildBlockFacts(k: nat, card: Card)
    ensures |WildBlock(k)| == 2 * k
    ensures multiset(WildBlock(k))[card] ==
            if card == Card(WildColor, Wild) || card == Card(WildColor, PlusFour) then k else 0
  {
    if k > 0 {
      WildBlockFacts(k - 1, card);
    }
  }

  lemma BaseBlocks()
    ensures ColorBlocks(BaseColors) ==
            ColorBlock(Red) + ColorBlock(Green) + ColorBlock(Blue) + ColorBlock(Yellow)
  {
    assert BaseColors[..3] == [Red, Green, Blue];
    assert BaseColors[..3][..2] == [Red, Green];
    assert BaseColors[..3][..2][..1] == [Red];
    assert [Red][..0] == [];
    assert ColorBlocks([Red]) == ColorBlock(Red);
  }

  lemma ColorBlocksSnoc(cs: seq<Color>, c: Color)
    ensures ColorBlocks(cs + [c]) == ColorBlocks(cs) + ColorBlock(c)
  {
    assert (cs + [c])[..|cs|] == cs;
  }

  lemma PairsSnoc(c: Color, vs: seq<Value>, v: Value)
    ensures Pairs(c, vs + [v]) == Pairs(c, vs) + [Card(c, v), Card(c, v)]
  {
    assert (vs + [v])[..|vs|] == vs;
  }

  /** One round of the inner loop appends the two cards of the next value. */
  lemma PairsAppend(prefix: seq<Card>, c: Color, j: nat, before: seq<Card>, after: seq<Card>)
    requires 1 <= j < |Values|
    requires before == prefix + Pairs(c, Values[1..j])
    requires after == before + [Card(c, Values[j])] + [Card(c, Values[j])]
    ensures after == prefix + Pairs(c, Values[1..j + 1])
  {
    assert Values[1..j + 1] == Values[1..j] + [Values[j]];
    PairsSnoc(c, Values[1..j], Values[j]);
    assert after == prefix + (Pairs(c, Values[1..j]) + [Card(c, Values[j]), Card(c, Values[j])]);
  }

  /** After the last round, the inner loop has appended the whole colour block. */
  lemma ColorBlockDone(built: seq<Card>, c: Color, r: seq<Card>)
    requires r == built + [Card(c, Number(0))] + Pairs(c, Values[1..|Values|])
    ensures r == built + ColorBlock(c)
  {
    assert Values[1..|Values|] == Values[1..];
  }

  /** The constructed list has 108 cards. */
  lemma OrderedDeckLength()
    ensures |OrderedDeck()| == 108
  {
    BaseBlocks();
    ColorBlockLength(Red);
    ColorBlockLength(Green);
    ColorBlockLength(Blue);
    ColorBlockLength(Yellow);
    WildBlockFacts(4, Card(WildColor, Wild));
  }

  /** Per base colour one "0" and two of each other coloured value; four (Wild, Wild)
      and four (Wild, +4); nothing else. */
  lemma OrderedDeckCount(card: Card)
    ensures multiset(OrderedDeck())[card] == DeckCount(card)
  {
    BaseBlocks();
    ColorBlockCount(Red, card);
    ColorBlockCount(Green, card);
    ColorBlockCount(Blue, card);
    ColorBlockCount(Yellow, card);
    WildBlockFacts(4, card);
  }

  /** In any arrangement of the deck, a card has colour "Wild" exactly when its value
      is Wild or +4. */
  lemma DeckColorsAndValues(deck: seq<Card>, i: int)
    requires multiset(deck) == multiset(OrderedDeck())
    requires 0 <= i < |deck|
    ensures deck[i].color == WildColor <==> (deck[i].value == Wild || deck[i].value == PlusFour)
  {
    assert deck[i] in multiset(deck);
    OrderedDeckCount(deck[i]);
  }

  /** `random.shuffle`: Fisher-Yates from the last position down, swapping position `i`
      with `draw(i) % (i + 1)`; `draw` stands for the generator's successive outputs. */
  method Shuffle(cards: seq<Card>, draw: nat -> nat) returns (shuffled: seq<Card>)
    ensures |shuffled| == |cards|
    ensures multiset(shuffled) == multiset(cards)
  {
    shuffled := cards;
    var i := |cards| - 1;
    while i > 0
      invariant -1 <= i < |cards|
      invariant |shuffled| == |cards|
      invariant multiset(shuffled) == multiset(cards)
    {
      var j := draw(i) % (i + 1);
      shuffled := shuffled[i := shuffled[j]][j := shuffled[i]];
      i := i - 1;
    }
  }

  /** The body of `for color in COLORS`: one "0" card, then two cards of every other value. */
  method AppendColorBlock(built: seq<Card>, color: Color) returns (r: seq<Card>)
    ensures r == built + ColorBlock(color)
  {
    r := built + [Card(color, Number(0))];
    for j := 1 to |Values|
      invariant r == built + [Card(color, Number(0))] + Pairs(color, Values[1..j])
    {
      ghost var before := r;
      r := r + [Card(color, Values[j])];
      r := r + [Card(color, Values[j])];
      PairsAppend(built + [Card(color, Number(0))], color, j, before, r);
    }
    ColorBlockDone(built, color, r);
  }

  /** `generate_deck`: appends the coloured cards colour by colour, then the four pairs of
      wild cards, and shuffles the result. */
  method GenerateDeck(draw: nat -> nat) returns (deck: seq<Card>)
    ensures multiset(deck) == multiset(OrderedDeck())
    ensures |deck| == 108
    ensures forall card :: multiset(deck)[card] == DeckCount(card)
  {
    var built: seq<Card> := [];
    for i := 0 to |BaseColors|
      invariant built == ColorBlocks(BaseColors[..i])
    {
      var color := BaseColors[i];
      built := AppendColorBlock(built, color);
      assert BaseColors[..i + 1] == BaseColors[..i] + [color];
      ColorBlocksSnoc(BaseColors[..i], color);
    }
    assert BaseColors[..|BaseColors|] == BaseColors;
    for k := 0 to 4
      invariant built == ColorBlocks(BaseColors) + WildBlock(k)
    {
      built := built + [Card(WildColor, Wild)];
      built := built + [Card(WildColor, PlusFour)];
    }
    assert built == OrderedDeck();
    deck := Shuffle(built, draw);
    OrderedDeckLength();
    DeckCounts(deck);
  }

  /** Every arrangement of the constructed list holds each card `DeckCount` times. */
  lemma DeckCounts(deck: seq<Card>)
    requires multiset(deck) == multiset(OrderedDeck())
    ensures forall card :: multiset(deck)[card] == DeckCount(card)
  {
    forall card
      ensures multiset(deck)[card] == DeckCount(card)
    {
      OrderedDeckCount(card);
    }
  }
}
