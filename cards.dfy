/** The card vocabulary of card.py: colours, values, the value predicates,
    `matches` and the ordering `__lt__`. */
module Cards {

  type Digit = d: nat | d < 10

  /** The five colour strings a card can carry; `WildColor` is the colour "Wild". */
  datatype Color = Red | Green | Blue | Yellow | WildColor

  /** The card values: the numbers "0".."9", "Skip", "Reverse", "+2", "Wild", "+4". */
  datatype Value = Number(digit: Digit) | Skip | Reverse | PlusTwo | Wild | PlusFour

  datatype Card = Card(color: Color, value: Value)

  /** The four non-wild colours, in the order of the COLORS list. */
  const BaseColors: seq<Color> := [Red, Green, Blue, Yellow]

  predicate IsSkip(c: Card) { c.value == Skip }

  predicate IsReverse(c: Card) { c.value == Reverse }

  predicate IsPlusTwo(c: Card) { c.value == PlusTwo }

  predicate IsPlusFour(c: Card) { c.value == PlusFour }

  predicate IsWild(c: Card) { c.value == Wild }

  /** A card is special exactly when its value is not a number; its colour plays no part. */
  function IsSpecial(c: Card): (special: bool)
    ensures special <==> c.value in {Skip, Reverse, PlusTwo, Wild, PlusFour}
  {
    IsSkip(c) || IsReverse(c) || IsPlusTwo(c) || IsWild(c) || IsPlusFour(c)
  }

  /** `matches`: a Wild or +4 card matches anything; any other card matches a card
      of the same colour or the same value. */
  function Matches(c: Card, other: Card): (m: bool)
    ensures IsWild(c) || IsPlusFour(c) ==> m
    ensures !(IsWild(c) || IsPlusFour(c)) ==> (m <==> c.color == other.color || c.value == other.value)
  {
    if IsWild(c) || IsPlusFour(c) then true
    else c.color == other.color || c.value == other.value
  }

  // ---------------------------------------------------------------------------
  // The ordering `__lt__`: lexicographic on the (colour, value) strings, with
  // Python's string comparison.

  function ColorName(c: Color): string {
    match c
    case Red => "Red"
    case Green => "Green"
    case Blue => "Blue"
    case Yellow => "Yellow"
    case WildColor => "Wild"
  }

  function ValueName(v: Value): string {
    match v
    case Number(d) => [('0' as int + d) as char]
    case Skip => "Skip"
    case Reverse => "Reverse"
    case PlusTwo => "+2"
    case Wild => "Wild"
    case PlusFour => "+4"
  }

  /** `BaseColors` spells out the COLORS list, and the only other colour is "Wild". */
  lemma BaseColorNames()
    ensures seq(|BaseColors|, i requires 0 <= i < |BaseColors| => ColorName(BaseColors[i])) ==
            ["Red", "Green", "Blue", "Yellow"]
    ensures forall c :: c in BaseColors <==> c != WildColor
  {
  }

  /** Python's `<` on strings: code-point order, a proper prefix being smaller. */
  function StrLess(a: string, b: string): bool
    decreases |a|
  {
    if |a| == 0 then |b| > 0
    else if |b| == 0 then false
    else if a[0] != b[0] then a[0] < b[0]
    else StrLess(a[1..], b[1..])
  }

  /** `Card.__lt__`. */
  function CardLess(x: Card, y: Card): bool {
    if x.color != y.color then StrLess(ColorName(x.color), ColorName(y.color))
    else StrLess(ValueName(x.value), ValueName(y.value))
  }

  lemma {:induction false} StrLessIrreflexive(a: string)
    ensures !StrLess(a, a)
    decreases |a|
  {
    if |a| > 0 {
      StrLessIrreflexive(a[1..]);
    }
  }

  lemma {:induction false} StrLessTransitive(a: string, b: string, c: string)
    requires StrLess(a, b) && StrLess(b, c)
    ensures StrLess(a, c)
    decreases |a|
  {
    if |a| > 0 && a[0] == b[0] && b[0] == c[0] {
      StrLessTransitive(a[1..], b[1..], c[1..]);
    }
  }

  lemma {:induction false} StrLessTotal(a: string, b: string)
    requires a != b
    ensures StrLess(a, b) || StrLess(b, a)
    decreases |a|
  {
    if |a| > 0 && |b| > 0 && a[0] == b[0] {
      assert a == [a[0]] + a[1..] && b == [b[0]] + b[1..];
      StrLessTotal(a[1..], b[1..]);
    }
  }

  /** Different colours have different names. */
  lemma ColorNameInjective(c: Color, d: Color)
    ensures c != d ==> ColorName(c) != ColorName(d)
  {
  }

  /** Different values have different names. */
  lemma ValueNameInjective(v: Value, w: Value)
    ensures v != w ==> ValueName(v) != ValueName(w)
  {
    if v.Number? && w.Number? && v != w {
      assert ValueName(v)[0] as int != ValueName(w)[0] as int;
    }
  }

  /** `__lt__` never holds between a card and itself. */
  lemma CardLessIrreflexive(x: Card)
    ensures !CardLess(x, x)
  {
    StrLessIrreflexive(ValueName(x.value));
  }

  /** `__lt__` is transitive. */
  lemma CardLessTransitive(x: Card, y: Card, z: Card)
    requires CardLess(x, y) && CardLess(y, z)
    ensures CardLess(x, z)
  {
    var cx, cy, cz := ColorName(x.color), ColorName(y.color), ColorName(z.color);
    if x.color == y.color && y.color == z.color {
      StrLessTransitive(ValueName(x.value), ValueName(y.value), ValueName(z.value));
    } else if x.color != y.color && y.color != z.color {
      StrLessTransitive(cx, cy, cz);
      if x.color == z.color {
        StrLessIrreflexive(cx);
      }
    }
  }

  /** Two different cards are always ordered one way or the other. */
  lemma CardLessTotal(x: Card, y: Card)
    requires x != y
    ensures CardLess(x, y) || CardLess(y, x)
  {
    if x.color != y.color {
      ColorNameInjective(x.color, y.color);
      StrLessTotal(ColorName(x.color), ColorName(y.color));
    } else {
      ValueNameInjective(x.value, y.value);
      StrLessTotal(ValueName(x.value), ValueName(y.value));
    }
  }
}
