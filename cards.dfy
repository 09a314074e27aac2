/**
 * Playing cards (Card.kt): a suit 0..3 ("HCDS") and a value 0..12 ("A23456789TJQK"),
 * the 0..51 index, the points a card adds to a hand, and the two-character text form.
 */
module Cards {
  import opened Wrappers

  const Suits: string := "HCDS"
  const Values: string := "A23456789TJQK"

  /** The two fields of the Kotlin data class, before its initialiser has run. */
  datatype CardFields = CardFields(suit: int, value: int)

  /**
   * A constructed card. The initialiser computes `handValue` eagerly and throws for a
   * value outside 0..12, so no card object with such a value exists. The suit is not
   * checked: an unknown suit character gives suit -1.
   */
  type Card = c: CardFields | 0 <= c.value <= 12 witness CardFields(0, 0)

  /** A suit that names one of the four suits. */
  predicate InDeck(c: Card) {
    0 <= c.suit <= 3
  }

  datatype CardError =
    | InvalidValue(value: int)      // IllegalStateException from the `handValue` initialiser
    | StringIndexOutOfBounds        // `string[1]`, `VALUES[value]` or `SUITS[suit]` out of range

  /** The primary constructor `Card(suit, value)`. */
  function New(suit: int, value: int): (r: Result<Card, CardError>)
    ensures r.Ok? <==> 0 <= value <= 12
    ensures r.Ok? ==> r.value.suit == suit && r.value.value == value
    ensures r.Err? ==> r.error == InvalidValue(value)
  {
    if 0 <= value <= 12 then Ok(CardFields(suit, value)) else Err(InvalidValue(value))
  }

  /** `index`: suit-major position in the 52-card deck. */
  function Index(c: Card): (i: int)
    ensures InDeck(c) ==> 0 <= i <= 51
    ensures i % 13 == c.value
  {
    c.suit * 13 + c.value
  }

  /** The secondary constructor `Card(index)`: `floorDiv` and `mod` by 13. For a positive
      divisor Kotlin's floored operators agree with Dafny's Euclidean ones, so this never throws. */
  function FromIndex(i: int): (c: Card)
    ensures Index(c) == i
    ensures 0 <= i <= 51 ==> InDeck(c)
  {
    CardFields(i / 13, i % 13)
  }

  lemma FromIndexOfIndex(c: Card)
    ensures FromIndex(Index(c)) == c
  {
    var i := Index(c);
    assert i == c.suit * 13 + c.value;
    assert i / 13 == c.suit by {
      assert 0 <= c.value < 13;
    }
  }

  /** `handValue`: an ace is worth 11, the number cards their face value, the
      ten and the court cards 10. */
  function HandValue(c: Card): (v: int)
    ensures 2 <= v <= 11
    ensures v == 11 <==> c.value == 0
    ensures 1 <= c.value <= 9 ==> v == c.value + 1
    ensures 10 <= c.value ==> v == 10
  {
    if c.value == 0 then 11
    else if c.value <= 9 then c.value + 1
    else 10
  }

  /** `String.indexOf(Char)`: the first position of `ch`, or -1. */
  function IndexOf(s: string, ch: char): (r: int)
    ensures -1 <= r < |s|
    ensures r == -1 <==> ch !in s
    ensures 0 <= r ==> s[r] == ch && ch !in s[..r]
  {
    if s == [] then -1
    else if s[0] == ch then 0
    else
      var k := IndexOf(s[1..], ch);
      if k == -1 then -1 else k + 1
  }

  /** The string constructor: `Card(SUITS.indexOf(s[1]), VALUES.indexOf(s[0]))`.
      `s[1]` is read first, so a string shorter than two characters fails on the index. */
  function Parse(s: string): (r: Result<Card, CardError>)
    ensures |s| < 2 ==> r == Err(StringIndexOutOfBounds)
    ensures |s| >= 2 ==> (r.Ok? <==> s[0] in Values)
    ensures |s| >= 2 && s[0] !in Values ==> r == Err(InvalidValue(-1))
    ensures r.Ok? ==> Values[r.value.value] == s[0]
    ensures r.Ok? ==> (InDeck(r.value) <==> s[1] in Suits)
    ensures r.Ok? && s[1] !in Suits ==> r.value.suit == -1
  {
    if |s| < 2 then Err(StringIndexOutOfBounds)
    else New(IndexOf(Suits, s[1]), IndexOf(Values, s[0]))
  }

  /** `toString()`: value character then suit character; a suit outside 0..3 makes
      `SUITS[suit]` throw. */
  function Show(c: Card): (r: Result<string, CardError>)
    ensures r.Ok? <==> InDeck(c)
    ensures r.Ok? ==> |r.value| == 2 && r.value[0] in Values && r.value[1] in Suits
  {
    if InDeck(c) then Ok([Values[c.value], Suits[c.suit]]) else Err(StringIndexOutOfBounds)
  }

  lemma ValuesDistinct(i: int, j: int)
    requires 0 <= i < j < |Values|
    ensures Values[i] != Values[j]
  {
  }

  lemma SuitsDistinct(i: int, j: int)
    requires 0 <= i < j < |Suits|
    ensures Suits[i] != Suits[j]
  {
  }

  /** On a string without repeated characters `indexOf` inverts indexing. */
  lemma {:induction false} IndexOfAt(s: string, k: int)
    requires 0 <= k < |s|
    requires forall i, j :: 0 <= i < j < |s| ==> s[i] != s[j]
    ensures IndexOf(s, s[k]) == k
  {
    assert s[k] in s;
    var r := IndexOf(s, s[k]);
    assert s[r] == s[k];
  }

  /** Printing a card of one of the four suits and parsing the text gives the card back. */
  lemma ShowThenParse(c: Card)
    requires InDeck(c)
    ensures Show(c).Ok? && Parse(Show(c).value) == Ok(c)
  {
    forall i, j | 0 <= i < j < |Values| ensures Values[i] != Values[j] { ValuesDistinct(i, j); }
    forall i, j | 0 <= i < j < |Suits| ensures Suits[i] != Suits[j] { SuitsDistinct(i, j); }
    IndexOfAt(Values, c.value);
    IndexOfAt(Suits, c.suit);
  }

  /** Parsing a well-formed two-character string and printing the card gives the string back. */
  lemma ParseThenShow(s: string)
    requires |s| == 2 && s[0] in Values && s[1] in Suits
    ensures Parse(s).Ok? && Show(Parse(s).value) == Ok(s)
  {
    var r := Parse(s);
    assert Values[r.value.value] == s[0];
    assert Suits[IndexOf(Suits, s[1])] == s[1];
    assert s == [s[0], s[1]];
  }
}
