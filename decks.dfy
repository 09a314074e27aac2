/**
 * Deck helpers and hand scoring (Deck.kt): the 52-card deck in index order, parsing a
 * list of card strings, the hand value (30 for three of a rank, else the best suit
 * total) and `padFrom`, which completes a partial hand with cards drawn from a pool.
 */
module Decks {
  import opened Wrappers
  import opened Lists
  import opened Cards
  import opened Utils

  /** `toCards`: parses every string; the first string that does not parse makes it throw. */
  function ToCards(strings: seq<string>): (r: Result<seq<Card>, CardError>)
    ensures r.Ok? <==> forall i :: 0 <= i < |strings| ==> Parse(strings[i]).Ok?
    ensures r.Ok? ==> |r.value| == |strings| &&
                      forall i :: 0 <= i < |strings| ==> Parse(strings[i]) == Ok(r.value[i])
    ensures r.Err? ==> exists i :: 0 <= i < |strings| && Parse(strings[i]) == Err(r.error) &&
                                   forall j :: 0 <= j < i ==> Parse(strings[j]).Ok?
  {
    if strings == [] then Ok([])
    else
      match Parse(strings[0])
      case Err(e) => Err(e)
      case Ok(c) =>
        match ToCards(strings[1..])
        case Err(e) =>
          assert forall i :: 1 <= i < |strings| ==> strings[i] == strings[1..][i - 1];
          Err(e)
        case Ok(rest) =>
          assert forall i :: 1 <= i < |strings| ==> strings[i] == strings[1..][i - 1];
          Ok([c] + rest)
  }

  /** `toCardsSet`: the parsed cards as a (LinkedHash)Set. */
  function ToCardsSet(strings: seq<string>): (r: Result<seq<Card>, CardError>)
    ensures r.Ok? <==> ToCards(strings).Ok?
    ensures r.Ok? ==> Distinct(r.value) && forall c :: c in r.value <==> c in ToCards(strings).value
  {
    match ToCards(strings)
    case Err(e) => Err(e)
    case Ok(cards) => Ok(Dedup(cards))
  }

  /** `allCards()`: `Card(0)` .. `Card(51)`. */
  function AllCards(): (r: seq<Card>)
    ensures |r| == 52
    ensures forall i :: 0 <= i < 52 ==> Index(r[i]) == i && InDeck(r[i])
  {
    seq(52, i requires 0 <= i < 52 => FromIndex(i))
  }

  /** The deck holds 52 different cards, and every card of the four suits is one of them. */
  lemma AllCardsDistinctAndComplete()
    ensures Distinct(AllCards())
    ensures forall c: Card :: c in AllCards() <==> InDeck(c)
  {
    var all := AllCards();
    forall c: Card | InDeck(c) ensures c in all {
      FromIndexOfIndex(c);
      assert all[Index(c)] == c;
    }
  }

  // ---------------------------------------------------------------------------
  // Hand value
  // ---------------------------------------------------------------------------

  /** Sum of `f` over the cards of a hand (`filter`/`map`/`sum` and `filter`/`count`). */
  function Total(hand: seq<Card>, f: Card -> int): int {
    if hand == [] then 0 else f(hand[0]) + Total(hand[1..], f)
  }

  /** Number of cards of the given value. */
  function CountOfValue(hand: seq<Card>, value: int): int {
    Total(hand, (c: Card) => if c.value == value then 1 else 0)
  }

  /** Total `handValue` of the cards of one suit. */
  function SuitTotal(hand: seq<Card>, suit: int): int {
    Total(hand, (c: Card) => if c.suit == suit then Cards.HandValue(c) else 0)
  }

  /** Some value in 0..12 occurs three or more times. */
  predicate HasTriple(hand: seq<Card>) {
    exists v :: 0 <= v <= 12 && CountOfValue(hand, v) >= 3
  }

  function Max(a: int, b: int): int {
    if a >= b then a else b
  }

  /** `getHandValue`: 30 when some value occurs three times, otherwise the largest of the
      four suit totals. */
  function GetHandValue(hand: seq<Card>): (r: int)
    ensures HasTriple(hand) ==> r == 30
    ensures !HasTriple(hand) ==> (exists s :: 0 <= s <= 3 && r == SuitTotal(hand, s))
    ensures !HasTriple(hand) ==> forall s :: 0 <= s <= 3 ==> SuitTotal(hand, s) <= r
  {
    if HasTriple(hand) then 30
    else Max(Max(SuitTotal(hand, 0), SuitTotal(hand, 1)), Max(SuitTotal(hand, 2), SuitTotal(hand, 3)))
  }

  lemma TotalAppend(a: seq<Card>, b: seq<Card>, f: Card -> int)
    ensures Total(a + b, f) == Total(a, f) + Total(b, f)
  {
    if a == [] {
      assert a + b == b;
    } else {
      assert (a + b)[1..] == a[1..] + b;
      TotalAppend(a[1..], b, f);
    }
  }

  /** Totals do not depend on the order of the cards. */
  lemma {:induction false} TotalPermutation(a: seq<Card>, b: seq<Card>, f: Card -> int)
    requires multiset(a) == multiset(b)
    ensures Total(a, f) == Total(b, f)
  {
    if a == [] {
      assert b == [] by { assert |b| == |multiset(b)| == 0; }
    } else {
      var x := a[0];
      assert x in multiset(b);
      var rest := RemoveFirst(b, x);
      TotalRemoveFirst(b, x, f);
      assert a == [x] + a[1..];
      assert multiset(a[1..]) == multiset(a) - multiset{x} == multiset(rest);
      TotalPermutation(a[1..], rest, f);
    }
  }

  /** Dropping the first copy of a card drops its one term from the total. */
  lemma {:induction false} TotalRemoveFirst(b: seq<Card>, x: Card, f: Card -> int)
    requires x in b
    ensures Total(b, f) == f(x) + Total(RemoveFirst(b, x), f)
  {
    if b[0] != x {
      assert b == [b[0]] + b[1..];
      TotalRemoveFirst(b[1..], x, f);
      var r := RemoveFirst(b[1..], x);
      assert ([b[0]] + r)[1..] == r;
    }
  }

  /** The hand value does not depend on the order in which the hand is iterated. */
  lemma HandValuePermutation(a: seq<Card>, b: seq<Card>)
    requires multiset(a) == multiset(b)
    ensures GetHandValue(a) == GetHandValue(b)
  {
    forall v ensures CountOfValue(a, v) == CountOfValue(b, v) {
      TotalPermutation(a, b, (c: Card) => if c.value == v then 1 else 0);
    }
    forall s ensures SuitTotal(a, s) == SuitTotal(b, s) {
      TotalPermutation(a, b, (c: Card) => if c.suit == s then Cards.HandValue(c) else 0);
    }
    assert HasTriple(a) <==> HasTriple(b);
  }

  /** The empty hand scores 0. */
  lemma HandValueOfEmpty()
    ensures GetHandValue([]) == 0
  {
    assert !HasTriple([]);
  }

  /** Within one suit only the ace is worth 11 and a hand without repeated cards holds that
      ace at most once, so each further card adds at most 10. */
  lemma {:induction false} SuitTotalBound(hand: seq<Card>, suit: int)
    requires Distinct(hand)
    ensures SuitTotal(hand, suit) <= 10 * |hand| + (if CardFields(suit, 0) in hand then 1 else 0)
  {
    if hand != [] {
      var x := hand[0];
      assert Distinct(hand[1..]);
      SuitTotalBound(hand[1..], suit);
      assert hand == [x] + hand[1..];
      if x == CardFields(suit, 0) {
        assert x !in hand[1..];
      }
    }
  }

  /** A hand of at most three different cards scores at most 31. */
  lemma HandValueAtMost31(hand: seq<Card>)
    requires Distinct(hand) && |hand| <= 3
    ensures GetHandValue(hand) <= 31
  {
    forall s | 0 <= s <= 3 ensures SuitTotal(hand, s) <= 31 {
      SuitTotalBound(hand, s);
    }
  }

  // ---------------------------------------------------------------------------
  // padFrom
  // ---------------------------------------------------------------------------

  /** `padFrom(length, source)`: the receiver followed by each tuple of `length - count()`
      cards drawn, with repetition, from `source`, in `nestedLoop` order. */
  function PadFrom(hand: seq<Card>, length: int, source: seq<Card>): seq<seq<Card>> {
    var tuples := Tuples(Repeated(source, length - |hand|));
    seq(|tuples|, i requires 0 <= i < |tuples| => hand + tuples[i])
  }

  function Pow(b: nat, e: nat): nat {
    if e == 0 then 1 else b * Pow(b, e - 1)
  }

  lemma {:induction false} SizeOfRepeated(source: seq<Card>, k: nat)
    ensures Size(Repeated(source, k)) == Pow(|source|, k)
  {
    if k > 0 {
      var es := Repeated(source, k);
      var shorter := Repeated(source, k - 1);
      forall j | 0 <= j < |shorter| ensures es[1..][j] == shorter[j] {
        assert es[1..][j] in es;
        assert shorter[j] in shorter;
      }
      assert es[1..] == shorter;
      assert es[0] in es;
      SizeOfRepeated(source, k - 1);
    }
  }

  /** `|source|^(length - count)` completions when the hand is short, none when it is full:
      `repeatedArray` then gives no lists and `nestedLoop` yields nothing. */
  lemma PadFromCount(hand: seq<Card>, length: int, source: seq<Card>)
    ensures |PadFrom(hand, length, source)| ==
            if length > |hand| then Pow(|source|, length - |hand|) else 0
  {
    if length > |hand| {
      SizeOfRepeated(source, length - |hand|);
    }
  }

  /** Every completion is the hand followed by `length - count` cards of the pool. */
  lemma PadFromShape(hand: seq<Card>, length: int, source: seq<Card>, r: seq<Card>)
    requires r in PadFrom(hand, length, source)
    ensures length > |hand| && |r| == length && r[..|hand|] == hand
    ensures forall i :: |hand| <= i < |r| ==> r[i] in source
  {
    var es := Repeated(source, length - |hand|);
    var tuples := Tuples(es);
    var k :| 0 <= k < |tuples| && r == hand + tuples[k];
    ProductMembersOnly(es, tuples[k]);
    forall i | |hand| <= i < |r| ensures r[i] in source {
      assert r[i] == tuples[k][i - |hand|];
      assert es[i - |hand|] in es;
    }
  }

  /** Every way of drawing the missing cards from the pool is one of the completions. */
  lemma PadFromComplete(hand: seq<Card>, length: int, source: seq<Card>, extra: seq<Card>)
    requires length > |hand| && |extra| == length - |hand|
    requires forall i :: 0 <= i < |extra| ==> extra[i] in source
    ensures hand + extra in PadFrom(hand, length, source)
  {
    var es := Repeated(source, length - |hand|);
    forall i | 0 <= i < |extra| ensures extra[i] in es[i] {
      assert es[i] in es;
    }
    ProductMembersAll(es, extra);
    var tuples := Tuples(es);
    var k :| 0 <= k < |tuples| && tuples[k] == extra;
    assert PadFrom(hand, length, source)[k] == hand + extra;
  }

  /** A completion holds the hand and otherwise only pool cards; when the hand repeats none
      and the pool avoids it, the completion has more different cards than the hand. */
  lemma PadFromMembers(hand: seq<Card>, length: int, source: seq<Card>, r: seq<Card>)
    requires r in PadFrom(hand, length, source)
    ensures |r| == length
    ensures forall c :: c in hand ==> c in r
    ensures forall c :: c in r ==> c in hand || c in source
    ensures Distinct(hand) && Disjoint(hand, source) ==> |hand| < |Elems(r)|
  {
    PadFromShape(hand, length, source, r);
    HandThenPool(hand, source, r);
  }

  lemma HandThenPool(hand: seq<Card>, source: seq<Card>, r: seq<Card>)
    requires |hand| < |r| && r[..|hand|] == hand
    requires forall i :: |hand| <= i < |r| ==> r[i] in source
    ensures forall c :: c in hand ==> c in r
    ensures forall c :: c in r ==> c in hand || c in source
    ensures Distinct(hand) && Disjoint(hand, source) ==> |hand| < |Elems(r)|
  {
    assert r == hand + r[|hand|..];
    if Distinct(hand) && Disjoint(hand, source) {
      DistinctIffAllCounted(hand);
      var extra := r[|hand|];
      assert extra in source;
      var a, b := Elems(hand), Elems(r);
      assert a <= b;
      assert b == a + (b - a) && a * (b - a) == {};
      assert extra in b - a;
      assert |b - a| >= 1;
    }
  }
}
