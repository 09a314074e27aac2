/**
 * The fully observed game state (FullGameState.kt): both hands, the centre pile, the knock
 * flag and the stage; the cards nobody holds (the pickup deck); and the rule that decides
 * a finished round.
 */
module GameStates {
  import opened Wrappers
  import opened Lists
  import opened Cards
  import opened Decks
  import opened Stages

  /** `meKnocked` is null until someone knocks, then whether it was me. The hands are Kotlin
      (LinkedHash)Sets, the centre pile a List. */
  datatype FullGameState = FullGameState(
    meKnocked: Option<bool>,
    stage: GameStage,
    myCards: seq<Card>,
    oppCards: seq<Card>,
    centreCards: seq<Card>)

  /** Cards are ordered by index. */
  predicate IncreasingIndex(s: seq<Card>) {
    forall i, j :: 0 <= i < j < |s| ==> Index(s[i]) < Index(s[j])
  }

  lemma {:induction false} WithoutKeepsOrder(s: seq<Card>, other: seq<Card>)
    requires IncreasingIndex(s)
    ensures IncreasingIndex(Without(s, other))
  {
    if s != [] {
      WithoutKeepsOrder(s[1..], other);
      var rest := Without(s[1..], other);
      forall y | y in rest ensures Index(s[0]) < Index(y) {
        var j :| 0 <= j < |s[1..]| && s[1..][j] == y;
        assert s[j + 1] == y;
      }
    }
  }

  lemma AllCardsIncreasing()
    ensures IncreasingIndex(AllCards())
  {
  }

  /** A card is determined by its index. */
  lemma IndexDetermines(i: int)
    ensures forall c: Card :: Index(c) == i ==> c == FromIndex(i)
  {
    forall c: Card | Index(c) == i ensures c == FromIndex(i) {
      FromIndexOfIndex(c);
    }
  }

  /** `allCards() - my - opp - centre.toSet()` as a pass over the deck in index order: the
      cards from index `i` on that nobody has in sight. */
  function UnseenFrom(i: int, my: seq<Card>, opp: seq<Card>, centre: seq<Card>): (r: seq<Card>)
    requires 0 <= i <= 52
    ensures forall c: Card :: c in r <==> InDeck(c) && i <= Index(c) && c !in my && c !in opp && c !in centre
    ensures forall k :: 0 <= k < |r| ==> i <= Index(r[k])
    ensures IncreasingIndex(r)
    decreases 52 - i
  {
    if i == 52 then []
    else
      var c := FromIndex(i);
      IndexDetermines(i);
      (if c in my || c in opp || c in centre then [] else [c]) + UnseenFrom(i + 1, my, opp, centre)
  }

  /** The cards in nobody's sight, in index order, none twice. */
  function Unseen(my: seq<Card>, opp: seq<Card>, centre: seq<Card>): (r: seq<Card>)
    ensures forall c: Card :: c in r <==> InDeck(c) && c !in my && c !in opp && c !in centre
    ensures Distinct(r) && IncreasingIndex(r)
  {
    UnseenFrom(0, my, opp, centre)
  }

  /** The pass over the deck is the chain of set differences the source writes. */
  lemma UnseenIsDeckMinusKnown(my: seq<Card>, opp: seq<Card>, centre: seq<Card>)
    ensures Unseen(my, opp, centre) == Without(Without(Without(AllCards(), my), opp), centre)
  {
    AllCardsIncreasing();
    AllCardsDistinctAndComplete();
    DeckMinusKnown(AllCards(), my, opp, centre);
  }

  lemma DeckMinusKnown(deck: seq<Card>, my: seq<Card>, opp: seq<Card>, centre: seq<Card>)
    requires IncreasingIndex(deck) && forall c :: c in deck <==> InDeck(c)
    ensures Unseen(my, opp, centre) == Without(Without(Without(deck, my), opp), centre)
  {
    var a := Without(deck, my);
    WithoutKeepsOrder(deck, my);
    var b := Without(a, opp);
    WithoutKeepsOrder(a, opp);
    WithoutKeepsOrder(b, centre);
    SameMembersInOrder(Unseen(my, opp, centre), Without(b, centre));
  }

  /** Two index-ordered sequences with the same members are equal. */
  lemma {:induction false} SameMembersInOrder(a: seq<Card>, b: seq<Card>)
    requires IncreasingIndex(a) && IncreasingIndex(b)
    requires forall c :: c in a <==> c in b
    ensures a == b
  {
    if a != [] {
      assert a[0] in b;
    }
    if b != [] {
      assert b[0] in a;
    }
    if a != [] && b != [] {
      SameFirst(a, b);
      SameRest(a, b);
      SameMembersInOrder(a[1..], b[1..]);
      assert a == [a[0]] + a[1..] && b == [b[0]] + b[1..];
    }
  }

  /** Two increasing listings of the same cards start with the same card. */
  lemma SameFirst(a: seq<Card>, b: seq<Card>)
    requires IncreasingIndex(a) && IncreasingIndex(b) && a != [] && b != []
    requires forall c :: c in a <==> c in b
    ensures a[0] == b[0]
  {
    assert a[0] in b && b[0] in a;
    var i :| 0 <= i < |a| && a[i] == b[0];
    var j :| 0 <= j < |b| && b[j] == a[0];
    assert Index(a[0]) <= Index(a[i]) && Index(b[0]) <= Index(b[j]);
  }

  /** Two increasing listings of the same cards that start alike list the same cards after that. */
  lemma SameRest(a: seq<Card>, b: seq<Card>)
    requires IncreasingIndex(a) && IncreasingIndex(b) && a != [] && b != [] && a[0] == b[0]
    requires forall c :: c in a <==> c in b
    ensures forall c :: c in a[1..] <==> c in b[1..]
  {
    forall c ensures c in a[1..] <==> c in b[1..] {
      if c in a[1..] {
        var k :| 1 <= k < |a| && a[k] == c;
        assert c != a[0];
        assert c in b;
      }
      if c in b[1..] {
        var k :| 1 <= k < |b| && b[k] == c;
        assert c != b[0];
        assert c in a;
      }
    }
  }

  /** `getPickupDeck`. */
  function PickupDeck(s: FullGameState): seq<Card> {
    Unseen(s.myCards, s.oppCards, s.centreCards)
  }

  /** The cards in sight are real cards, none of them twice. */
  predicate KnownCardsValid(my: seq<Card>, opp: seq<Card>, centre: seq<Card>) {
    && Distinct(my + opp + centre)
    && forall c :: c in my + opp + centre ==> InDeck(c)
  }

  /** No card appears twice across both hands and the centre pile. */
  predicate Consistent(s: FullGameState) {
    KnownCardsValid(s.myCards, s.oppCards, s.centreCards)
  }

  /** The known cards are valid exactly when each pile is free of repeats, the three piles
      share no card, and every card is one of the 52. */
  lemma KnownCardsValidIff(my: seq<Card>, opp: seq<Card>, centre: seq<Card>)
    ensures KnownCardsValid(my, opp, centre) <==>
      && Distinct(my) && Distinct(opp) && Distinct(centre)
      && Disjoint(my, opp) && Disjoint(my, centre) && Disjoint(opp, centre)
      && (forall c :: c in my ==> InDeck(c))
      && (forall c :: c in opp ==> InDeck(c))
      && (forall c :: c in centre ==> InDeck(c))
  {
    DistinctConcat(my, opp);
    DistinctConcat(my + opp, centre);
  }

  /** The unseen cards are the deck minus the cards in sight. */
  lemma UnseenElems(my: seq<Card>, opp: seq<Card>, centre: seq<Card>)
    ensures Elems(Unseen(my, opp, centre)) == DeckSet() - Elems(my + opp + centre)
  {
    var rest, others := Elems(Unseen(my, opp, centre)), DeckSet() - Elems(my + opp + centre);
    UnseenAreNotSeen(my, opp, centre);
    NotSeenAreUnseen(my, opp, centre);
    assert rest <= others && others <= rest;
  }

  lemma UnseenAreNotSeen(my: seq<Card>, opp: seq<Card>, centre: seq<Card>)
    ensures Elems(Unseen(my, opp, centre)) <= DeckSet() - Elems(my + opp + centre)
  {
    forall c | c in Elems(Unseen(my, opp, centre))
      ensures c in DeckSet() - Elems(my + opp + centre)
    {
      assert c !in my + opp + centre;
    }
  }

  lemma NotSeenAreUnseen(my: seq<Card>, opp: seq<Card>, centre: seq<Card>)
    ensures DeckSet() - Elems(my + opp + centre) <= Elems(Unseen(my, opp, centre))
  {
    forall c | c in DeckSet() - Elems(my + opp + centre)
      ensures c in Elems(Unseen(my, opp, centre))
    {
      assert c !in my && c !in opp && c !in centre;
    }
  }

  /** When the known cards are real cards without repeats, the unseen ones are all the rest. */
  lemma UnseenSize(my: seq<Card>, opp: seq<Card>, centre: seq<Card>)
    requires KnownCardsValid(my, opp, centre)
    ensures |Unseen(my, opp, centre)| == 52 - |my| - |opp| - |centre|
  {
    var known := my + opp + centre;
    var r := Unseen(my, opp, centre);
    DistinctIffAllCounted(known);
    DistinctIffAllCounted(r);
    UnseenElems(my, opp, centre);
    KnownInDeck(known);
    DifferenceSize(DeckSet(), Elems(known));
  }

  lemma KnownInDeck(known: seq<Card>)
    requires forall c :: c in known ==> InDeck(c)
    ensures Elems(known) <= DeckSet()
  {
  }

  lemma DifferenceSize<T>(a: set<T>, b: set<T>)
    requires b <= a
    ensures |a - b| == |a| - |b|
  {
    assert a == (a - b) + b;
  }

  /** The 52 cards of the four suits. */
  function DeckSet(): (d: set<Card>)
    ensures |d| == 52 && forall c: Card :: c in d <==> InDeck(c)
  {
    AllCardsDistinctAndComplete();
    DistinctIffAllCounted(AllCards());
    Elems(AllCards())
  }

  /** The state seen from the other side: hands swapped, turns swapped, knock flag negated. */
  function Mirror(s: FullGameState): FullGameState {
    FullGameState(
      match s.meKnocked case None => None case Some(b) => Some(!b),
      match s.stage case MeUp => OppUp case MeDown => OppDown case OppUp => MeUp case OppDown => MeDown,
      s.oppCards, s.myCards, s.centreCards)
  }

  /** `meWins`: 31 wins at once (mine checked first); otherwise the round ends when play comes
      back to the knocker, and the knocker must strictly beat the other hand. Null while
      the round goes on. */
  function MeWins(s: FullGameState): (r: Option<bool>)
    ensures r.Some? <==> GetHandValue(s.myCards) == 31 || GetHandValue(s.oppCards) == 31 ||
                         (s.stage == OppUp && s.meKnocked == Some(false)) ||
                         (s.stage == MeUp && s.meKnocked == Some(true))
    ensures GetHandValue(s.myCards) == 31 ==> r == Some(true)
    ensures GetHandValue(s.myCards) != 31 && GetHandValue(s.oppCards) == 31 ==> r == Some(false)
    ensures r == Some(true) ==> GetHandValue(s.myCards) == 31 || GetHandValue(s.myCards) >= GetHandValue(s.oppCards)
    ensures r == Some(false) ==> GetHandValue(s.oppCards) == 31 || GetHandValue(s.oppCards) >= GetHandValue(s.myCards)
    ensures GetHandValue(s.myCards) != 31 && GetHandValue(s.oppCards) != 31 &&
            s.stage == OppUp && s.meKnocked == Some(false) ==>
              r == Some(GetHandValue(s.myCards) >= GetHandValue(s.oppCards))
    ensures GetHandValue(s.myCards) != 31 && GetHandValue(s.oppCards) != 31 &&
            s.stage == MeUp && s.meKnocked == Some(true) ==>
              r == Some(GetHandValue(s.myCards) > GetHandValue(s.oppCards))
  {
    var my, opp := GetHandValue(s.myCards), GetHandValue(s.oppCards);
    if my == 31 then Some(true)
    else if opp == 31 then Some(false)
    else if s.stage == OppUp && s.meKnocked == Some(false) then Some(my >= opp)
    else if s.stage == MeUp && s.meKnocked == Some(true) then Some(my > opp)
    else None
  }

  /** The rule is the same from both sides: swapping the roles swaps the verdict. Only two
      hands of 31 break the symmetry, since my 31 is checked first. */
  lemma MeWinsMirror(s: FullGameState)
    requires !(GetHandValue(s.myCards) == 31 && GetHandValue(s.oppCards) == 31)
    ensures MeWins(Mirror(s)) == match MeWins(s) case None => None case Some(b) => Some(!b)
  {
  }

  /** When the round ends on a knock with equal hands below 31, the side that did not knock
      wins. */
  lemma TieGoesToNonKnocker(s: FullGameState)
    requires GetHandValue(s.myCards) == GetHandValue(s.oppCards) != 31
    requires MeWins(s).Some?
    ensures s.meKnocked.Some?
    ensures MeWins(s) == Some(!s.meKnocked.value)
  {
  }

  /** When both hands score 31 I win, and I also win in the mirrored state. */
  lemma MeWinsBothThirtyOne(s: FullGameState)
    requires GetHandValue(s.myCards) == 31 && GetHandValue(s.oppCards) == 31
    ensures MeWins(s) == Some(true) && MeWins(Mirror(s)) == Some(true)
  {
  }
}
