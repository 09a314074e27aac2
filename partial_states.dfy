/**
 * What I know of a game (PartialGameState.kt): my hand, the centre pile and only those
 * opponent cards I have seen. Branching fills the opponent's hand up to its size with every
 * draw, with repetition, from the cards nobody has in sight, giving the fully observed states
 * that could be the real one.
 */
module PartialStates {
  import opened Wrappers
  import opened Lists
  import opened Cards
  import opened Decks
  import opened Stages
  import GameStates

  datatype PartialGameState = PartialGameState(
    turns: int,
    meKnocked: Option<bool>,
    stage: GameStage,
    myCards: seq<Card>,
    oppCards: seq<Card>,
    centreCards: seq<Card>)

  /** `getPickupDeck`: the cards not known to be in a hand or in the centre pile. */
  function PickupDeck(p: PartialGameState): (r: seq<Card>)
    ensures forall c: Card :: c in r <==> InDeck(c) && c !in p.myCards && c !in p.oppCards && c !in p.centreCards
    ensures Distinct(r)
  {
    GameStates.Unseen(p.myCards, p.oppCards, p.centreCards)
  }

  /** `toFullGameState(oppCards)`: the same state with the opponent's hand given, as a set. */
  function ToFullGameState(p: PartialGameState, oppCards: seq<Card>): (f: GameStates.FullGameState)
    ensures f.meKnocked == p.meKnocked && f.stage == p.stage
    ensures f.myCards == p.myCards && f.centreCards == p.centreCards
    ensures Distinct(f.oppCards) && |f.oppCards| <= |oppCards|
    ensures forall c :: c in f.oppCards <==> c in oppCards
  {
    GameStates.FullGameState(p.meKnocked, p.stage, p.myCards, Dedup(oppCards), p.centreCards)
  }

  /** `branch`: one full state per completion of the opponent's hand, in `padFrom` order. */
  function Branch(p: PartialGameState): (r: seq<GameStates.FullGameState>)
    ensures |r| == |Completions(p)|
    ensures forall i :: 0 <= i < |r| ==> r[i] == ToFullGameState(p, Completions(p)[i])
  {
    var completions := Completions(p);
    seq(|completions|, i requires 0 <= i < |completions| => ToFullGameState(p, completions[i]))
  }

  /** The opponent hands `padFrom` proposes. */
  function Completions(p: PartialGameState): seq<seq<Card>> {
    PadFrom(p.oppCards, OppHandSize(p.stage), PickupDeck(p))
  }

  /** `|pickup|^(missing)` states when the opponent's known hand is short, none when it is
      full. */
  lemma BranchCount(p: PartialGameState)
    ensures var deck := PickupDeck(p);
      |Branch(p)| == if OppHandSize(p.stage) > |p.oppCards|
      then Pow(|deck|, OppHandSize(p.stage) - |p.oppCards|) else 0
  {
    var deck := PickupDeck(p);
    CompletionCount(p, deck);
  }

  lemma CompletionCount(p: PartialGameState, deck: seq<Card>)
    requires deck == PickupDeck(p)
    ensures |Branch(p)| == if OppHandSize(p.stage) > |p.oppCards|
      then Pow(|deck|, OppHandSize(p.stage) - |p.oppCards|) else 0
  {
    BranchIsPadded(p);
    PadFromCount(p.oppCards, OppHandSize(p.stage), deck);
  }

  lemma BranchIsPadded(p: PartialGameState)
    ensures |Branch(p)| == |PadFrom(p.oppCards, OppHandSize(p.stage), PickupDeck(p))|
  {
  }

  /** With valid known cards the pickup deck holds every other card of the 52. */
  lemma PickupDeckSize(p: PartialGameState)
    requires GameStates.KnownCardsValid(p.myCards, p.oppCards, p.centreCards)
    ensures |PickupDeck(p)| == 52 - |p.myCards| - |p.oppCards| - |p.centreCards|
  {
    GameStates.UnseenSize(p.myCards, p.oppCards, p.centreCards);
  }

  /** Every branch state keeps what I know: the known opponent cards are all there, any
      other opponent card comes from the pickup deck, and the opponent's hand is no larger
      than the stage allows, exactly that size when the drawn cards repeat none, and larger
      than the known part. */
  lemma BranchKeepsKnown(p: PartialGameState, i: int)
    requires 0 <= i < |Branch(p)|
    ensures var f := Branch(p)[i];
      && f.meKnocked == p.meKnocked && f.stage == p.stage
      && f.myCards == p.myCards && f.centreCards == p.centreCards
      && (forall c :: c in p.oppCards ==> c in f.oppCards)
      && (forall c :: c in f.oppCards ==> c in p.oppCards || c in PickupDeck(p))
      && |f.oppCards| <= OppHandSize(p.stage)
      && (|f.oppCards| == OppHandSize(p.stage) <==> Distinct(Completions(p)[i]))
      && (Distinct(p.oppCards) ==> |p.oppCards| < |f.oppCards|)
  {
    var r := Completions(p)[i];
    assert r in Completions(p);
    CompletionMembers(p, r);
    DedupSize(r);
  }

  lemma CompletionMembers(p: PartialGameState, r: seq<Card>)
    requires r in Completions(p)
    ensures |r| == OppHandSize(p.stage)
    ensures forall c :: c in p.oppCards ==> c in r
    ensures forall c :: c in r ==> c in p.oppCards || c in PickupDeck(p)
    ensures Distinct(p.oppCards) ==> |p.oppCards| < |Elems(r)|
  {
    var deck := PickupDeck(p);
    assert Disjoint(p.oppCards, deck);
    PadFromMembers(p.oppCards, OppHandSize(p.stage), deck, r);
  }

  /** If the known cards are valid, every branch state is a consistent full state. */
  lemma BranchConsistent(p: PartialGameState, f: GameStates.FullGameState)
    requires GameStates.KnownCardsValid(p.myCards, p.oppCards, p.centreCards)
    requires f in Branch(p)
    ensures GameStates.Consistent(f)
  {
    var i :| 0 <= i < |Branch(p)| && Branch(p)[i] == f;
    BranchKeepsKnown(p, i);
    GameStates.KnownCardsValidIff(p.myCards, p.oppCards, p.centreCards);
    GameStates.KnownCardsValidIff(f.myCards, f.oppCards, f.centreCards);
  }

  /** Every way the opponent's hand could be filled from the pickup deck is one of the
      branch states. */
  lemma BranchComplete(p: PartialGameState, extra: seq<Card>)
    requires OppHandSize(p.stage) > |p.oppCards|
    requires |extra| == OppHandSize(p.stage) - |p.oppCards|
    requires forall c :: c in extra ==> c in PickupDeck(p)
    ensures ToFullGameState(p, p.oppCards + extra) in Branch(p)
  {
    PadFromComplete(p.oppCards, OppHandSize(p.stage), PickupDeck(p), extra);
    var completions := Completions(p);
    var k :| 0 <= k < |completions| && completions[k] == p.oppCards + extra;
    assert Branch(p)[k] == ToFullGameState(p, p.oppCards + extra);
  }
}
