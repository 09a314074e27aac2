/**
 * The actions each stage offers (`GameStage.actions`). In an up stage the side to act may
 * always pick blind, may knock with a hand worth 26 or more, and may take the visible card
 * when the centre pile has one; the offers are collected in a `mutableSetOf`, so they keep
 * that order and none repeats. In a down stage it plays one of its cards.
 */
module Offers {
  import opened Wrappers
  import opened Lists
  import opened Cards
  import opened Decks
  import opened Stages
  import opened GameStates
  import opened Actions

  /** What an up stage offers the side `me`, in insertion order. */
  function UpOffers(me: bool, s: FullGameState): (r: seq<Action>)
    ensures 1 <= |r| <= 3 && r[0] == (if me then MePickBlind else OppPickBlind)
  {
    [if me then MePickBlind else OppPickBlind]
    + (if GetHandValue(Hand(s, me)) >= 26 then [if me then MeKnock else OppKnock] else [])
    + (if s.centreCards != [] then [if me then MePickVisible else OppPickVisible] else [])
  }

  /** What a down stage offers the side `me`: one play per card of its hand, in hand order. */
  function DownOffers(me: bool, s: FullGameState): (r: seq<Action>)
    ensures |r| == |Hand(s, me)|
    ensures forall i :: 0 <= i < |r| ==> r[i] == PlayOf(me, Hand(s, me)[i])
  {
    seq(|Hand(s, me)|, i requires 0 <= i < |Hand(s, me)| => PlayOf(me, Hand(s, me)[i]))
  }

  /** `stage.actions(state)`. */
  function StageActions(stage: GameStage, s: FullGameState): seq<Action> {
    match stage
    case MeUp => UpOffers(true, s)
    case MeDown => DownOffers(true, s)
    case OppUp => UpOffers(false, s)
    case OppDown => DownOffers(false, s)
  }

  /** The `ME_UP` / `OPP_UP` lambda: a mutable set seeded with the blind pick, to which the
      knock and the visible pick are added when allowed. */
  method UpActions(me: bool, s: FullGameState) returns (actions: seq<Action>)
    ensures actions == UpOffers(me, s)
  {
    actions := [if me then MePickBlind else OppPickBlind];
    if GetHandValue(Hand(s, me)) >= 26 {
      actions := AddIfAbsent(actions, if me then MeKnock else OppKnock);
    }
    if s.centreCards != [] {
      actions := AddIfAbsent(actions, if me then MePickVisible else OppPickVisible);
    }
  }

  /** An up stage offers the blind pick always, the knock exactly when the actor's hand is
      worth at least 26, the visible pick exactly when the centre pile is not empty, and
      nothing else: one to three actions, all different, all the actor's own. */
  lemma UpOffersExactly(me: bool, s: FullGameState, a: Action)
    ensures var r := UpOffers(me, s);
      && ((if me then MePickBlind else OppPickBlind) in r)
      && ((if me then MeKnock else OppKnock) in r <==> GetHandValue(Hand(s, me)) >= 26)
      && ((if me then MePickVisible else OppPickVisible) in r <==> s.centreCards != [])
      && (a in r ==> IsMine(a) == me && !IsPlay(a))
      && 1 <= |r| <= 3 && Distinct(r)
  {
  }

  /** The offers of every stage: the up stages as above, and in a down stage one play of each
      card of the actor's hand. */
  lemma StageActionsByStage(s: FullGameState)
    ensures s.stage == MeUp ==> StageActions(s.stage, s) == UpOffers(true, s)
    ensures s.stage == OppUp ==> StageActions(s.stage, s) == UpOffers(false, s)
    ensures IsDown(s.stage) ==>
      var me := !IsOpp(s.stage);
      var r := StageActions(s.stage, s);
      |r| == |Hand(s, me)| && forall i :: 0 <= i < |r| ==> r[i] == PlayOf(me, Hand(s, me)[i])
  {
  }

  /** Every offered action passes its stage assertion (with the corrected `OppKnock`) and
      plays only cards the actor holds. */
  lemma OfferedActionsApply(s: FullGameState, a: Action)
    requires a in StageActions(s.stage, s)
    ensures Branch(a, s).Ok? && Playable(a, s)
  {
    if IsDown(s.stage) {
      var me := !IsOpp(s.stage);
      var r := StageActions(s.stage, s);
      var i :| 0 <= i < |r| && r[i] == a;
      assert a == PlayOf(me, Hand(s, me)[i]);
    } else {
      UpOffersExactly(s.stage == MeUp, s, a);
    }
  }

  /** So the whole game stays consistent, with hands sized by the stage table, whatever the
      players choose. */
  lemma PlayKeepsDealt(s: FullGameState, a: Action, t: FullGameState)
    requires Dealt(s) && a in StageActions(s.stage, s)
    requires Branch(a, s).Ok? && t in Branch(a, s).value
    ensures Dealt(t)
  {
    OfferedActionsApply(s, a);
    BranchKeepsDealt(a, s, t);
  }

  /** As written, the opponent's knock is offered at `OppUp` whenever its hand is worth 26
      or more, and then its branch fails the `ME_UP` assertion. */
  lemma OppKnockOfferedButRejected(s: FullGameState)
    requires s.stage == OppUp && GetHandValue(s.oppCards) >= 26
    ensures OppKnock in StageActions(s.stage, s)
    ensures BranchAsWritten(OppKnock, s).Err?
    ensures Branch(OppKnock, s).Ok?
  {
    UpOffersExactly(false, s, OppKnock);
  }

  /** A concrete case: the opponent holds the ace, king and queen of hearts (worth 31). */
  lemma OppKnockCounterexample()
    ensures var s := CounterexampleState();
      && Dealt(s)
      && OppKnock in StageActions(s.stage, s)
      && BranchAsWritten(OppKnock, s).Err?
  {
    var s := CounterexampleState();
    var opp := s.oppCards;
    var f := (c: Card) => if c.suit == 0 then Cards.HandValue(c) else 0;
    assert Total(opp[2..], f) == 10;
    assert Total(opp[1..], f) == 20;
    assert SuitTotal(opp, 0) == 31;
    OppKnockOfferedButRejected(s);
    CounterexampleDealt();
  }

  function CounterexampleState(): FullGameState {
    FullGameState(None, OppUp,
                  [CardFields(1, 1), CardFields(1, 2), CardFields(1, 3)],
                  [CardFields(0, 0), CardFields(0, 12), CardFields(0, 11)],
                  [CardFields(2, 5)])
  }

  lemma CounterexampleDealt()
    ensures Dealt(CounterexampleState())
  {
    var s := CounterexampleState();
    KnownCardsValidIff(s.myCards, s.oppCards, s.centreCards);
  }
}
