/**
 * The action catalogue (Action.kt): every action maps a fully observed state to the list of
 * states it can lead to (one per pickup-deck card for a blind pick, one otherwise), after
 * asserting the stage it belongs to. Kotlin assertions are taken as enabled, so a failed one
 * is an error result.
 *
 * Play-card is parameterised by the card played, as the stage table uses it
 * (`ME_PLAY_CARD(it)`); the enum's own branch, which plays every card of the hand, is
 * `PlayEveryAsWritten` (the card appended to the pile) and `PlayEvery` (corrected: the card
 * on top), and the two `...IsConcatenation` lemmas relate each to the parameterised branch.
 *
 * `Branch` is the corrected catalogue; `BranchAsWritten` keeps the two departures of the
 * code, an `OPP_KNOCK` that asserts `ME_UP` and a play that appends.
 */
module Actions {
  import opened Wrappers
  import opened Lists
  import opened Cards
  import opened Stages
  import opened GameStates
  import opened Utils

  datatype Action =
    | MePlayCard(card: Card)
    | OppPlayCard(card: Card)
    | MeKnock
    | OppKnock
    | MePickBlind
    | OppPickBlind
    | MePickVisible
    | OppPickVisible

  /** A failed `assert` in a branch. */
  datatype ActionError = AssertionFailed

  /** The action is mine rather than the opponent's. */
  predicate IsMine(a: Action) {
    a.MePlayCard? || a.MeKnock? || a.MePickBlind? || a.MePickVisible?
  }

  predicate IsPlay(a: Action) {
    a.MePlayCard? || a.OppPlayCard?
  }

  predicate IsKnock(a: Action) {
    a.MeKnock? || a.OppKnock?
  }

  predicate IsPickBlind(a: Action) {
    a.MePickBlind? || a.OppPickBlind?
  }

  predicate IsPickVisible(a: Action) {
    a.MePickVisible? || a.OppPickVisible?
  }

  /** The stage each branch asserts: the actor's down stage for a play, the actor's up stage
      otherwise. For `OppKnock` this is the corrected stage (see `BranchAsWritten`). */
  function RequiredStage(a: Action): (r: GameStage)
    ensures IsOpp(r) <==> !IsMine(a)
    ensures IsDown(r) <==> IsPlay(a)
  {
    match a
    case MePlayCard(_) => MeDown
    case OppPlayCard(_) => OppDown
    case MeKnock => MeUp
    case OppKnock => OppUp
    case MePickBlind => MeUp
    case OppPickBlind => OppUp
    case MePickVisible => MeUp
    case OppPickVisible => OppUp
  }

  /** The stage every state produced by the action is in: a pick moves the actor down, a play
      or a knock hands the turn to the other side's up stage. */
  function NextStage(a: Action): (r: GameStage)
    ensures IsPickBlind(a) || IsPickVisible(a) ==> r == DownStageOf(RequiredStage(a))
    ensures IsPlay(a) || IsKnock(a) ==> !IsDown(r) && (IsOpp(r) <==> IsMine(a))
  {
    match a
    case MePlayCard(_) => OppUp
    case OppPlayCard(_) => MeUp
    case MeKnock => OppUp
    case OppKnock => MeUp
    case MePickBlind => MeDown
    case OppPickBlind => OppDown
    case MePickVisible => MeDown
    case OppPickVisible => OppDown
  }

  /** What the assertion of the branch checks: the stage, and for a visible pick that the
      centre pile has a first card. */
  predicate Admissible(a: Action, s: FullGameState) {
    s.stage == RequiredStage(a) && (IsPickVisible(a) ==> s.centreCards != [])
  }

  /** The hand of the given side. */
  function Hand(s: FullGameState, me: bool): seq<Card> {
    if me then s.myCards else s.oppCards
  }

  function WithHand(s: FullGameState, me: bool, hand: seq<Card>): FullGameState {
    if me then s.(myCards := hand) else s.(oppCards := hand)
  }

  /** `t` is `s` after `c` left the side's hand for the top (the front) of the centre pile. */
  ghost predicate Played(s: FullGameState, me: bool, c: Card, t: FullGameState) {
    && (forall x :: x in Hand(t, me) <==> x in Hand(s, me) && x != c)
    && t.centreCards == [c] + s.centreCards
    && t.meKnocked == s.meKnocked
  }

  /** `t` is `s` after `c` joined the end of the side's hand (a set: no change if present). */
  ghost predicate PickedUp(s: FullGameState, me: bool, c: Card, t: FullGameState) {
    && (c !in Hand(s, me) ==> Hand(t, me) == Hand(s, me) + [c])
    && (c in Hand(s, me) ==> Hand(t, me) == Hand(s, me))
    && t.meKnocked == s.meKnocked
  }

  /** The state after the side plays `c`, which goes on top of the centre pile, where the
      next visible pick takes it from (corrected: as written the card goes to the end, see
      `PlayAppending`). */
  function PlayState(s: FullGameState, me: bool, c: Card, next: GameStage): (t: FullGameState)
    ensures t.stage == next && Hand(t, !me) == Hand(s, !me) && Played(s, me, c, t)
  {
    WithHand(s, me, Without(Hand(s, me), [c])).(stage := next, centreCards := [c] + s.centreCards)
  }

  /** The play as written: `centreCards + it` appends the card to the end of the pile. */
  function PlayAppending(s: FullGameState, me: bool, c: Card, next: GameStage): (t: FullGameState)
    ensures t.stage == next && Hand(t, !me) == Hand(s, !me)
    ensures t.centreCards == s.centreCards + [c]
    ensures t == PlayState(s, me, c, next).(centreCards := s.centreCards + [c])
  {
    WithHand(s, me, Without(Hand(s, me), [c])).(stage := next, centreCards := s.centreCards + [c])
  }

  /** The state after the side takes `c` into its hand. */
  function PickState(s: FullGameState, me: bool, c: Card, next: GameStage): (t: FullGameState)
    ensures t.stage == next && Hand(t, !me) == Hand(s, !me) && PickedUp(s, me, c, t)
    ensures t.centreCards == s.centreCards
  {
    WithHand(s, me, AddIfAbsent(Hand(s, me), c)).(stage := next)
  }

  /** `Action.branch`, with `OppKnock` asserting `OppUp`, the stage that offers it: fails
      exactly when the assertion does, and otherwise yields the successor states. */
  function Branch(a: Action, s: FullGameState): (r: Result<seq<FullGameState>, ActionError>)
    ensures r.Ok? <==> Admissible(a, s)
    ensures r.Ok? ==> r.value == Successors(a, s, PickupDeck(s))
  {
    if !Admissible(a, s) then Err(AssertionFailed) else Ok(Successors(a, s, PickupDeck(s)))
  }

  /** The states an admissible action leads to. Every one is in the action's next stage with
      the other side's hand untouched; a knock changes only stage and knock flag, a play moves
      the card from the actor's hand to the top (the front) of the centre pile (corrected,
      see `BranchAsWritten`), a blind pick gives one
      state per card of the pickup deck `deck`, in deck order, and a visible pick moves the
      first centre card into the actor's hand. */
  function Successors(a: Action, s: FullGameState, deck: seq<Card>): (r: seq<FullGameState>)
    requires Admissible(a, s)
    ensures forall t :: t in r ==> t.stage == NextStage(a) && Hand(t, !IsMine(a)) == Hand(s, !IsMine(a))
    ensures IsKnock(a) ==> r == [s.(stage := NextStage(a), meKnocked := Some(IsMine(a)))]
    ensures IsPlay(a) ==> |r| == 1 && Played(s, IsMine(a), a.card, r[0])
    ensures IsPickBlind(a) ==>
      && |r| == |deck|
      && forall i :: 0 <= i < |r| ==>
           PickedUp(s, IsMine(a), deck[i], r[i]) && r[i].centreCards == s.centreCards
    ensures IsPickVisible(a) ==>
      && |r| == 1
      && PickedUp(s, IsMine(a), s.centreCards[0], r[0])
      && r[0].centreCards == s.centreCards[1..]
  {
    var me, next := IsMine(a), NextStage(a);
    if IsKnock(a) then [s.(stage := next, meKnocked := Some(me))]
    else if IsPlay(a) then [PlayState(s, me, a.card, next)]
    else if IsPickBlind(a) then PickEach(s, me, deck, next)
    else [PickVisible(s, me, next)]
  }

  /** `getPickupDeck().map { ... }`: one state per card of the deck, in deck order. */
  function PickEach(s: FullGameState, me: bool, deck: seq<Card>, next: GameStage): (r: seq<FullGameState>)
    ensures |r| == |deck|
    ensures forall i :: 0 <= i < |deck| ==> r[i] == PickState(s, me, deck[i], next)
    ensures forall t :: t in r ==> t.stage == next && Hand(t, !me) == Hand(s, !me)
  {
    seq(|deck|, i requires 0 <= i < |deck| => PickState(s, me, deck[i], next))
  }

  /** The first centre card goes to the hand; `List - element` drops its first occurrence. */
  function PickVisible(s: FullGameState, me: bool, next: GameStage): (t: FullGameState)
    requires s.centreCards != []
    ensures t.centreCards == s.centreCards[1..]
    ensures t.stage == next && Hand(t, !me) == Hand(s, !me) && PickedUp(s, me, s.centreCards[0], t)
  {
    var visible := s.centreCards[0];
    var t := PickState(s, me, visible, next).(centreCards := RemoveFirst(s.centreCards, visible));
    assert s.centreCards == [visible] + s.centreCards[1..];
    t
  }

  /** The branch as written: `OPP_KNOCK` asserts `ME_UP`, the stage in which it is never
      offered, and a play appends the card to the end of the centre pile, while a visible
      pick takes the first card. Every other action is as in `Branch`. */
  function BranchAsWritten(a: Action, s: FullGameState): (r: Result<seq<FullGameState>, ActionError>)
    ensures !IsPlay(a) && a != OppKnock ==> r == Branch(a, s)
    ensures a == OppKnock ==> (r.Ok? <==> s.stage == MeUp)
    ensures IsPlay(a) ==> (r.Ok? <==> Branch(a, s).Ok?)
    ensures IsPlay(a) && r.Ok? ==> r.value == [PlayAppending(s, IsMine(a), a.card, NextStage(a))]
  {
    if a == OppKnock then
      if s.stage == MeUp then Ok([s.(stage := MeUp, meKnocked := Some(false))])
      else Err(AssertionFailed)
    else if IsPlay(a) then
      if Admissible(a, s) then Ok([PlayAppending(s, IsMine(a), a.card, NextStage(a))])
      else Err(AssertionFailed)
    else Branch(a, s)
  }

  /** After my play, the opponent's visible pick takes the card I just played, and the
      centre pile is as it was before the play. */
  lemma PlayedCardIsVisible(s: FullGameState, c: Card)
    requires s.stage == MeDown
    ensures Branch(MePlayCard(c), s).Ok?
    ensures var t := Branch(MePlayCard(c), s).value[0];
      && Branch(OppPickVisible, t).Ok?
      && var u := Branch(OppPickVisible, t).value[0];
         c in u.oppCards && u.centreCards == s.centreCards
  {
    var t := PlayState(s, true, c, OppUp);
    assert Branch(MePlayCard(c), s) == Ok([t]);
    VisiblePickOf(t, false);
    PickAfterPlay(s, c, t);
  }

  lemma PickAfterPlay(s: FullGameState, c: Card, t: FullGameState)
    requires t.stage == OppUp && t.centreCards == [c] + s.centreCards && t.oppCards == s.oppCards
    ensures var u := PickVisible(t, false, OppDown);
      c in u.oppCards && u.centreCards == s.centreCards
  {
  }

  /** As written, the opponent's visible pick after my play takes the oldest card of the
      pile instead, and the card I played stays at the bottom: unless the opponent already
      held it, it does not reach the opponent's hand. */
  lemma PlayedCardBuriedAsWritten(s: FullGameState, c: Card)
    requires s.stage == MeDown && s.centreCards != []
    ensures BranchAsWritten(MePlayCard(c), s).Ok?
    ensures var t := BranchAsWritten(MePlayCard(c), s).value[0];
      && BranchAsWritten(OppPickVisible, t).Ok?
      && var u := BranchAsWritten(OppPickVisible, t).value[0];
         && s.centreCards[0] in u.oppCards
         && u.centreCards == s.centreCards[1..] + [c]
         && (c !in s.oppCards && c != s.centreCards[0] ==> c !in u.oppCards)
  {
    var t := PlayAppending(s, true, c, OppUp);
    assert BranchAsWritten(MePlayCard(c), s) == Ok([t]);
    VisiblePickOf(t, false);
    PickAfterAppending(s, c, t);
  }

  lemma PickAfterAppending(s: FullGameState, c: Card, t: FullGameState)
    requires s.centreCards != [] && t.stage == OppUp
    requires t.centreCards == s.centreCards + [c] && t.oppCards == s.oppCards
    ensures var u := PickVisible(t, false, OppDown);
      && s.centreCards[0] in u.oppCards
      && u.centreCards == s.centreCards[1..] + [c]
      && (c !in s.oppCards && c != s.centreCards[0] ==> c !in u.oppCards)
  {
    assert t.centreCards[0] == s.centreCards[0];
    assert t.centreCards[1..] == s.centreCards[1..] + [c];
  }

  /** The visible pick's branch is the one state `PickVisible` makes. */
  lemma VisiblePickOf(t: FullGameState, me: bool)
    requires t.stage == (if me then MeUp else OppUp) && t.centreCards != []
    ensures var a := if me then MePickVisible else OppPickVisible;
      BranchAsWritten(a, t) == Branch(a, t) == Ok([PickVisible(t, me, if me then MeDown else OppDown)])
  {
  }

  /** Knocking at the stage that offers the knock: the as-written branch fails where the
      corrected one succeeds. */
  lemma OppKnockAsWrittenFails(s: FullGameState)
    requires s.stage == OppUp
    ensures BranchAsWritten(OppKnock, s).Err?
    ensures Branch(OppKnock, s) == Ok([s.(stage := MeUp, meKnocked := Some(false))])
  {
  }

  /** The enum's `ME_PLAY_CARD` / `OPP_PLAY_CARD` branch, corrected: after the stage
      assertion, one state per card of the actor's hand, each playing that card onto the top
      of the pile (as written the card is appended, see `PlayEveryAsWritten`). */
  function PlayEvery(s: FullGameState, me: bool): (r: Result<seq<FullGameState>, ActionError>)
    ensures r.Ok? <==> s.stage == (if me then MeDown else OppDown)
    ensures r.Ok? ==> |r.value| == |Hand(s, me)|
  {
    var next := if me then OppUp else MeUp;
    if s.stage != (if me then MeDown else OppDown) then Err(AssertionFailed)
    else Ok(seq(|Hand(s, me)|, i requires 0 <= i < |Hand(s, me)| => PlayState(s, me, Hand(s, me)[i], next)))
  }

  /** The action that plays `c` for the given side. */
  function PlayOf(me: bool, c: Card): (a: Action)
    ensures IsPlay(a) && IsMine(a) == me && a.card == c
  {
    if me then MePlayCard(c) else OppPlayCard(c)
  }

  /** Playing every card at once is playing each card in turn, hand order kept: the enum
      branch is the concatenation of the parameterised branches, one per card of the hand. */
  lemma PlayEveryIsConcatenation(s: FullGameState, me: bool)
    ensures PlayEvery(s, me) ==
        if s.stage != (if me then MeDown else OppDown) then Err(AssertionFailed)
        else Ok(Flatten(PlayEach(s, me)))
  {
    if s.stage == (if me then MeDown else OppDown) {
      var parts := PlayEach(s, me);
      var played := PlayEvery(s, me).value;
      forall i | 0 <= i < |parts| ensures |parts[i]| == 1 && played[i] == parts[i][0] {
        PlayEachPart(s, me, i);
      }
      FlattenOfSingletons(parts);
      assert played == Flatten(parts);
    }
  }

  /** The parameterised branch for one card of the hand plays that card alone. */
  lemma PlayEachPart(s: FullGameState, me: bool, i: int)
    requires s.stage == (if me then MeDown else OppDown) && 0 <= i < |Hand(s, me)|
    ensures PlayEach(s, me)[i] == [PlayState(s, me, Hand(s, me)[i], if me then OppUp else MeUp)]
  {
    SuccessorsOfPlay(PlayOf(me, Hand(s, me)[i]), s, PickupDeck(s));
  }

  /** The enum's play branch as written: `centreCards + it` appends each card to the end of
      the pile. Each state differs from the corrected branch's in the pile alone. */
  function PlayEveryAsWritten(s: FullGameState, me: bool): (r: Result<seq<FullGameState>, ActionError>)
    ensures r.Ok? <==> s.stage == (if me then MeDown else OppDown)
    ensures r.Ok? ==> |r.value| == |Hand(s, me)|
    ensures r.Ok? ==> forall i :: 0 <= i < |r.value| ==>
      r.value[i] == PlayEvery(s, me).value[i].(centreCards := s.centreCards + [Hand(s, me)[i]])
  {
    var next := if me then OppUp else MeUp;
    if s.stage != (if me then MeDown else OppDown) then Err(AssertionFailed)
    else Ok(seq(|Hand(s, me)|, i requires 0 <= i < |Hand(s, me)| => PlayAppending(s, me, Hand(s, me)[i], next)))
  }

  /** As written too, the enum branch is the concatenation of the parameterised branches
      of `BranchAsWritten`, one per card of the hand, in hand order. */
  lemma PlayEveryAsWrittenIsConcatenation(s: FullGameState, me: bool)
    ensures PlayEveryAsWritten(s, me) ==
        if s.stage != (if me then MeDown else OppDown) then Err(AssertionFailed)
        else Ok(Flatten(PlayEachAsWritten(s, me)))
  {
    if s.stage == (if me then MeDown else OppDown) {
      var parts := PlayEachAsWritten(s, me);
      var played := PlayEveryAsWritten(s, me).value;
      forall i | 0 <= i < |parts| ensures |parts[i]| == 1 && played[i] == parts[i][0] {
        PlayEachAsWrittenPart(s, me, i);
      }
      FlattenOfSingletons(parts);
      assert played == Flatten(parts);
    }
  }

  lemma PlayEachAsWrittenPart(s: FullGameState, me: bool, i: int)
    requires s.stage == (if me then MeDown else OppDown) && 0 <= i < |Hand(s, me)|
    ensures PlayEachAsWritten(s, me)[i] == [PlayAppending(s, me, Hand(s, me)[i], if me then OppUp else MeUp)]
  {
    SuccessorsOfPlay(PlayOf(me, Hand(s, me)[i]), s, PickupDeck(s));
  }

  /** The as-written parameterised branch for each card of the side's hand, in hand order. */
  function PlayEachAsWritten(s: FullGameState, me: bool): seq<seq<FullGameState>>
    requires s.stage == (if me then MeDown else OppDown)
  {
    var hand := Hand(s, me);
    seq(|hand|, i requires 0 <= i < |hand| => BranchAsWritten(PlayOf(me, hand[i]), s).value)
  }

  /** The parameterised branch for each card of the side's hand, in hand order. */
  function PlayEach(s: FullGameState, me: bool): seq<seq<FullGameState>>
    requires s.stage == (if me then MeDown else OppDown)
  {
    var hand := Hand(s, me);
    seq(|hand|, i requires 0 <= i < |hand| => Branch(PlayOf(me, hand[i]), s).value)
  }

  lemma SuccessorsOfPlay(a: Action, s: FullGameState, deck: seq<Card>)
    requires IsPlay(a) && Admissible(a, s)
    ensures Successors(a, s, deck) == [PlayState(s, IsMine(a), a.card, NextStage(a))]
  {
  }

  lemma {:induction false} FlattenOfSingletons<T>(parts: seq<seq<T>>)
    requires forall i :: 0 <= i < |parts| ==> |parts[i]| == 1
    ensures |Flatten(parts)| == |parts|
    ensures forall i :: 0 <= i < |parts| ==> Flatten(parts)[i] == parts[i][0]
  {
    if parts != [] {
      FlattenOfSingletons(parts[..|parts| - 1]);
    }
  }

  /** A play names a card of the actor's hand, as the stage table offers it. */
  predicate Playable(a: Action, s: FullGameState) {
    IsPlay(a) ==> a.card in Hand(s, IsMine(a))
  }

  /** No card is in two places and every card is one of the 52, before and after any
      admissible action; a pick grows the actor's hand by one, a play shrinks it by one and
      a knock leaves both hands alone. */
  lemma BranchKeepsConsistent(a: Action, s: FullGameState, t: FullGameState)
    requires Consistent(s) && Playable(a, s) && Branch(a, s).Ok? && t in Branch(a, s).value
    ensures Consistent(t)
    ensures IsPickBlind(a) || IsPickVisible(a) ==> |Hand(t, IsMine(a))| == |Hand(s, IsMine(a))| + 1
    ensures IsPlay(a) ==> |Hand(t, IsMine(a))| == |Hand(s, IsMine(a))| - 1
    ensures IsKnock(a) ==> t.myCards == s.myCards && t.oppCards == s.oppCards
  {
    var me := IsMine(a);
    var deck := PickupDeck(s);
    assert t in Successors(a, s, deck);
    if IsPlay(a) {
      PlayCaseConsistent(a, s, deck, t);
    } else if IsPickBlind(a) {
      BlindCaseConsistent(a, s, deck, t);
    } else if IsPickVisible(a) {
      VisibleCaseConsistent(a, s, deck, t);
    } else {
      KnockCaseConsistent(a, s, deck, t);
    }
  }

  lemma KnockCaseConsistent(a: Action, s: FullGameState, deck: seq<Card>, t: FullGameState)
    requires IsKnock(a) && Admissible(a, s) && Consistent(s)
    requires t in Successors(a, s, deck)
    ensures Consistent(t) && t.myCards == s.myCards && t.oppCards == s.oppCards
  {
  }

  lemma PlayCaseConsistent(a: Action, s: FullGameState, deck: seq<Card>, t: FullGameState)
    requires IsPlay(a) && Admissible(a, s) && Consistent(s) && Playable(a, s)
    requires t in Successors(a, s, deck)
    ensures Consistent(t) && |Hand(t, IsMine(a))| == |Hand(s, IsMine(a))| - 1
  {
    SuccessorsOfPlay(a, s, deck);
    PlayKeepsConsistent(s, IsMine(a), a.card, t);
  }

  lemma BlindCaseConsistent(a: Action, s: FullGameState, deck: seq<Card>, t: FullGameState)
    requires IsPickBlind(a) && Admissible(a, s) && Consistent(s) && deck == PickupDeck(s)
    requires t in Successors(a, s, deck)
    ensures Consistent(t) && |Hand(t, IsMine(a))| == |Hand(s, IsMine(a))| + 1
  {
    var r := Successors(a, s, deck);
    var i :| 0 <= i < |r| && r[i] == t;
    var c := deck[i];
    assert c in deck;
    PickKeepsConsistent(s, IsMine(a), c, t);
  }

  lemma VisibleCaseConsistent(a: Action, s: FullGameState, deck: seq<Card>, t: FullGameState)
    requires IsPickVisible(a) && Admissible(a, s) && Consistent(s)
    requires t in Successors(a, s, deck)
    ensures Consistent(t) && |Hand(t, IsMine(a))| == |Hand(s, IsMine(a))| + 1
  {
    var c := s.centreCards[0];
    KnownCardsValidIff(s.myCards, s.oppCards, s.centreCards);
    assert c in s.centreCards && c !in s.centreCards[1..];
    PickKeepsConsistent(s, IsMine(a), c, t);
  }

  lemma PlayKeepsConsistent(s: FullGameState, me: bool, c: Card, t: FullGameState)
    requires Consistent(s) && c in Hand(s, me)
    requires Played(s, me, c, t) && Hand(t, !me) == Hand(s, !me)
    requires Hand(t, me) == Without(Hand(s, me), [c])
    ensures Consistent(t)
    ensures |Hand(t, me)| == |Hand(s, me)| - 1
  {
    KnownCardsValidIff(s.myCards, s.oppCards, s.centreCards);
    KnownCardsValidIff(t.myCards, t.oppCards, t.centreCards);
    DistinctConcat([c], s.centreCards);
    WithoutOne(Hand(s, me), c);
  }

  /** `c` is the card picked up: it was in nobody's hand, and it leaves the centre pile if
      it came from there. */
  lemma PickKeepsConsistent(s: FullGameState, me: bool, c: Card, t: FullGameState)
    requires Consistent(s) && InDeck(c) && c !in s.myCards && c !in s.oppCards
    requires PickedUp(s, me, c, t) && Hand(t, !me) == Hand(s, !me)
    requires t.centreCards == s.centreCards || (s.centreCards != [] && c == s.centreCards[0] && t.centreCards == s.centreCards[1..])
    requires t.centreCards == s.centreCards ==> c !in s.centreCards
    ensures Consistent(t)
    ensures |Hand(t, me)| == |Hand(s, me)| + 1
  {
    KnownCardsValidIff(s.myCards, s.oppCards, s.centreCards);
    KnownCardsValidIff(t.myCards, t.oppCards, t.centreCards);
    DistinctConcat(Hand(s, me), [c]);
    if t.centreCards != s.centreCards {
      assert s.centreCards == [c] + t.centreCards;
      DistinctConcat([c], t.centreCards);
    }
  }

  /** The hands hold as many cards as the stage table says, and the cards are consistent. */
  predicate Dealt(s: FullGameState) {
    Consistent(s) && |s.myCards| == MyHandSize(s.stage) && |s.oppCards| == OppHandSize(s.stage)
  }

  /** Every admissible action keeps the hand sizes in step with the stage table. */
  lemma BranchKeepsDealt(a: Action, s: FullGameState, t: FullGameState)
    requires Dealt(s) && Playable(a, s) && Branch(a, s).Ok? && t in Branch(a, s).value
    ensures Dealt(t)
  {
    BranchKeepsConsistent(a, s, t);
  }
}
