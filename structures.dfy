/**
 * The earlier rewrite (Structures.kt): a mutable `Deck` wrapping a list of cards, changed
 * in place by `+=` (a card goes to the front, a collection to the back), `-=` and `pop`;
 * a `GameState` over such decks whose `branch` lists the states one move away for the
 * pick-up stages and for my put-down stage; and a `nestedLoop` without the guard for no
 * lists. Its `Card` and `GameStage` are the same code as Card.kt's and GameStage's, so the
 * `Cards` and `Stages` definitions serve both.
 */
module Structures {
  import opened Wrappers
  import opened Lists
  import opened Cards
  import opened Stages
  import Decks
  import GameStates
  import Utils

  /** `NoSuchElementException` from `first()`/`removeFirst()` on an empty list, and
      `IndexOutOfBoundsException` from `cards[index]`. */
  datatype DeckError = NoSuchElement | IndexOutOfBounds(index: int)

  class Deck {
    var cards: seq<Card>

    /** `Deck(vararg cards)`. */
    constructor (cards: seq<Card>)
      ensures this.cards == cards
    {
      this.cards := cards;
    }

    /** `Deck(vararg cards: String)`: each string read by the `Card` string constructor; the
        first string that does not give a card makes it throw. */
    static method FromStrings(strings: seq<string>) returns (r: Result<Deck, CardError>)
      ensures r.Ok? <==> forall i :: 0 <= i < |strings| ==> Parse(strings[i]).Ok?
      ensures r.Ok? ==> fresh(r.value) && |r.value.cards| == |strings|
      ensures r.Ok? ==> forall i :: 0 <= i < |strings| ==> Parse(strings[i]) == Ok(r.value.cards[i])
      ensures r.Err? ==> r.error == Decks.ToCards(strings).error
    {
      match Decks.ToCards(strings)
      case Err(e) =>
        r := Err(e);
      case Ok(cards) =>
        var d := new Deck(cards);
        r := Ok(d);
    }

    /** `Deck.none()`. */
    static method None() returns (d: Deck)
      ensures fresh(d) && d.cards == []
    {
      d := new Deck([]);
    }

    /** `Deck.all()`: an empty deck to which `Card(index)` is added for index 0 to 51. */
    static method All() returns (d: Deck)
      ensures fresh(d) && d.cards == Decks.AllCards()
    {
      d := None();
      for index := 0 to 52
        invariant d.cards == Decks.AllCards()[..index]
      {
        d.cards := d.cards + [FromIndex(index)];
      }
    }

    /** `+= card`: the card goes to the front. */
    method PlusAssignCard(other: Card)
      modifies this
      ensures cards == [other] + old(cards)
    {
      cards := [other] + cards;
    }

    /** `+= cards`: appended in order. */
    method PlusAssignAll(others: seq<Card>)
      modifies this
      ensures cards == old(cards) + others
    {
      cards := cards + others;
    }

    /** `-= card`: the first occurrence goes, if there is one. */
    method MinusAssignCard(other: Card)
      modifies this
      ensures cards == RemoveFirst(old(cards), other)
    {
      cards := RemoveFirst(cards, other);
    }

    /** `-= cards`: every occurrence of every card of `others.toSet()` goes, which is every
        occurrence of every card of `others`. */
    method MinusAssignAll(others: seq<Card>)
      modifies this
      ensures cards == Without(old(cards), others)
    {
      WithoutSameMembers(cards, Dedup(others), others);
      cards := Without(cards, Dedup(others));
    }

    /** `+ card`: a new deck, a copy with the card in front; this deck is unchanged. */
    method PlusCard(other: Card) returns (d: Deck)
      ensures fresh(d) && d.cards == [other] + cards
    {
      d := None();
      d.PlusAssignAll(cards);
      d.PlusAssignCard(other);
    }

    /** `+ cards`: a new deck, a copy followed by `others`. */
    method PlusAll(others: seq<Card>) returns (d: Deck)
      ensures fresh(d) && d.cards == cards + others
    {
      d := None();
      d.PlusAssignAll(cards);
      d.PlusAssignAll(others);
    }

    /** `- card`: a new deck, a copy without the first occurrence. */
    method MinusCard(other: Card) returns (d: Deck)
      ensures fresh(d) && d.cards == RemoveFirst(cards, other)
    {
      d := None();
      d.PlusAssignAll(cards);
      assert d.cards == cards;
      d.MinusAssignCard(other);
    }

    /** `- cards`: a new deck, a copy without any card of `others`. */
    method MinusAll(others: seq<Card>) returns (d: Deck)
      ensures fresh(d) && d.cards == Without(cards, others)
    {
      d := None();
      d.PlusAssignAll(cards);
      assert d.cards == cards;
      d.MinusAssignAll(others);
    }

    /** `get(index)`. */
    function Get(index: int): (r: Result<Card, DeckError>)
      reads this
      ensures r.Ok? <==> 0 <= index < |cards|
      ensures r.Ok? ==> r.value == cards[index] && r.value in cards
      ensures r.Err? ==> r.error == IndexOutOfBounds(index)
    {
      if 0 <= index < |cards| then Ok(cards[index]) else Err(IndexOutOfBounds(index))
    }

    /** `peek`: the first card, which is `get(0)`; an empty deck has none. */
    function Peek(): (r: Result<Card, DeckError>)
      reads this
      ensures r.Ok? <==> cards != []
      ensures r.Ok? ==> r == Get(0) && r.value in cards
      ensures r.Err? ==> r.error == NoSuchElement
    {
      if cards == [] then Err(NoSuchElement) else Ok(cards[0])
    }

    /** `pop`: takes off the card `peek` shows, undoing a `+= card`; on an empty deck it
        throws and the deck stays empty. */
    method Pop() returns (r: Result<Card, DeckError>)
      modifies this
      ensures r == old(Peek())
      ensures r.Ok? ==> old(cards) == [r.value] + cards
      ensures r.Err? ==> cards == old(cards)
    {
      if cards == [] {
        r := Err(NoSuchElement);
      } else {
        r := Ok(cards[0]);
        cards := cards[1..];
      }
    }

    /** `getHandValue`: the same hand value as `Iterable<Card>.getHandValue`. */
    function GetHandValue(): (r: int)
      reads this
      ensures Decks.HasTriple(cards) ==> r == 30
      ensures !Decks.HasTriple(cards) ==> exists s :: 0 <= s <= 3 && r == Decks.SuitTotal(cards, s)
      ensures !Decks.HasTriple(cards) ==> forall s :: 0 <= s <= 3 ==> Decks.SuitTotal(cards, s) <= r
    {
      Decks.GetHandValue(cards)
    }

    /** `isUnique`: the deck has as many cards as its set has, that is, no card twice. */
    function IsUnique(): (b: bool)
      reads this
      ensures b <==> Distinct(cards)
    {
      DedupSize(cards);
      |cards| == |Dedup(cards)|
    }
  }

  /** `-=` after `+=` of the same card gives the deck back; `pop` after `+=` returns it. */
  method PlusAssignThenMinusAssign(d: Deck, c: Card)
    modifies d
    ensures d.cards == old(d.cards)
  {
    d.PlusAssignCard(c);
    RemoveFirstOfPrepended(old(d.cards), c);
    d.MinusAssignCard(c);
  }

  // ---------------------------------------------------------------------------
  // GameState
  // ---------------------------------------------------------------------------

  /** The data class, with each deck's card list in place of the deck. */
  datatype GameState = GameState(
    knocked: bool,
    stage: GameStage,
    myCards: seq<Card>,
    oppCards: seq<Card>,
    centreCards: seq<Card>)

  /** `getPickupDeck`: the cards nobody has in sight, in index order (the same deck as
      `FullGameState.getPickupDeck`). */
  function PickupDeck(s: GameState): seq<Card> {
    GameStates.Unseen(s.myCards, s.oppCards, s.centreCards)
  }

  /** The pickup deck is `Deck.all() - myCards - oppCards - centreCards.toSet()`, each
      `-` removing every occurrence of every listed card (what it holds is stated by
      `GameStates.Unseen`'s contract). */
  lemma PickupDeckIsDeckMinusKnown(s: GameState)
    ensures PickupDeck(s) ==
      Without(Without(Without(Decks.AllCards(), s.myCards), s.oppCards), Dedup(s.centreCards))
  {
    GameStates.AllCardsIncreasing();
    Decks.AllCardsDistinctAndComplete();
    RemoveKnown(Decks.AllCards(), s.myCards, s.oppCards, s.centreCards);
  }

  lemma RemoveKnown(deck: seq<Card>, my: seq<Card>, opp: seq<Card>, centre: seq<Card>)
    requires GameStates.IncreasingIndex(deck) && forall c :: c in deck <==> InDeck(c)
    ensures GameStates.Unseen(my, opp, centre) == Without(Without(Without(deck, my), opp), Dedup(centre))
  {
    WithoutSameMembers(Without(Without(deck, my), opp), Dedup(centre), centre);
    GameStates.DeckMinusKnown(deck, my, opp, centre);
  }

  /** `copy` with `card` added (`+ card`, so in front) to the hand of the side `me` and the
      centre pile set to `centre`. */
  function Take(s: GameState, me: bool, card: Card, centre: seq<Card>): (t: GameState)
    ensures t.knocked == s.knocked && t.stage == s.stage && t.centreCards == centre
    ensures me ==> t.myCards == [card] + s.myCards && t.oppCards == s.oppCards
    ensures !me ==> t.oppCards == [card] + s.oppCards && t.myCards == s.myCards
  {
    if me then s.(myCards := [card] + s.myCards, centreCards := centre)
    else s.(oppCards := [card] + s.oppCards, centreCards := centre)
  }

  /** The `ME_UP`/`OPP_UP` branch for the side `me` over the pickup deck `pickup`: one
      state per pickup card, that card put in front of the side's hand, then the state
      where the side takes the centre pile's top card (`peek`), which throws for an empty
      pile. */
  function UpBranch(s: GameState, me: bool, pickup: seq<Card>): (r: Result<seq<GameState>, DeckError>)
    ensures r.Err? <==> s.centreCards == []
    ensures r.Ok? ==> |r.value| == |pickup| + 1
  {
    var picks := seq(|pickup|, i requires 0 <= i < |pickup| => Take(s, me, pickup[i], s.centreCards));
    if s.centreCards == [] then Err(NoSuchElement)
    else
      var top := s.centreCards[0];
      Ok(picks + [Take(s, me, top, RemoveFirst(s.centreCards, top))])
  }

  /** The `ME_DOWN` branch: one state per card of my hand, that card taken out (its first
      occurrence) and put on top of the centre pile. */
  function DownBranch(s: GameState): (r: seq<GameState>)
    ensures |r| == |s.myCards|
  {
    seq(|s.myCards|, i requires 0 <= i < |s.myCards| =>
      s.(myCards := RemoveFirst(s.myCards, s.myCards[i]),
         centreCards := [s.myCards[i]] + s.centreCards))
  }

  /** `branch` for the three stages it can compute (its `OPP_DOWN` case does not compile). */
  function Branch(s: GameState): (r: Result<seq<GameState>, DeckError>)
    requires s.stage != OppDown
    ensures r.Err? <==> !IsDown(s.stage) && s.centreCards == []
  {
    match s.stage
    case MeUp => UpBranch(s, true, PickupDeck(s))
    case OppUp => UpBranch(s, false, PickupDeck(s))
    case MeDown => Ok(DownBranch(s))
  }

  /** No branch changes the stage or the knock flag. */
  lemma BranchKeepsStage(s: GameState, t: GameState)
    requires s.stage != OppDown && Branch(s).Ok? && t in Branch(s).value
    ensures t.stage == s.stage && t.knocked == s.knocked
  {
    if !IsDown(s.stage) {
      UpBranchKeepsStage(s, s.stage == MeUp, PickupDeck(s), t);
    }
  }

  lemma UpBranchKeepsStage(s: GameState, me: bool, pickup: seq<Card>, t: GameState)
    requires UpBranch(s, me, pickup).Ok? && t in UpBranch(s, me, pickup).value
    ensures t.stage == s.stage && t.knocked == s.knocked
  {
    var i :| 0 <= i < |UpBranch(s, me, pickup).value| && UpBranch(s, me, pickup).value[i] == t;
    UpBranchShape(s, me, pickup, i);
  }

  /** In a pick-up stage, state `i` (for each card of the pickup deck) gives the acting side
      that card in front of its hand and changes nothing else, and the last state gives it
      the centre pile's top card, which leaves the pile. */
  lemma UpBranchShape(s: GameState, me: bool, pickup: seq<Card>, i: int)
    requires s.centreCards != [] && 0 <= i <= |pickup|
    ensures var t := UpBranch(s, me, pickup).value[i];
      var hand := if me then s.myCards else s.oppCards;
      var hand' := if me then t.myCards else t.oppCards;
      && t.stage == s.stage && t.knocked == s.knocked
      && (if me then t.oppCards == s.oppCards else t.myCards == s.myCards)
      && (i < |pickup| ==> hand' == [pickup[i]] + hand && t.centreCards == s.centreCards)
      && (i == |pickup| ==> hand' == [s.centreCards[0]] + hand && t.centreCards == s.centreCards[1..])
  {
    assert s.centreCards == [s.centreCards[0]] + s.centreCards[1..];
  }

  /** A card picked blind is one nobody had in sight, so a state whose cards were all
      different stays so. */
  lemma UpPickIsFresh(s: GameState, i: int)
    requires !IsDown(s.stage) && s.centreCards != [] && s.stage != OppDown
    requires 0 <= i < |PickupDeck(s)|
    ensures var c := PickupDeck(s)[i];
      InDeck(c) && c !in s.myCards && c !in s.oppCards && c !in s.centreCards
    ensures GameStates.KnownCardsValid(s.myCards, s.oppCards, s.centreCards) ==>
      var t := Branch(s).value[i];
      GameStates.KnownCardsValid(t.myCards, t.oppCards, t.centreCards)
  {
    var pickup := PickupDeck(s);
    assert pickup[i] in pickup;
    var me := s.stage == MeUp;
    assert Branch(s) == UpBranch(s, me, pickup);
    if GameStates.KnownCardsValid(s.myCards, s.oppCards, s.centreCards) {
      FreshPickKeepsValid(s, me, pickup, i);
    }
  }

  lemma FreshPickKeepsValid(s: GameState, me: bool, pickup: seq<Card>, i: int)
    requires s.centreCards != [] && 0 <= i < |pickup|
    requires var c := pickup[i]; InDeck(c) && c !in s.myCards && c !in s.oppCards && c !in s.centreCards
    requires GameStates.KnownCardsValid(s.myCards, s.oppCards, s.centreCards)
    ensures var t := UpBranch(s, me, pickup).value[i];
      GameStates.KnownCardsValid(t.myCards, t.oppCards, t.centreCards)
  {
    UpBranchShape(s, me, pickup, i);
    var t := UpBranch(s, me, pickup).value[i];
    GameStates.KnownCardsValidIff(s.myCards, s.oppCards, s.centreCards);
    GameStates.KnownCardsValidIff(t.myCards, t.oppCards, t.centreCards);
  }

  /** Putting a card down moves it from my hand to the top of the centre pile: my hand
      loses one card, the pile gains it, and together they hold the same cards. */
  lemma DownBranchMovesCard(s: GameState, i: int)
    requires s.stage == MeDown && 0 <= i < |s.myCards|
    ensures var t := Branch(s).value[i];
      && t.centreCards == [s.myCards[i]] + s.centreCards
      && |t.myCards| == |s.myCards| - 1
      && multiset(t.myCards) + multiset(t.centreCards) == multiset(s.myCards) + multiset(s.centreCards)
      && t.oppCards == s.oppCards
  {
    var c := s.myCards[i];
    assert c in s.myCards;
  }

  /** The taken visible card moves from the centre pile to the acting hand, so all cards in
      sight stay the same. */
  lemma VisiblePickMovesCard(s: GameState, me: bool, pickup: seq<Card>)
    requires s.centreCards != []
    ensures var t := UpBranch(s, me, pickup).value[|pickup|];
      multiset(t.myCards) + multiset(t.oppCards) + multiset(t.centreCards)
      == multiset(s.myCards) + multiset(s.oppCards) + multiset(s.centreCards)
  {
    UpBranchShape(s, me, pickup, |pickup|);
    var t := UpBranch(s, me, pickup).value[|pickup|];
    var c := s.centreCards[0];
    assert s.centreCards == [c] + s.centreCards[1..];
    if me {
      CardMoves(s.myCards, s.oppCards, s.centreCards, t.myCards, t.oppCards, t.centreCards);
    } else {
      CardMoves(s.oppCards, s.myCards, s.centreCards, t.oppCards, t.myCards, t.centreCards);
    }
  }

  /** Moving the first card of the pile onto a hand keeps the cards in sight. */
  lemma CardMoves(hand: seq<Card>, other: seq<Card>, centre: seq<Card>,
                  hand': seq<Card>, other': seq<Card>, centre': seq<Card>)
    requires centre != [] && hand' == [centre[0]] + hand && other' == other && centre' == centre[1..]
    ensures multiset(hand') + multiset(other') + multiset(centre') ==
            multiset(hand) + multiset(other) + multiset(centre)
  {
    assert centre == [centre[0]] + centre[1..];
  }

  // ---------------------------------------------------------------------------
  // nestedLoop without the guard
  // ---------------------------------------------------------------------------

  /** Structures.kt's `nestedLoop`, the Utils.kt loop without `if (elements.isEmpty())`,
      run until it has yielded `limit` tuples or stopped by itself. With no lists the
      counter condition holds for ever and the empty tuple is yielded again and again;
      otherwise the tuples are the product's, in order. */
  method NestedLoopUnguarded<T>(elements: seq<seq<T>>, limit: nat) returns (yielded: seq<seq<T>>)
    ensures elements == [] ==> yielded == Utils.Repeated([], limit)
    ensures elements != [] ==>
      yielded == Utils.Product(elements)[..if limit < Utils.Size(elements) then limit else Utils.Size(elements)]
    ensures elements != [] && limit >= Utils.Size(elements) ==> yielded == Utils.Tuples(elements)
  {
    yielded := [];
    var n := |elements|;
    var counts := new int[n](_ => 0);
    var maxima := seq(n, i requires 0 <= i < n => |elements[i]| - 1);
    if n > 0 && Utils.Size(elements) > 0 {
      Utils.RankOfZeros(elements, counts[..]);
    }
    while Utils.NoneNegative(maxima, counts[..]) && |yielded| < limit
      invariant counts.Length == n && |yielded| <= limit
      invariant forall i :: 0 <= i < n ==> 0 <= counts[i]
      invariant n == 0 ==> yielded == Utils.Repeated([], |yielded|)
      invariant n > 0 && Utils.Size(elements) == 0 ==> yielded == []
      invariant n > 0 && Utils.Size(elements) > 0 ==> Utils.ValidCounter(elements, counts[..])
      invariant n > 0 && Utils.Size(elements) > 0 ==>
        yielded == Utils.Product(elements)[..Utils.Rank(elements, counts[..])]
      decreases limit - |yielded|
    {
      Utils.NoEmptyList(elements, maxima, counts[..]);
      if n == 0 {
        // The increment loop runs over no positions.
        yielded := yielded + [Utils.Tuple(elements, counts[..])];
      } else {
        Utils.YieldNext(elements, counts[..], yielded);
        yielded := yielded + [Utils.Tuple(elements, counts[..])];
        var overflow := Utils.Increment(elements, maxima, counts);
        if overflow {
          break;
        }
      }
    }
  }

  /** The unguarded loop never stops by itself for no lists: whatever the limit, it has
      yielded that many empty tuples, where the guarded loop yields nothing. */
  method UnguardedNeverStops(limit: nat) returns (unguarded: seq<seq<int>>, guarded: seq<seq<int>>)
    ensures |unguarded| == limit && forall t :: t in unguarded ==> t == []
    ensures guarded == []
  {
    unguarded := NestedLoopUnguarded([], limit);
    guarded := Utils.NestedLoop([]);
  }
}
