/**
 * Choosing a move (`FullGameState.getBestMove`): every action the stage offers is scored
 * (`associateWith`) and the action with the largest score is returned (`maxBy`), the first
 * one when several tie. The score, a win probability found by a game-tree search, is a
 * parameter here.
 */
module BestMoves {
  import opened Wrappers
  import opened Lists
  import opened Stages
  import opened GameStates
  import opened Actions
  import opened Offers

  /** `maxBy` on an empty map throws `NoSuchElementException`. */
  datatype MoveError = NoSuchElement

  /** `maxBy { score }`, as the position it picks: scanning left to right, the best so far
      is replaced only by a strictly larger score, so this is the first position of largest
      score. */
  function ArgMax<T>(xs: seq<T>, score: T -> real): (k: int)
    requires xs != []
    ensures 0 <= k < |xs|
    ensures forall j :: 0 <= j < |xs| ==> score(xs[j]) <= score(xs[k])
    ensures forall j :: 0 <= j < k ==> score(xs[j]) < score(xs[k])
  {
    var n := |xs|;
    if n == 1 then 0
    else
      var best := ArgMax(xs[..n - 1], score);
      assert xs[..n - 1][best] == xs[best];
      if score(xs[best]) < score(xs[n - 1]) then n - 1 else best
  }

  /** `getBestMove`: the first offered action of largest score, or an error when the stage
      offers nothing. The offers are made distinct first, as `associateWith` keys them. */
  function GetBestMove(s: FullGameState, score: Action -> real): (r: Result<Action, MoveError>)
    ensures r.Ok? <==> StageActions(s.stage, s) != []
    ensures r.Ok? ==> r.value in StageActions(s.stage, s)
    ensures r.Ok? ==> forall a :: a in StageActions(s.stage, s) ==> score(a) <= score(r.value)
    ensures r.Ok? ==> forall j ::
      (0 <= j < |StageActions(s.stage, s)| && score(StageActions(s.stage, s)[j]) == score(r.value)) ==>
      r.value in StageActions(s.stage, s)[..j + 1]
  {
    var offered := Dedup(StageActions(s.stage, s));
    if offered == [] then Err(NoSuchElement)
    else
      FirstOfTies(StageActions(s.stage, s), score);
      Ok(offered[ArgMax(offered, score)])
  }

  /** Among the distinct offers, the one `maxBy` picks occurs no later than any other offer
      of the same score: ties go to the first offered. */
  lemma FirstOfTies<T(!new)>(xs: seq<T>, score: T -> real)
    requires Dedup(xs) != []
    ensures forall j ::
      (0 <= j < |xs| && score(xs[j]) == score(Dedup(xs)[ArgMax(Dedup(xs), score)])) ==>
      Dedup(xs)[ArgMax(Dedup(xs), score)] in xs[..j + 1]
  {
    var d := Dedup(xs);
    var k := ArgMax(d, score);
    forall j | 0 <= j < |xs| && score(xs[j]) == score(d[k])
      ensures d[k] in xs[..j + 1]
    {
      TieNotBefore(xs, d, k, j);
    }
  }

  /** One offer `xs[j]` tying with the pick `d[k]`: the pick occurs no later than it. */
  lemma TieNotBefore<T(!new)>(xs: seq<T>, d: seq<T>, k: nat, j: nat)
    requires d == Dedup(xs) && 0 <= k < |d| && 0 <= j < |xs|
    requires forall i :: 0 <= i < k ==> d[i] != xs[j]
    ensures d[k] in xs[..j + 1]
  {
    assert xs[j] in xs[..j + 1];
    if xs[j] != d[k] {
      assert xs[j] in d;
      var m :| 0 <= m < |d| && d[m] == xs[j];
      assert k < m;
      var kk := EarlierFirstOccurrence(xs, k, m);
      assert kk <= j;
      assert xs[..kk] <= xs[..j + 1];
    }
  }

  /** One instance of `DedupFirstOccurrences`: a prefix holding `Dedup(xs)[a]` and not yet
      `Dedup(xs)[b]`. */
  lemma EarlierFirstOccurrence<T(!new)>(xs: seq<T>, a: nat, b: nat) returns (kk: nat)
    requires a < b < |Dedup(xs)|
    ensures kk <= |xs| && Dedup(xs)[a] in xs[..kk] && Dedup(xs)[b] !in xs[..kk]
  {
    DedupFirstOccurrences(xs);
    kk :| 0 <= kk <= |xs| && Dedup(xs)[a] in xs[..kk] && Dedup(xs)[b] !in xs[..kk];
  }

  /** The chosen move is offered and can be played: its branch passes the stage assertion. */
  lemma BestMoveApplies(s: FullGameState, score: Action -> real)
    requires GetBestMove(s, score).Ok?
    ensures Branch(GetBestMove(s, score).value, s).Ok?
  {
    OfferedActionsApply(s, GetBestMove(s, score).value);
  }

  /** Only a down stage with an empty hand offers nothing. */
  lemma NoMoveOnlyWithEmptyHand(s: FullGameState, score: Action -> real)
    ensures GetBestMove(s, score).Err? <==>
      IsDown(s.stage) && Hand(s, !IsOpp(s.stage)) == []
  {
    StageActionsByStage(s);
    if !IsDown(s.stage) {
      UpOffersExactly(s.stage == MeUp, s, MeKnock);
    }
  }
}
