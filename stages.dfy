/**
 * The stage table (GameStage.kt): whose turn it is and how many cards each hand holds.
 * In an "up" stage the player to act picks a card (or knocks); in a "down" stage that
 * player holds four cards and plays one.
 */
module Stages {

  datatype GameStage = MeUp | MeDown | OppUp | OppDown

  /** `isOpp`: the opponent is to act. */
  function IsOpp(stage: GameStage): bool {
    stage == OppUp || stage == OppDown
  }

  /** `myHandSize`. */
  function MyHandSize(stage: GameStage): int {
    if stage == MeDown then 4 else 3
  }

  /** `oppHandSize`. */
  function OppHandSize(stage: GameStage): int {
    if stage == OppDown then 4 else 3
  }

  predicate IsDown(stage: GameStage) {
    stage == MeDown || stage == OppDown
  }

  /** The stage in which the acting side has picked up and must play. */
  function DownStageOf(stage: GameStage): (r: GameStage)
    ensures IsDown(r) && IsOpp(r) == IsOpp(stage)
  {
    if IsOpp(stage) then OppDown else MeDown
  }

  /** The table: both hands hold three cards, except that in a down stage the side to act
      holds the fourth card it picked up. */
  lemma HandSizesFollowTurn(stage: GameStage)
    ensures !IsDown(stage) ==> MyHandSize(stage) == 3 && OppHandSize(stage) == 3
    ensures IsDown(stage) && !IsOpp(stage) ==> MyHandSize(stage) == 4 && OppHandSize(stage) == 3
    ensures IsDown(stage) && IsOpp(stage) ==> MyHandSize(stage) == 3 && OppHandSize(stage) == 4
    ensures IsOpp(stage) <==> stage in {OppUp, OppDown}
  {
  }
}
