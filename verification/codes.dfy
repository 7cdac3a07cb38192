/** Grid dimensions and brick type codes of the game's configuration
    (`Config::GRID_ROWS`, `Config::SCORE_*`). A cell of the level grid holds
    one of these integer codes: 0 is an empty cell, -1 an indestructible
    brick, and 1, 3, 5, 7 the four destructible tiers. */
module Codes {

  const Rows: int := 8
  const Cols: int := 14

  const Empty: int := 0
  const ScoreYellow: int := 1
  const ScoreGreen: int := 3
  const ScoreOrange: int := 5
  const ScoreRed: int := 7
  const ScoreIndestructible: int := -1

  /** Range of the C++ `int` that cells are stored and parsed in. */
  const Int32Min: int := -0x8000_0000
  const Int32Max: int := 0x7FFF_FFFF

  predicate InInt32(v: int) {
    Int32Min <= v <= Int32Max
  }

  /** The allowed set {0, -1, 1, 3, 5, 7}, checked by `setScoreValue`,
      `load` and `setGridState`. */
  predicate IsValidCode(v: int) {
    || v == Empty
    || v == ScoreIndestructible
    || v == ScoreYellow
    || v == ScoreGreen
    || v == ScoreOrange
    || v == ScoreRed
  }

  /** A code whose freshly initialised brick is active and not indestructible,
      i.e. one that `setupBricks` counts. */
  predicate IsDestructibleCode(v: int) {
    v != Empty && v != ScoreIndestructible
  }

  /** The code a cell receives when `load` or `setGridState` is handed `v`:
      invalid codes are stored as empty. */
  function Sanitize(v: int): (r: int)
    ensures IsValidCode(r)
  {
    if IsValidCode(v) then v else Empty
  }

  /** A valid destructible code is a positive score. */
  lemma ValidDestructibleIsPositive(v: int)
    requires IsValidCode(v) && IsDestructibleCode(v)
    ensures v > 0
  {
  }
}
