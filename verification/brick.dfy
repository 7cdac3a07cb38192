/** One brick of the play field (class `Brick`): an integer score code and an
    `active` flag. The float rectangle is abstracted to the grid cell the
    brick was placed in. */
module Bricks {

  import opened Codes

  /** Where a brick sits: nowhere yet (the default constructor), or at a
      visual row (0 = bottom of the drawn grid) and a column. */
  datatype Slot = Unplaced | At(visualRow: int, col: int)

  datatype Brick = Brick(slot: Slot, score: int, active: bool)

  /** The brick's class invariant: a brick is active exactly when its score
      code is not 0. Every operation below keeps it. */
  predicate Wf(b: Brick) {
    b.active <==> b.score != Empty
  }

  predicate IsIndestructible(b: Brick) {
    b.score == ScoreIndestructible
  }

  /** A brick counted by the level's active-brick counter. */
  predicate Live(b: Brick) {
    b.active && !IsIndestructible(b)
  }

  /** The default-constructed brick: empty and inactive. */
  function NewBrick(): (b: Brick)
    ensures Wf(b) && !b.active && b.score == Empty
  {
    Brick(Unplaced, Empty, false)
  }

  /** `init`: places the brick and sets its code without validating it. */
  function Init(slot: Slot, score: int): (b: Brick)
    ensures b.slot == slot && b.score == score
    ensures Wf(b)
    ensures Live(b) <==> IsDestructibleCode(score)
  {
    Brick(slot, score, score != Empty)
  }

  /** `hit`: returns the new brick and the points awarded. */
  function Hit(b: Brick): (res: (Brick, int))
    ensures !Live(b) ==> res == (b, 0)
    ensures Live(b) ==> res.1 == b.score
    ensures Live(b) ==> res.0.slot == b.slot && !res.0.active && res.0.score == Empty
    ensures Wf(b) ==> Wf(res.0)
    ensures !Live(res.0)
  {
    if !b.active then (b, 0)
    else if b.score == ScoreIndestructible then (b, 0)
    else (b.(active := false, score := Empty), b.score)
  }

  /** `setActive(active, indestructible)`. Activating an inactive brick sets
      its code to -1 or 0, so without `indestructible` the brick stays
      inactive with code 0; deactivating an active brick empties it, even an
      indestructible one. */
  function SetActive(b: Brick, active: bool, indestructible: bool): (res: Brick)
    ensures res.slot == b.slot
    ensures active && !b.active && indestructible ==> res.active && IsIndestructible(res)
    ensures active && !b.active && !indestructible ==> !res.active && res.score == Empty
    ensures !active && b.active ==> !res.active && res.score == Empty
    ensures active == b.active ==> res == b
    ensures Wf(b) ==> Wf(res)
  {
    if active && !b.active then
      var s := if indestructible then ScoreIndestructible else Empty;
      b.(score := s, active := s != Empty)
    else if !active && b.active then
      b.(score := Empty, active := false)
    else
      b
  }

  /** `setScoreValue`: accepts only codes of the allowed set; any other value
      is rejected and leaves the brick as it was. */
  function SetScoreValue(b: Brick, score: int): (res: Brick)
    ensures res.slot == b.slot
    ensures IsValidCode(score) ==> res.score == score && Wf(res)
    ensures !IsValidCode(score) ==> res == b
  {
    if IsValidCode(score) then b.(score := score, active := score != Empty)
    else b
  }

  /** A brick is hit at most once for points: whatever the first hit did,
      a second hit awards nothing and changes nothing. */
  lemma HitIsFinal(b: Brick)
    ensures Hit(Hit(b).0) == (Hit(b).0, 0)
  {
  }

  /** With a valid code, a hit awards points exactly when the brick was live,
      and then a positive amount. */
  lemma HitAwardsIffLive(b: Brick)
    requires Wf(b) && IsValidCode(b.score)
    ensures Hit(b).1 > 0 <==> Live(b)
    ensures Hit(b).1 >= 0
  {
    if Live(b) {
      ValidDestructibleIsPositive(b.score);
    }
  }

  /** Setting an allowed code gives the brick `init` would build with that
      code in the same place. */
  lemma SetScoreValueIsInit(b: Brick, score: int)
    requires IsValidCode(score)
    ensures SetScoreValue(b, score) == Init(b.slot, score)
  {
  }

  /** Deactivating is final: a deactivated brick is empty and inactive, and
      deactivating it again changes nothing. */
  lemma DeactivateIsFinal(b: Brick, indestructible: bool)
    requires Wf(b)
    ensures var b1 := SetActive(b, false, indestructible);
            !b1.active && b1.score == Empty && SetActive(b1, false, indestructible) == b1
  {
  }
}
