/** The level editor's operations on `Level`: cell selection, placement,
    clearing and direct cell writes. They change only the matrix and the
    selection, never the bricks or the counter. */
module Editor {

  import opened Wrappers
  import opened Codes
  import opened Grid
  import opened Levels

  /** `hasEditorSelection`: the selection lies inside the grid. */
  predicate HasSelection(l: Level) {
    InBounds(l.selRow, l.selCol)
  }

  /** `std::clamp(v, lo, hi)`. */
  function Clamp(v: int, lo: int, hi: int): (r: int)
    requires lo <= hi
    ensures lo <= r <= hi
    ensures lo <= v <= hi ==> r == v
    ensures v < lo ==> r == lo
    ensures hi < v ==> r == hi
  {
    if v < lo then lo else if hi < v then hi else v
  }

  /** The tier right-click places in a logical row: 7 for rows 0-1, 5 for
      2-3, 3 for 4-5, and 1 from row 6 on. */
  function PlacementTier(row: int): (s: int)
    ensures IsValidCode(s) && IsDestructibleCode(s)
  {
    if row < 2 then ScoreRed
    else if row < 4 then ScoreOrange
    else if row < 6 then ScoreGreen
    else ScoreYellow
  }

  /** `handleEditorLeftClickSelection` with the float mouse arithmetic
      abstracted: `cell` is None when the mouse is outside the grid's
      bounding box or in a spacing gap, otherwise the visual (row, column)
      obtained by truncating the mouse offset by the cell pitch. The
      column and row are clamped into the grid and the visual row flipped
      to a logical one. Returns the new level and 1 when the selection
      changed, 0 otherwise. */
  function SelectAt(l: Level, cell: Option<(int, int)>): (res: (Level, int))
    ensures res.1 == 1 <==> (res.0.selRow, res.0.selCol) != (l.selRow, l.selCol)
    ensures res.1 == 0 || res.1 == 1
    ensures res.0 == l.(selRow := res.0.selRow, selCol := res.0.selCol)
    ensures cell.None? ==> res.0.selRow == -1 && res.0.selCol == -1
    ensures cell.Some? ==> HasSelection(res.0)
    ensures cell.Some? && InBounds(cell.value.0, cell.value.1) ==>
              res.0.selRow == Flip(cell.value.0) && res.0.selCol == cell.value.1
  {
    match cell
    case None =>
      if l.selRow != -1 || l.selCol != -1 then (l.(selRow := -1, selCol := -1), 1)
      else (l, 0)
    case Some((rawRow, rawCol)) =>
      var visualCol := Clamp(rawCol, 0, Cols - 1);
      var visualRow := Clamp(rawRow, 0, Rows - 1);
      var logicalRow := Flip(visualRow);
      var logicalCol := visualCol;
      if l.selRow != logicalRow || l.selCol != logicalCol then
        (l.(selRow := logicalRow, selCol := logicalCol), 1)
      else (l, 0)
  }

  /** Clicking the cell where `setupBricks` drew brick r * Cols + c selects
      logical cell (r, c): the editor's flip undoes the placement flip. */
  lemma SelectBrickCell(l: Level, g: Matrix, r: int, c: int)
    requires InBounds(r, c)
    ensures var b := BuildBricks(g)[r * Cols + c];
            var res := SelectAt(l, Some((b.slot.visualRow, b.slot.col)));
            res.0.selRow == r && res.0.selCol == c
  {
    BrickPlacement(g, r, c);
  }

  /** `handleEditorRightClickPlace`: writes -1 (shift held) or the row's tier
      at the selection; returns false and changes nothing without one. */
  function PlaceAtSelection(l: Level, shiftDown: bool): (res: (Level, bool))
    ensures !HasSelection(l) ==> res == (l, false)
    ensures HasSelection(l) ==> res.1 && res.0 == l.(grid := res.0.grid)
    ensures HasSelection(l) && shiftDown ==> res.0.grid[l.selRow][l.selCol] == ScoreIndestructible
    ensures HasSelection(l) && !shiftDown ==> IsDestructibleCode(res.0.grid[l.selRow][l.selCol])
    ensures forall r, c :: InBounds(r, c) && (r, c) != (l.selRow, l.selCol) ==> res.0.grid[r][c] == l.grid[r][c]
    ensures AllValid(l.grid) ==> AllValid(res.0.grid)
  {
    if !HasSelection(l) then (l, false)
    else
      var score := if shiftDown then ScoreIndestructible else PlacementTier(l.selRow);
      UpdateKeepsValid(l.grid, l.selRow, l.selCol, score);
      (l.(grid := Update(l.grid, l.selRow, l.selCol, score)), true)
  }

  /** `clearSelectedBrick`: empties the selected cell; no-op without a
      selection. */
  function ClearSelectedBrick(l: Level): (l': Level)
    ensures !HasSelection(l) ==> l' == l
    ensures l' == l.(grid := l'.grid)
    ensures HasSelection(l) ==> l'.grid[l.selRow][l.selCol] == Empty
    ensures forall r, c :: InBounds(r, c) && (r, c) != (l.selRow, l.selCol) ==> l'.grid[r][c] == l.grid[r][c]
    ensures AllValid(l.grid) ==> AllValid(l'.grid)
  {
    if HasSelection(l) then
      UpdateKeepsValid(l.grid, l.selRow, l.selCol, Empty);
      l.(grid := Update(l.grid, l.selRow, l.selCol, Empty))
    else l
  }

  /** `setGridState(row, col, score)`: out of bounds does nothing; an
      invalid code is stored as 0 rather than rejected. */
  function SetGridState(l: Level, row: int, col: int, score: int): (l': Level)
    ensures !InBounds(row, col) ==> l' == l
    ensures l' == l.(grid := l'.grid)
    ensures InBounds(row, col) && IsValidCode(score) ==> l'.grid[row][col] == score
    ensures InBounds(row, col) && !IsValidCode(score) ==> l'.grid[row][col] == Empty
    ensures forall r, c :: InBounds(r, c) && (r, c) != (row, col) ==> l'.grid[r][c] == l.grid[r][c]
    ensures AllValid(l.grid) ==> AllValid(l'.grid)
  {
    if InBounds(row, col) then
      var v := Sanitize(score);
      UpdateKeepsValid(l.grid, row, col, v);
      l.(grid := Update(l.grid, row, col, v))
    else l
  }

  /** Repeating a click on the same cell (or outside the grid again)
      reports no change: selection is idempotent. */
  lemma SelectIsIdempotent(l: Level, cell: Option<(int, int)>)
    ensures var l1 := SelectAt(l, cell).0;
            SelectAt(l1, cell) == (l1, 0)
  {
  }

  /** Right-click placement is a direct cell write at the selection of the
      tier (or -1) it chooses. */
  lemma PlaceIsGridWrite(l: Level, shiftDown: bool)
    requires HasSelection(l)
    ensures PlaceAtSelection(l, shiftDown).0 ==
            SetGridState(l, l.selRow, l.selCol, if shiftDown then ScoreIndestructible else PlacementTier(l.selRow))
  {
  }

  /** Clearing the selected brick is a direct write of 0 at the selection,
      and a second clear changes nothing. */
  lemma ClearIsGridWrite(l: Level)
    requires HasSelection(l)
    ensures ClearSelectedBrick(l) == SetGridState(l, l.selRow, l.selCol, Empty)
    ensures ClearSelectedBrick(ClearSelectedBrick(l)) == ClearSelectedBrick(l)
  {
    var l1 := ClearSelectedBrick(l);
    UpdateUnchanged(l1.grid, l.selRow, l.selCol);
  }
}
