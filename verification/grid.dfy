/** The level design matrix `m_gridState[GRID_ROWS][GRID_COLS]`, indexed
    [logical row][column] with logical row 0 the top tier. */
module Grid {

  import opened Codes

  predicate IsShape(g: seq<seq<int>>) {
    |g| == Rows && forall r :: 0 <= r < |g| ==> |g[r]| == Cols
  }

  /** The fixed-size C++ array: always Rows x Cols. */
  type Matrix = g: seq<seq<int>> | IsShape(g) witness seq(8, _ => seq(14, _ => 0))

  predicate InBounds(r: int, c: int) {
    0 <= r < Rows && 0 <= c < Cols
  }

  /** Every cell holds a code of the allowed set. */
  predicate AllValid(g: Matrix) {
    forall r, c :: 0 <= r < Rows && 0 <= c < Cols ==> IsValidCode(g[r][c])
  }

  /** The all-empty matrix the `Level` constructor starts from. */
  function Zeros(): (g: Matrix)
    ensures AllValid(g)
    ensures forall r, c :: InBounds(r, c) ==> g[r][c] == Empty
  {
    seq(Rows, _ => seq(Cols, _ => Empty))
  }

  /** Writes one cell and leaves every other cell alone. */
  function Update(g: Matrix, r: int, c: int, v: int): (g': Matrix)
    requires InBounds(r, c)
    ensures g'[r][c] == v
    ensures forall r', c' :: InBounds(r', c') && (r', c') != (r, c) ==> g'[r'][c'] == g[r'][c']
  {
    g[r := g[r][c := v]]
  }

  /** Writing the value a cell already holds leaves the matrix as it is. */
  lemma UpdateUnchanged(g: Matrix, r: int, c: int)
    requires InBounds(r, c)
    ensures Update(g, r, c, g[r][c]) == g
  {
    assert g[r][c := g[r][c]] == g[r];
  }

  lemma UpdateKeepsValid(g: Matrix, r: int, c: int, v: int)
    requires InBounds(r, c) && IsValidCode(v)
    ensures AllValid(g) ==> AllValid(Update(g, r, c, v))
  {
  }

  /** The row flip between logical rows (0 = top tier) and visual rows
      (0 = bottom of the drawn grid), shared by `setupBricks` and the editor.
      It is its own inverse. */
  function Flip(row: int): (v: int)
    ensures v + row == Rows - 1
    ensures 0 <= row < Rows <==> 0 <= v < Rows
  {
    Rows - 1 - row
  }

  /** Number of destructible codes in a row (counted from the back, as a
      left-to-right scan accumulates them). */
  function CountRow(row: seq<int>): (n: nat)
    ensures n <= |row|
  {
    if |row| == 0 then 0
    else CountRow(row[..|row| - 1]) + (if IsDestructibleCode(row[|row| - 1]) then 1 else 0)
  }

  /** Number of destructible codes in a sequence of rows. */
  function CountRows(rows: seq<seq<int>>): nat
  {
    if |rows| == 0 then 0
    else CountRows(rows[..|rows| - 1]) + CountRow(rows[|rows| - 1])
  }
}
