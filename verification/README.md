# Breakout level grid and brick state, in Dafny

This project models the integer core of the Breakout game in
`breakout.cpp`. It covers four parts:

- **Bricks** (class `Brick`). Each brick holds an integer score code and an
  `active` flag. The model covers the default constructor, `init`, `hit`,
  `setActive`, `setScoreValue` and `isIndestructible`. The brick's float
  rectangle is replaced by the grid cell it was placed in.
- **Level bookkeeping** (class `Level`). This covers the 8 x 14 design matrix
  `m_gridState` and the flat brick vector that `setupBricks` builds from it.
  It also covers the active-brick counter, the `processBrickHit` rule and
  the `areAllBricksCleared` win test.
- **Persistence** (`save` and `load`). The file is modelled as its text:
  `Option<string>`, where `None` means the file could not be opened.
  `operator<<` on an `int` is modelled as decimal printing. `operator>>`
  into an `int` is modelled as follows:
  - skip `isspace` characters;
  - read an optional sign and the longest run of decimal digits;
  - fail when there is no digit or the value is outside the 32-bit range;
  - once the stream has failed, it stays failed.
- **Editor mutators**: `hasEditorSelection`, the left-click selection
  handler, `handleEditorRightClickPlace`, `clearSelectedBrick` and
  `setGridState`. For the selection handler, the float mouse arithmetic is
  replaced by an input of type `Option<(visualRow, visualCol)>`. `None`
  means the mouse is outside the grid's bounding box or in a spacing gap.

Modules, one per concern:

| file | module | contents |
|---|---|---|
| `wrappers.dfy` | `Wrappers` | `Option` |
| `codes.dfy` | `Codes` | grid size, the score codes, the allowed set {0, -1, 1, 3, 5, 7}, 32-bit range |
| `brick.dfy` | `Bricks` | the `Brick` state machine |
| `grid.dfy` | `Grid` | the matrix type, cell update, the logical/visual row flip, counting destructible cells |
| `level.dfy` | `Levels` | the `Level` record, `setupBricks`, `processBrickHit`, the counter invariant |
| `editor.dfy` | `Editor` | selection, placement, clearing, direct cell writes |
| `text.dfy` | `Text` | printing and reading a decimal `int`, splitting at a delimiter |
| `level_file.dfy` | `LevelFile` | `save`, `load`, the save/load round trip, the missing-file default |
| `load_loop.dfy` | `LoadLoop` | `load` on an arbitrary text, described extraction by extraction |

The level invariant `Levels.Inv` has three parts:

- every matrix cell and every brick code is in the allowed set;
- every brick is active exactly when its code is not 0;
- the counter equals the number of active bricks that are not indestructible.

`setupBricks` establishes the invariant on a valid matrix, and
`processBrickHit` preserves it.

## Model

| member | source | states |
|---|---|---|
| Bricks.NewBrick | breakout.cpp:1040-1044 | a default-constructed brick is inactive, with code 0 |
| Bricks.Init | breakout.cpp:1052-1056 | `init` stores the code unvalidated and places the brick; active iff the code is not 0; the brick is counted (active and not indestructible) iff the code is neither 0 nor -1 |
| Bricks.Hit | breakout.cpp:1070-1082 | an inactive or indestructible brick is returned unchanged with 0 points; otherwise the prior code is awarded and the brick, in the same place, becomes inactive with code 0; the result is never a live brick and keeps the active-iff-nonzero invariant |
| Bricks.HitIsFinal | breakout.cpp:1070-1082 | a second hit awards 0 and changes nothing |
| Bricks.HitAwardsIffLive | breakout.cpp:1070-1082 | for a brick with an allowed code, a hit awards a positive amount exactly when the brick was active and destructible, and never a negative amount |
| Bricks.SetActive | breakout.cpp:1113-1123 | activating an inactive brick gives -1 (active) with `indestructible`, and code 0 (still inactive) without it; deactivating an active brick empties it, even an indestructible one; when the flag is already as requested, nothing changes |
| Bricks.DeactivateIsFinal | breakout.cpp:1113-1123 | after deactivation the brick is inactive with code 0, and deactivating again is a no-op |
| Bricks.SetScoreValue | breakout.cpp:1128-1143 | an allowed code is stored and the active flag follows it; any other value leaves the brick unchanged |
| Bricks.SetScoreValueIsInit | breakout.cpp:1128-1143 | with an allowed code, `setScoreValue` yields exactly the brick `init` builds in the same place |
| Grid.Zeros | breakout.cpp:1176-1179 | every cell of the starting matrix is 0, so every cell holds an allowed code |
| Editor.Clamp | breakout.cpp:1461-1462 | `std::clamp` returns the input when it lies in [lo, hi], lo when it is below, and hi when it is above |
| Grid.Flip | breakout.cpp:1297 | the visual row of logical row r is R-1-r; it is in range iff r is, and flipping twice gives r back |
| Levels.NewLevel | breakout.cpp:1174-1180 | the constructor gives an all-zero matrix, R*C default-constructed bricks, counter 0 and no selection, and the level invariant holds |
| Levels.SetupBricks | breakout.cpp:1288-1308 | matrix and selection unchanged; brick k is `init` of cell (k / C, k mod C) at visual row R-1-(k / C); the counter equals the number of cells whose code is neither 0 nor -1, and equals the number of live bricks; on a valid matrix the level invariant holds |
| Levels.BrickPlacement | breakout.cpp:1292-1300 | brick r*C+c carries code m_gridState[r][c] and sits at visual row R-1-r, which flips back to r |
| Levels.ProcessBrickHit | breakout.cpp:1394-1409 | an out-of-range index, an inactive brick or an indestructible brick leaves the level unchanged and awards 0; a hit on an active brick stores exactly the brick `hit` returns and awards exactly what `hit` awards; the counter either stays or becomes max(0, counter-1); matrix, selection and all other bricks unchanged |
| Levels.ProcessBrickHitKeepsInv | breakout.cpp:1394-1409 | under the invariant, a hit on a live brick awards its positive code, leaves that brick inactive with code 0, and lowers the counter by exactly 1 without going below 0; any other index changes nothing; the invariant is preserved |
| Levels.SecondHitAwardsNothing | breakout.cpp:1394-1409 | hitting the same index twice awards nothing the second time |
| Levels.DistinctHitsCount | breakout.cpp:1394-1409 | N hits on N distinct live bricks lower the counter by exactly N and keep the invariant |
| Levels.ClearedIffNoLiveBrick | breakout.cpp:1558 | under the invariant, the test `counter <= 0` holds exactly when no brick is active and destructible |
| Editor.PlacementTier | breakout.cpp:1509-1512 | the placement tier of any row is an allowed, destructible code |
| Editor.SelectAt | breakout.cpp:1444-1487 | the result is 1 iff the (row, col) selection changed, else 0; only the selection changes; no cell deselects; a cell always leaves a selection inside the grid; an in-range visual cell (v, c) selects logical (R-1-v, c) |
| Editor.SelectBrickCell | breakout.cpp:1459-1466 | clicking the cell where `setupBricks` drew brick r*C+c selects logical cell (r, c) |
| Editor.SelectIsIdempotent | breakout.cpp:1444-1487 | repeating the same click reports no change and leaves the level as it is |
| Editor.PlaceAtSelection | breakout.cpp:1496-1516 | without a selection, nothing changes and the result is false; otherwise the result is true and the selected cell gets -1 with shift, or a destructible tier without; all other cells and fields unchanged; a valid matrix stays valid |
| Editor.PlaceIsGridWrite | breakout.cpp:1496-1516 | placement equals a direct cell write, at the selection, of -1 or the row's tier |
| Editor.ClearSelectedBrick | breakout.cpp:1520-1524 | without a selection, nothing changes; otherwise the selected cell becomes 0 and nothing else changes |
| Editor.ClearIsGridWrite | breakout.cpp:1520-1524 | clearing equals a direct write of 0 at the selection, and clearing twice equals clearing once |
| Editor.SetGridState | breakout.cpp:1578-1593 | out of bounds is a no-op; in bounds an allowed code is stored, and any other value is stored as 0; other cells unchanged; a valid matrix stays valid |
| Text.ReadPrinted | breakout.cpp:1256 | extracting an `int` from the printed text of a 32-bit value gives back that value and stops right after it, when no digit follows |
| Text.IntToString | breakout.cpp:1256 | `operator<<` on an `int` writes the canonical decimal text: "0" for zero, otherwise a '-' exactly when the value is negative, then digits only with no leading zero (read back by `Text.ReadPrinted`) |
| Text.ReadInt | breakout.cpp:1212 | a successful `operator>>` into an `int` yields a 32-bit value and consumes at least one character |
| Text.ReadPrintedOutOfRange | breakout.cpp:1212 | extracting a number that does not fit in a 32-bit `int` fails |
| Text.ReadFailsOnBlank | breakout.cpp:1212 | extracting from text that holds only white space (or nothing) fails |
| Text.ReadFailsOnNonNumber | breakout.cpp:1212 | extracting fails when the first character is not white space, not a digit, and not a sign directly followed by a digit |
| LevelFile.Save | breakout.cpp:1247-1262 | the text `save` writes splits at newlines into exactly one line per matrix row, each that row's text, with nothing after the final newline |
| LevelFile.RowTextSplits | breakout.cpp:1255-1257 | a saved row splits at spaces into exactly the printed codes, in order: single separators, no trailing space |
| LevelFile.SaveRowsSplits | breakout.cpp:1254-1259 | saved rows split at newlines into one line per row, with nothing after the last newline |
| LevelFile.SaveLayout | breakout.cpp:1254-1259 | `save` writes exactly R lines, each ended by `\n`; line r is the C codes of row r joined by single spaces |
| LevelFile.ReadCell | breakout.cpp:1212-1227 | one loop step always stores an allowed code; it reports success only while the stream stays readable; once the stream has failed it stores 0 |
| LevelFile.ReadCells | breakout.cpp:1211-1229 | the inner loop over n cells stores n allowed codes, and a successful non-empty row leaves the stream readable |
| LevelFile.ReadRows | breakout.cpp:1210-1230 | the nested loop stores n rows of `width` cells, each cell an allowed code |
| LevelFile.DefaultLayout | breakout.cpp:1194-1202 | the missing-file layout holds code 7 in rows 0-1, 5 in rows 2-3, 3 in rows 4-5 and 1 in rows 6-7, all allowed codes |
| LevelFile.Load | breakout.cpp:1190-1235 | every stored cell is an allowed code; bricks and counter untouched; a missing file gives the default layout, true, that layout's text written back, and the selection kept; an opened file clears the selection and writes nothing |
| LevelFile.FailureIsSticky | breakout.cpp:1212-1215 | after a failed extraction, every remaining cell of the row is 0 and the row reports failure |
| LevelFile.FailedRowsAreEmpty | breakout.cpp:1210-1215 | after a failed extraction, every remaining row is all 0 and the load reports failure |
| LevelFile.FailedStartRows | breakout.cpp:1210-1230 | when the first extraction fails, the load loop stores 0 in every cell of every row and reports failure |
| LevelFile.BadFirstTokenLoadsZeros | breakout.cpp:1210-1234 | a file whose first token cannot be read as an `int` loads as the all-zero matrix, and `load` returns false |
| LevelFile.BlankFileFails | breakout.cpp:1210-1234 | an empty or all-white-space file loads as the all-zero matrix, and `load` returns false |
| LevelFile.ReadCellPrinted | breakout.cpp:1212-1223 | one loop step on a printed code stores that code if allowed and 0 otherwise, flags success iff it is allowed, and leaves the stream right after it |
| LevelFile.ReadCellSkipsSpace | breakout.cpp:1212 | white space before a token does not change what one loop step stores or flags |
| LevelFile.SaveLoadRoundTrip | breakout.cpp:1210-1234 | loading the saved text of any 32-bit matrix stores each code if allowed and 0 otherwise, and returns true iff every code was allowed |
| LevelFile.SaveLoadIdentity | breakout.cpp:1210-1234 | a matrix of allowed codes survives save then load unchanged, and load returns true |
| LevelFile.MissingFileCreatesDefault | breakout.cpp:1192-1205 | a missing file yields the default layout (rows 0-1 code 7, 2-3 code 5, 4-5 code 3, 6-7 code 1, by `LevelFile.DefaultLayout`) and true; the text written for it loads back to the same layout with true |
| LevelFile.PlacementMatchesDefault | breakout.cpp:1196-1199 | right-click placement and the missing-file default use the same row-to-tier rule |
| LoadLoop.ReadCellOutcome | breakout.cpp:1212-1227 | when a number v is read, the cell gets v if allowed and 0 otherwise, and the step fails exactly under the source's rule `!valid && v != 0`, which is the same as v not being allowed; when nothing can be read, the cell gets 0 and the step and the stream fail |
| LoadLoop.ReadCellsByIndex | breakout.cpp:1211-1229 | the inner loop stores in cell i the code of extraction i and succeeds iff every extraction did |
| LoadLoop.LoadByCell | breakout.cpp:1210-1234 | for any file text, cell (r, c) holds the code of extraction c of row r, load returns true iff every one of the R*C extractions read an allowed code, and the selection is cleared |
| LoadLoop.FailureStaysFailed | breakout.cpp:1212-1215 | once an extraction fails, every later extraction stores 0 and fails as well |

## Left out

- Float geometry is not modelled: brick rectangles, `calculateGridDimensions`
  and the mouse-to-cell arithmetic of the selection handler. This is
  floating-point layout. A brick's position is its `Slot`, and the selection
  handler takes the cell the mouse maps to, or `None`.
- Not modelled because they are floating-point physics with epsilon
  tolerances: collisions (`Level::checkCollisions`, `Ball::update`,
  `Ball::checkCollisionPaddle`), the paddle and the ball.
- Not modelled because they are I/O, timing, randomness or foreign
  libraries: the `Game` loop, state switching, input handling, rendering,
  text rendering and texture loading.
- `getBrickColorByScore` and the brick colour are not modelled; they are a
  table of float colour constants.
- Opening and writing real files is not modelled. `load` takes the file
  text, or `None` when the file cannot be opened. Its result carries the
  text it writes back. The `bool` returned by `save` after a failed open is
  not modelled.
- Console warnings printed by `load`, `setScoreValue` and `setGridState` are
  not modelled.
- `LevelFile.Load`: the stream's state after the last cell is not modelled,
  because `load` closes the file and never reads it again.
- `isIndestructible` and `areAllBricksCleared` are predicates
  (`Bricks.IsIndestructible`, `Levels.AreAllBricksCleared`). Their contracts
  are stated by the members that use them. `hasEditorSelection` is
  `Editor.HasSelection` in the same way.
- `operator>>` is modelled for the "C" locale only: ASCII white space and
  decimal digits, no thousands separators.
- Where a numeric read fails, C++ writes 0 or the clamped limit into the
  target. The model does not record that value, because `load` stores 0 in
  that case regardless.

## Behaviour worth noting

The model keeps each of these behaviours of the code as written:

- `setGridState` (breakout.cpp:1578-1593) stores 0, with a warning, when
  the code is outside the allowed set. Its own comment at breakout.cpp:1576
  says the value "must be valid", but the code does not enforce that by
  leaving the cell alone (`Editor.SetGridState`).
- `setActive(false)` (breakout.cpp:1113-1123) empties an active brick
  whatever its code. That includes an indestructible brick, which ends
  inactive with code 0 (`Bricks.SetActive`, `Bricks.DeactivateIsFinal`).
- `setActive(true)` on an inactive brick without `indestructible`
  (breakout.cpp:1114-1116) sets the code to 0, so the brick stays inactive.
- `areAllBricksCleared` (breakout.cpp:1558) tests `counter <= 0`. Under the
  level invariant the counter is never negative, so the test holds exactly
  when no live brick is left (`Levels.ClearedIffNoLiveBrick`).
- On the missing-file path of `load` (breakout.cpp:1192-1205) the editor
  selection is kept. Only the opened-file path clears it
  (breakout.cpp:1232-1233).
