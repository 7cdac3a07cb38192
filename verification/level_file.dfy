/** Level persistence (`Level::save` and `Level::load`): the matrix as
    Rows lines of Cols space-separated integers, read back with stream
    extraction. The file is modelled as its text, `None` when it cannot be
    opened. */
module LevelFile {

  import opened Wrappers
  import opened Codes
  import opened Grid
  import opened Levels
  import opened Text
  import Editor

  /** One saved row: the codes separated by single spaces, no trailing
      space. */
  function RowText(row: seq<int>): string
    decreases |row|
  {
    if |row| == 0 then ""
    else IntToString(row[0]) + (if |row| == 1 then "" else " ") + RowText(row[1..])
  }

  /** Saved rows: each row's text followed by a newline. */
  function SaveRows(rows: seq<seq<int>>): string
    decreases |rows|
  {
    if |rows| == 0 then "" else RowText(rows[0]) + "\n" + SaveRows(rows[1..])
  }

  /** `save`: the text written over the level file. It splits at newlines
      into one line per row of the matrix, with nothing after the last
      newline. */
  function Save(l: Level): (s: string)
    ensures Split(s, '\n') == RowTexts(l.grid) + [""]
  {
    SaveRowsSplits(l.grid);
    SaveRows(l.grid)
  }

  lemma {:induction false} RowTextHasNoNewline(row: seq<int>)
    ensures '\n' !in RowText(row)
    decreases |row|
  {
    if |row| > 0 {
      RowTextHasNoNewline(row[1..]);
      var head := IntToString(row[0]);
      assert '\n' !in head by {
        PrintedHasNoSpace(row[0]);
        assert forall i :: 0 <= i < |head| ==> head[i] != '\n';
      }
    }
  }

  /** The printed form of each code of a row, in order. */
  function PrintedCodes(row: seq<int>): (tokens: seq<string>)
    ensures |tokens| == |row|
  {
    seq(|row|, c requires 0 <= c < |row| => IntToString(row[c]))
  }

  lemma PrintedCodesFront(row: seq<int>)
    requires |row| > 0
    ensures PrintedCodes(row) == [IntToString(row[0])] + PrintedCodes(row[1..])
  {
  }

  /** A saved row splits at its spaces into exactly the printed codes: single
      separators and no trailing space. */
  lemma {:induction false} RowTextSplits(row: seq<int>)
    requires |row| > 0
    ensures Split(RowText(row), ' ') == PrintedCodes(row)
    decreases |row|
  {
    var head := IntToString(row[0]);
    assert ' ' !in head by {
      PrintedHasNoSpace(row[0]);
      assert forall i :: 0 <= i < |head| ==> head[i] != ' ';
    }
    PrintedCodesFront(row);
    if |row| == 1 {
      RowTextSingle(row);
      assert PrintedCodes(row[1..]) == [];
    } else {
      RowTextSplits(row[1..]);
      RowTextUnfold(row);
      SplitFront(head, ' ', RowText(row[1..]));
    }
  }

  /** The text of each row, in order. */
  function RowTexts(rows: seq<seq<int>>): (lines: seq<string>)
    ensures |lines| == |rows|
  {
    seq(|rows|, r requires 0 <= r < |rows| => RowText(rows[r]))
  }

  lemma RowTextsFront(rows: seq<seq<int>>)
    requires |rows| > 0
    ensures RowTexts(rows) == [RowText(rows[0])] + RowTexts(rows[1..])
  {
  }

  /** Saved rows split at newlines into one line per row and nothing after
      the last newline. */
  lemma {:induction false} SaveRowsSplits(rows: seq<seq<int>>)
    ensures Split(SaveRows(rows), '\n') == RowTexts(rows) + [""]
    decreases |rows|
  {
    if |rows| > 0 {
      SaveRowsSplits(rows[1..]);
      RowTextHasNoNewline(rows[0]);
      SaveRowsDef(rows);
      SplitFront(RowText(rows[0]), '\n', SaveRows(rows[1..]));
      RowTextsFront(rows);
      assert [RowText(rows[0])] + (RowTexts(rows[1..]) + [""]) == RowTexts(rows) + [""];
    } else {
      assert SaveRows(rows) == "";
      assert RowTexts(rows) == [];
    }
  }

  /** The saved file has exactly Rows lines, each ended by a newline, and
      line r holds the Cols codes of row r joined by single spaces. */
  lemma SaveLayout(l: Level)
    ensures Split(Save(l), '\n') == RowTexts(l.grid) + [""]
    ensures forall r :: 0 <= r < Rows ==> Split(RowText(l.grid[r]), ' ') == PrintedCodes(l.grid[r])
  {
    SaveRowsSplits(l.grid);
    forall r | 0 <= r < Rows
      ensures Split(RowText(l.grid[r]), ' ') == PrintedCodes(l.grid[r])
    {
      RowTextSplits(l.grid[r]);
    }
  }

  /** The input stream: still readable with the text left, or failed. A
      failed `std::ifstream` stays failed, so every later extraction fails. */
  datatype Stream = Open(rest: string) | Failed

  datatype Scan<T> = Scan(value: T, ok: bool, next: Stream)

  /** One iteration of the load loop: the code stored in the cell, whether
      the cell was read without complaint, and the stream afterwards. A value
      that was read is stored only if it is in the allowed set. */
  function ReadCell(st: Stream): (res: (int, bool, Stream))
    ensures IsValidCode(res.0)
    ensures res.1 ==> res.2.Open?
    ensures res.2.Failed? ==> res.0 == Empty
  {
    match st
    case Failed => (Empty, false, Failed)
    case Open(text) =>
      match ReadInt(text)
      case None => (Empty, false, Failed)
      case Some((v, rest)) => (Sanitize(v), IsValidCode(v), Open(rest))
  }

  /** `n` iterations of the load loop. The stream is listed in the
      termination measure only so that calls with a constant count are not
      evaluated eagerly by the verifier; `n` alone decreases. */
  function ReadCells(st: Stream, n: nat): (res: Scan<seq<int>>)
    ensures |res.value| == n
    ensures forall i :: 0 <= i < n ==> IsValidCode(res.value[i])
    ensures n > 0 && res.ok ==> res.next.Open?
    decreases n, st
  {
    if n == 0 then Scan([], true, st)
    else
      var cell := ReadCell(st);
      var tail := ReadCells(cell.2, n - 1);
      Scan([cell.0] + tail.value, cell.1 && tail.ok, tail.next)
  }

  /** The nested load loop over `n` rows of `width` cells (the stream is in
      the termination measure for the same reason as in `ReadCells`). */
  function ReadRows(st: Stream, n: nat, width: nat): (res: Scan<seq<seq<int>>>)
    ensures |res.value| == n
    ensures forall r :: 0 <= r < n ==> |res.value[r]| == width
    ensures forall r, c :: 0 <= r < n && 0 <= c < width ==> IsValidCode(res.value[r][c])
    decreases n, st
  {
    if n == 0 then Scan([], true, st)
    else
      var row := ReadCells(st, width);
      var rest := ReadRows(row.next, n - 1, width);
      var rows := [row.value] + rest.value;
      assert forall r :: 1 <= r < n ==> rows[r] == rest.value[r - 1];
      Scan(rows, row.ok && rest.ok, rest.next)
  }

  /** The tier the missing-file branch writes in a logical row. */
  function DefaultTier(row: int): int
  {
    if row < 2 then ScoreRed
    else if row < 4 then ScoreOrange
    else if row < 6 then ScoreGreen
    else if row < 8 then ScoreYellow
    else Empty
  }

  /** The layout created when the level file is missing. */
  function DefaultLayout(): (g: Matrix)
    ensures AllValid(g)
    ensures forall r, c :: InBounds(r, c) ==>
              g[r][c] == (if r < 2 then 7 else if r < 4 then 5 else if r < 6 then 3 else 1)
  {
    seq(Rows, r => seq(Cols, _ => DefaultTier(r)))
  }

  /** Outcome of `load`: the level afterwards, the returned flag and the text
      written back to the file, if any. */
  datatype LoadResult = LoadResult(level: Level, ok: bool, written: Option<string>)

  /** `load`. A missing file yields the default layout, which is saved, and
      `true`; an opened file is read cell by cell and the editor selection is
      cleared. Bricks and counter are not touched. */
  function Load(l: Level, file: Option<string>): (res: LoadResult)
    ensures AllValid(res.level.grid)
    ensures res.level.bricks == l.bricks && res.level.activeCount == l.activeCount
    ensures file.None? ==> res.ok && res.level.grid == DefaultLayout()
    ensures file.None? ==> res.level.selRow == l.selRow && res.level.selCol == l.selCol
    ensures file.None? ==> res.written == Some(Save(res.level))
    ensures file.Some? ==> res.level.selRow == -1 && res.level.selCol == -1 && res.written.None?
  {
    match file
    case None =>
      var l' := l.(grid := DefaultLayout());
      LoadResult(l', true, Some(Save(l')))
    case Some(text) =>
      var scan := ReadRows(Open(text), Rows, Cols);
      LoadResult(l.(grid := scan.value, selRow := -1, selCol := -1), scan.ok, None)
  }

  /** Once an extraction has failed, every remaining cell is 0 and the load
      reports failure. */
  lemma {:induction false} FailureIsSticky(n: nat)
    ensures ReadCells(Failed, n) == Scan(seq(n, _ => Empty), n == 0, Failed)
  {
    if n > 0 {
      FailureIsSticky(n - 1);
      var tail := ReadCells(Failed, n - 1);
      assert ReadCell(Failed) == (Empty, false, Failed);
      assert ReadCells(Failed, n) == Scan([Empty] + tail.value, false, tail.next);
      assert [Empty] + seq(n - 1, _ => Empty) == seq(n, _ => Empty);
    } else {
      assert seq(0, _ => Empty) == [];
    }
  }

  lemma {:induction false} FailedRowsAreEmpty(n: nat)
    ensures ReadRows(Failed, n, Cols).value == seq(n, _ => seq(Cols, _ => Empty))
    ensures ReadRows(Failed, n, Cols).ok == (n == 0)
  {
    if n > 0 {
      FailureIsSticky(Cols);
      FailedRowsAreEmpty(n - 1);
      assert [seq(Cols, _ => Empty)] + seq(n - 1, _ => seq(Cols, _ => Empty)) == seq(n, _ => seq(Cols, _ => Empty));
    }
  }

  /** When the first extraction fails, every row of the load loop is all 0
      and the loop reports failure. */
  lemma FailedStartRows(text: string, n: nat)
    requires ReadInt(text).None? && n > 0
    ensures ReadRows(Open(text), n, Cols).value == seq(n, _ => seq(Cols, _ => Empty))
    ensures !ReadRows(Open(text), n, Cols).ok
  {
    ReadRowsUnfold(Open(text), n, Cols);
    ReadCellsUnfold(Open(text), Cols);
    FailureIsSticky(Cols - 1);
    FailedRowsAreEmpty(n - 1);
    var row := ReadCells(Open(text), Cols);
    assert [Empty] + seq(Cols - 1, _ => Empty) == seq(Cols, _ => Empty);
    assert row.value == seq(Cols, _ => Empty);
    assert row.next == Failed;
    assert [row.value] + seq(n - 1, _ => seq(Cols, _ => Empty)) == seq(n, _ => seq(Cols, _ => Empty));
  }

  /** A file whose first token is not a number (or that holds no token at
      all) loads as the all-zero matrix, and `load` returns false. */
  lemma BadFirstTokenLoadsZeros(l: Level, text: string)
    requires ReadInt(text).None?
    ensures Load(l, Some(text)).level.grid == Zeros()
    ensures !Load(l, Some(text)).ok
  {
    LoadOpened(l, text);
    FailedStartRows(text, Rows);
    MatrixEq(Load(l, Some(text)).level.grid, Zeros());
  }

  /** A file holding only white space loads as the all-zero matrix, and
      `load` returns false. */
  lemma BlankFileFails(l: Level, text: string)
    requires forall i :: 0 <= i < |text| ==> IsSpace(text[i])
    ensures Load(l, Some(text)).level.grid == Zeros()
    ensures !Load(l, Some(text)).ok
  {
    ReadFailsOnBlank(text);
    BadFirstTokenLoadsZeros(l, text);
  }

  /** White space in front of a cell is skipped by the extraction. */
  lemma ReadCellSkipsSpace(ch: char, text: string)
    requires IsSpace(ch)
    ensures ReadCell(Open([ch] + text)) == ReadCell(Open(text))
  {
    ReadSkipsSpace(ch, text);
  }

  lemma SkipSpaceCells(ch: char, text: string, n: nat)
    requires IsSpace(ch) && n > 0
    ensures ReadCells(Open([ch] + text), n) == ReadCells(Open(text), n)
  {
    ReadCellSkipsSpace(ch, text);
    ReadCellsUnfold(Open([ch] + text), n);
    ReadCellsUnfold(Open(text), n);
  }

  predicate RowInInt32(row: seq<int>) {
    forall c :: 0 <= c < |row| ==> InInt32(row[c])
  }

  predicate RowValid(row: seq<int>) {
    forall c :: 0 <= c < |row| ==> IsValidCode(row[c])
  }

  lemma RowInInt32Tail(row: seq<int>)
    requires |row| > 0 && RowInInt32(row)
    ensures RowInInt32(row[1..])
  {
  }

  function SanitizeRow(row: seq<int>): seq<int>
  {
    seq(|row|, c requires 0 <= c < |row| => Sanitize(row[c]))
  }

  /** One extraction of a printed code stores it, sanitised, and leaves the
      stream right after it. */
  lemma ReadCellPrinted(v: int, rest: string)
    requires InInt32(v) && EndsNumber(rest)
    ensures ReadCell(Open(IntToString(v) + rest)) == (Sanitize(v), IsValidCode(v), Open(rest))
  {
    ReadPrinted(v, rest);
  }

  lemma ReadCellsUnfold(st: Stream, n: nat)
    requires n > 0
    ensures var cell := ReadCell(st);
            var tail := ReadCells(cell.2, n - 1);
            ReadCells(st, n) == Scan([cell.0] + tail.value, cell.1 && tail.ok, tail.next)
  {
  }

  lemma RowTextUnfold(row: seq<int>)
    requires |row| > 1
    ensures RowText(row) == IntToString(row[0]) + [' '] + RowText(row[1..])
  {
  }

  /** The text of a longer row: its first code, a space and the rest. */
  lemma RowTextFront(row: seq<int>, tail: string)
    requires |row| > 1
    ensures RowText(row) + tail == IntToString(row[0]) + ([' '] + (RowText(row[1..]) + tail))
  {
    RowTextUnfold(row);
    Regroup3(IntToString(row[0]), ' ', RowText(row[1..]), tail);
  }

  lemma RowTextSingle(row: seq<int>)
    requires |row| == 1
    ensures RowText(row) == IntToString(row[0])
  {
  }

  lemma SanitizeFront(row: seq<int>)
    requires |row| > 0
    ensures SanitizeRow(row) == [Sanitize(row[0])] + SanitizeRow(row[1..])
    ensures RowValid(row) == (IsValidCode(row[0]) && RowValid(row[1..]))
  {
    assert RowValid(row) ==> IsValidCode(row[0]) && RowValid(row[1..]);
    if IsValidCode(row[0]) && RowValid(row[1..]) {
      forall c | 0 <= c < |row|
        ensures IsValidCode(row[c])
      {
        if c > 0 {
          assert row[c] == row[1..][c - 1];
        }
      }
    }
  }

  lemma ReadSavedSingle(row: seq<int>, tail: string)
    requires |row| == 1 && RowInInt32(row)
    requires EndsNumber(tail)
    ensures ReadCells(Open(RowText(row) + tail), 1) == Scan(SanitizeRow(row), RowValid(row), Open(tail))
  {
    SanitizeFront(row);
    RowTextSingle(row);
    ReadCellPrinted(row[0], tail);
    ReadCellsUnfold(Open(RowText(row) + tail), 1);
    assert ReadCells(Open(tail), 0) == Scan([], true, Open(tail));
    assert SanitizeRow(row[1..]) == [];
  }

  lemma ReadSavedStep(row: seq<int>, tail: string)
    requires |row| > 1 && RowInInt32(row)
    requires ReadCells(Open(RowText(row[1..]) + tail), |row[1..]|) ==
             Scan(SanitizeRow(row[1..]), RowValid(row[1..]), Open(tail))
    ensures ReadCells(Open(RowText(row) + tail), |row|) == Scan(SanitizeRow(row), RowValid(row), Open(tail))
  {
    var more := RowText(row[1..]) + tail;
    SanitizeFront(row);
    RowTextFront(row, tail);
    ReadCellPrinted(row[0], [' '] + more);
    ReadCellsUnfold(Open(RowText(row) + tail), |row|);
    SkipSpaceCells(' ', more, |row| - 1);
  }

  /** Reading a saved row reproduces it with invalid codes replaced by 0, is
      clean exactly when all its codes are valid, and stops at the row's
      end. */
  lemma {:induction false} ReadSavedRow(row: seq<int>, tail: string)
    requires |row| > 0 && RowInInt32(row)
    requires EndsNumber(tail)
    ensures ReadCells(Open(RowText(row) + tail), |row|) == Scan(SanitizeRow(row), RowValid(row), Open(tail))
    decreases |row|
  {
    if |row| == 1 {
      ReadSavedSingle(row, tail);
    } else {
      RowInInt32Tail(row);
      ReadSavedRow(row[1..], tail);
      ReadSavedStep(row, tail);
    }
  }

  lemma ReadRowsUnfold(st: Stream, n: nat, width: nat)
    requires n > 0
    ensures var row := ReadCells(st, width);
            var rest := ReadRows(row.next, n - 1, width);
            ReadRows(st, n, width) == Scan([row.value] + rest.value, row.ok && rest.ok, rest.next)
  {
  }

  lemma SaveRowsUnfold(rows: seq<seq<int>>)
    requires |rows| > 0
    ensures SaveRows(rows) == RowText(rows[0]) + (['\n'] + SaveRows(rows[1..]))
  {
    SaveRowsDef(rows);
    Regroup(RowText(rows[0]), '\n', SaveRows(rows[1..]));
  }

  lemma SaveRowsDef(rows: seq<seq<int>>)
    requires |rows| > 0
    ensures SaveRows(rows) == RowText(rows[0]) + ['\n'] + SaveRows(rows[1..])
  {
  }

  predicate RowsWellFormed(rows: seq<seq<int>>) {
    forall r :: 0 <= r < |rows| ==> |rows[r]| == Cols && RowInInt32(rows[r])
  }

  function SanitizeRows(rows: seq<seq<int>>): seq<seq<int>>
  {
    seq(|rows|, r requires 0 <= r < |rows| => SanitizeRow(rows[r]))
  }

  predicate RowsValid(rows: seq<seq<int>>) {
    forall r :: 0 <= r < |rows| ==> RowValid(rows[r])
  }

  lemma SanitizeRowsFront(rows: seq<seq<int>>)
    requires |rows| > 0
    ensures SanitizeRows(rows) == [SanitizeRow(rows[0])] + SanitizeRows(rows[1..])
    ensures RowsValid(rows) == (RowValid(rows[0]) && RowsValid(rows[1..]))
  {
    assert RowsValid(rows) ==> RowValid(rows[0]) && RowsValid(rows[1..]);
    if RowValid(rows[0]) && RowsValid(rows[1..]) {
      forall r | 0 <= r < |rows|
        ensures RowValid(rows[r])
      {
        if r > 0 {
          assert rows[r] == rows[1..][r - 1];
        }
      }
    }
  }

  lemma ReadSavedRowsStep(rows: seq<seq<int>>)
    requires |rows| > 0 && RowsWellFormed(rows)
    requires ReadRows(Open(SaveRows(rows[1..])), |rows| - 1, Cols).value == SanitizeRows(rows[1..])
    requires ReadRows(Open(SaveRows(rows[1..])), |rows| - 1, Cols).ok == RowsValid(rows[1..])
    ensures ReadRows(Open(SaveRows(rows)), |rows|, Cols).value == SanitizeRows(rows)
    ensures ReadRows(Open(SaveRows(rows)), |rows|, Cols).ok == RowsValid(rows)
  {
    var rest := SaveRows(rows[1..]);
    SaveRowsUnfold(rows);
    ReadSavedRow(rows[0], ['\n'] + rest);
    ReadRowsUnfold(Open(SaveRows(rows)), |rows|, Cols);
    SanitizeRowsFront(rows);
    if |rows| > 1 {
      ReadRowsUnfold(Open(['\n'] + rest), |rows| - 1, Cols);
      ReadRowsUnfold(Open(rest), |rows| - 1, Cols);
      SkipSpaceCells('\n', rest, Cols);
    } else {
      assert SanitizeRows(rows[1..]) == [];
    }
  }

  /** Reading saved rows reproduces them, row by row, with invalid codes
      replaced by 0; the read is clean exactly when every code is valid. */
  lemma {:induction false} ReadSavedRows(rows: seq<seq<int>>)
    requires RowsWellFormed(rows)
    ensures ReadRows(Open(SaveRows(rows)), |rows|, Cols).value == SanitizeRows(rows)
    ensures ReadRows(Open(SaveRows(rows)), |rows|, Cols).ok == RowsValid(rows)
    decreases |rows|
  {
    if |rows| > 0 {
      ReadSavedRows(rows[1..]);
      ReadSavedRowsStep(rows);
    } else {
      assert SanitizeRows(rows) == [];
    }
  }

  /** Every cell holds a C++ `int`. */
  predicate GridInInt32(g: Matrix) {
    forall r, c :: 0 <= r < Rows && 0 <= c < Cols ==> InInt32(g[r][c])
  }

  /** Save then load: the loaded matrix is the saved one with invalid codes
      replaced by 0, and the load reports success exactly when every saved
      code was valid. */
  lemma SaveLoadRoundTrip(l: Level, other: Level)
    requires GridInInt32(l.grid)
    ensures var res := Load(other, Some(Save(l)));
            && (forall r, c :: InBounds(r, c) ==> res.level.grid[r][c] == Sanitize(l.grid[r][c]))
            && (res.ok <==> AllValid(l.grid))
  {
    var text := Save(l);
    assert text == SaveRows(l.grid);
    assert RowsWellFormed(l.grid);
    ReadSavedRows(l.grid);
    LoadOpened(other, text);
    RowsValidIffAllValid(l.grid);
    SanitizeRowsCells(l.grid);
  }

  lemma LoadOpened(l: Level, text: string)
    ensures Load(l, Some(text)).level.grid == ReadRows(Open(text), Rows, Cols).value
    ensures Load(l, Some(text)).ok == ReadRows(Open(text), Rows, Cols).ok
  {
  }

  lemma SanitizeRowsCells(g: Matrix)
    ensures forall r, c :: InBounds(r, c) ==> SanitizeRows(g)[r][c] == Sanitize(g[r][c])
  {
  }

  lemma MatrixEq(a: Matrix, b: Matrix)
    requires forall r, c :: InBounds(r, c) ==> a[r][c] == b[r][c]
    ensures a == b
  {
    assert forall r :: 0 <= r < Rows ==> a[r] == b[r];
  }

  lemma RowsValidIffAllValid(g: Matrix)
    ensures RowsValid(g) <==> AllValid(g)
  {
    forall r | 0 <= r < Rows
      ensures RowValid(g[r]) <==> forall c :: 0 <= c < Cols ==> IsValidCode(g[r][c])
    {
    }
  }

  /** A level whose codes are all valid survives save and load unchanged,
      and the load reports success. */
  lemma SaveLoadIdentity(l: Level, other: Level)
    requires AllValid(l.grid)
    ensures Load(other, Some(Save(l))).level.grid == l.grid
    ensures Load(other, Some(Save(l))).ok
  {
    assert GridInInt32(l.grid);
    SaveLoadRoundTrip(l, other);
    MatrixEq(Load(other, Some(Save(l))).level.grid, l.grid);
  }

  /** A missing file is replaced by the default tiers, `load` reports
      success, and the text written for it loads back to the same layout
      with success. */
  lemma MissingFileCreatesDefault(l: Level, other: Level)
    ensures var res := Load(l, None);
            && res.ok && res.level.grid == DefaultLayout()
            && res.written.Some?
            && Load(other, res.written).level.grid == DefaultLayout()
            && Load(other, res.written).ok
  {
    var res := Load(l, None);
    assert res.level.grid == DefaultLayout();
    SaveLoadIdentity(res.level, other);
  }

  /** Right-click placement uses the same row-to-tier rule as the default
      layout. */
  lemma PlacementMatchesDefault(row: int)
    requires 0 <= row < Rows
    ensures Editor.PlacementTier(row) == DefaultTier(row)
  {
  }
}
