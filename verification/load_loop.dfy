/** The load loop of `Level::load` seen cell by cell: every extraction reads
    from the stream the earlier extractions left behind. This gives a
    reference, by row and column, for what `load` stores in each cell and
    for the flag it returns, for any file text. */
module LoadLoop {

  import opened Wrappers
  import opened Codes
  import opened Grid
  import opened Levels
  import opened Text
  import opened LevelFile

  /** The stream after k extractions from `st`. */
  function StreamBefore(st: Stream, k: nat): Stream
    decreases k
  {
    if k == 0 then st else StreamBefore(ReadCell(st).2, k - 1)
  }

  /** Whether extraction number k (counted from 0) reads an allowed code. */
  predicate CellOk(st: Stream, k: nat) {
    ReadCell(StreamBefore(st, k)).1
  }

  /** The code stored by extraction number k. */
  function CellCode(st: Stream, k: nat): int {
    ReadCell(StreamBefore(st, k)).0
  }

  /** The stream at the start of row r when every row takes `w`
      extractions. */
  function RowStart(st: Stream, w: nat, r: nat): Stream
    decreases r
  {
    if r == 0 then st else RowStart(StreamBefore(st, w), w, r - 1)
  }

  /** What a single extraction does. When a number v is read, the cell gets
      v if it is an allowed code and 0 otherwise, and the step is flagged as
      a failure exactly under the source's rule "not allowed and not 0";
      since 0 is allowed, that is exactly when v is not allowed. When no
      number can be read, the cell gets 0, the step fails and so does the
      stream. */
  lemma ReadCellOutcome(st: Stream)
    ensures st.Open? && ReadInt(st.rest).Some? ==>
              var v := ReadInt(st.rest).value.0;
              && ReadCell(st).0 == (if IsValidCode(v) then v else Empty)
              && (ReadCell(st).1 <==> !(!IsValidCode(v) && v != 0))
              && ReadCell(st).2 == Open(ReadInt(st.rest).value.1)
    ensures !(st.Open? && ReadInt(st.rest).Some?) ==> ReadCell(st) == (Empty, false, Failed)
    ensures ReadCell(st).1 <==> st.Open? && ReadInt(st.rest).Some? && IsValidCode(ReadInt(st.rest).value.0)
  {
  }

  lemma StreamBeforeNext(st: Stream, k: nat)
    requires k > 0
    ensures StreamBefore(st, k) == StreamBefore(ReadCell(st).2, k - 1)
  {
  }

  lemma RowStartNext(st: Stream, w: nat, r: nat)
    requires r > 0
    ensures RowStart(st, w, r) == RowStart(StreamBefore(st, w), w, r - 1)
  {
  }

  lemma {:induction false} ReadCellsNext(st: Stream, n: nat)
    ensures ReadCells(st, n).next == StreamBefore(st, n)
    decreases n
  {
    if n > 0 {
      ReadCellsNext(ReadCell(st).2, n - 1);
      ReadCellsUnfold(st, n);
      StreamBeforeNext(st, n);
    }
  }

  lemma {:induction false} ReadCellsValues(st: Stream, n: nat)
    ensures forall i :: 0 <= i < n ==> ReadCells(st, n).value[i] == CellCode(st, i)
    decreases n
  {
    if n > 0 {
      var next := ReadCell(st).2;
      ReadCellsValues(next, n - 1);
      ReadCellsUnfold(st, n);
      forall i | 1 <= i < n
        ensures ReadCells(st, n).value[i] == CellCode(st, i)
      {
        StreamBeforeNext(st, i);
        assert ReadCells(st, n).value[i] == ReadCells(next, n - 1).value[i - 1];
      }
    }
  }

  lemma {:induction false} ReadCellsFlag(st: Stream, n: nat)
    ensures ReadCells(st, n).ok <==> forall i :: 0 <= i < n ==> CellOk(st, i)
    decreases n
  {
    if n > 0 {
      var next := ReadCell(st).2;
      ReadCellsFlag(next, n - 1);
      ReadCellsUnfold(st, n);
      forall i | 1 <= i < n
        ensures CellOk(st, i) == CellOk(next, i - 1)
      {
        StreamBeforeNext(st, i);
      }
      assert CellOk(st, 0) == ReadCell(st).1;
      if forall i :: 0 <= i < n ==> CellOk(st, i) {
        forall i | 0 <= i < n - 1
          ensures CellOk(next, i)
        {
          assert CellOk(st, i + 1);
        }
      }
    }
  }

  /** `n` iterations of the inner loop store, in cell i, the code of
      extraction i, succeed exactly when every one of those extractions did,
      and leave the stream after the n-th. */
  lemma ReadCellsByIndex(st: Stream, n: nat)
    ensures ReadCells(st, n).next == StreamBefore(st, n)
    ensures forall i :: 0 <= i < n ==> ReadCells(st, n).value[i] == CellCode(st, i)
    ensures ReadCells(st, n).ok <==> forall i :: 0 <= i < n ==> CellOk(st, i)
  {
    ReadCellsNext(st, n);
    ReadCellsValues(st, n);
    ReadCellsFlag(st, n);
  }

  lemma {:induction false} ReadRowsNext(st: Stream, n: nat, w: nat)
    ensures ReadRows(st, n, w).next == RowStart(st, w, n)
    decreases n
  {
    if n > 0 {
      ReadCellsNext(st, w);
      ReadRowsNext(StreamBefore(st, w), n - 1, w);
      ReadRowsUnfold(st, n, w);
      RowStartNext(st, w, n);
    }
  }

  lemma {:induction false} ReadRowsValues(st: Stream, n: nat, w: nat)
    ensures forall r, c :: 0 <= r < n && 0 <= c < w ==>
              ReadRows(st, n, w).value[r][c] == CellCode(RowStart(st, w, r), c)
    decreases n
  {
    if n > 0 {
      var mid := StreamBefore(st, w);
      ReadCellsNext(st, w);
      ReadCellsValues(st, w);
      ReadRowsValues(mid, n - 1, w);
      ReadRowsUnfold(st, n, w);
      forall r, c | 0 <= r < n && 0 <= c < w
        ensures ReadRows(st, n, w).value[r][c] == CellCode(RowStart(st, w, r), c)
      {
        if r > 0 {
          assert ReadRows(st, n, w).value[r] == ReadRows(mid, n - 1, w).value[r - 1];
          RowStartNext(st, w, r);
        }
      }
    }
  }

  /** Whether the `w` extractions of a row starting at `st` all read an
      allowed code. */
  predicate RowOk(st: Stream, w: nat) {
    forall c :: 0 <= c < w ==> CellOk(st, c)
  }

  lemma {:induction false} ReadRowsFlag(st: Stream, n: nat, w: nat)
    ensures ReadRows(st, n, w).ok ==> forall r :: 0 <= r < n ==> RowOk(RowStart(st, w, r), w)
    ensures (forall r :: 0 <= r < n ==> RowOk(RowStart(st, w, r), w)) ==> ReadRows(st, n, w).ok
    decreases n
  {
    if n > 0 {
      var mid := StreamBefore(st, w);
      ReadCellsNext(st, w);
      ReadCellsFlag(st, w);
      ReadRowsFlag(mid, n - 1, w);
      ReadRowsUnfold(st, n, w);
      forall r | 1 <= r < n
        ensures RowStart(st, w, r) == RowStart(mid, w, r - 1)
      {
        RowStartNext(st, w, r);
      }
      assert RowStart(st, w, 0) == st;
      assert ReadRows(st, n, w).ok == (ReadCells(st, w).ok && ReadRows(mid, n - 1, w).ok);
      if ReadRows(st, n, w).ok {
        forall r | 0 <= r < n
          ensures RowOk(RowStart(st, w, r), w)
        {
          if r > 0 {
            assert ReadRows(mid, n - 1, w).ok;
            assert RowOk(RowStart(mid, w, r - 1), w);
          }
        }
      }
      if forall r :: 0 <= r < n ==> RowOk(RowStart(st, w, r), w) {
        assert RowOk(st, w);
        forall r | 0 <= r < n - 1
          ensures RowOk(RowStart(mid, w, r), w)
        {
          assert RowOk(RowStart(st, w, r + 1), w);
        }
        assert ReadRows(mid, n - 1, w).ok;
      }
    }
  }

  /** Reference definition of the matrix `load` fills from stream `st`:
      cell (r, c) holds the code of extraction c of row r. */
  function CellGrid(st: Stream): Matrix
  {
    seq(Rows, r requires 0 <= r < Rows => seq(Cols, c requires 0 <= c < Cols => CellCode(RowStart(st, Cols, r), c)))
  }

  /** Whether every extraction of the Rows x Cols load loop read an allowed
      code. */
  predicate AllCellsOk(st: Stream) {
    forall r :: 0 <= r < Rows ==> RowOk(RowStart(st, Cols, r), Cols)
  }

  /** The nested loop over Rows rows of Cols cells fills exactly the
      reference matrix. */
  lemma ReadGridIsCellGrid(st: Stream)
    ensures ReadRows(st, Rows, Cols).value == CellGrid(st)
  {
    ReadRowsValues(st, Rows, Cols);
    MatrixEq(ReadRows(st, Rows, Cols).value, CellGrid(st));
  }

  lemma ReadGridFlag(st: Stream)
    ensures ReadRows(st, Rows, Cols).ok == AllCellsOk(st)
  {
    ReadRowsFlag(st, Rows, Cols);
  }

  /** `load` on an opened file, for any text: cell (r, c) holds the code of
      extraction c of row r (the value read when it is an allowed code, 0
      when it is not or nothing could be read), and `load` returns true
      exactly when every one of the Rows x Cols extractions read an allowed
      code. The editor selection is cleared either way. */
  lemma LoadByCell(l: Level, text: string)
    ensures var res := Load(l, Some(text));
            && res.level.grid == CellGrid(Open(text))
            && res.ok == AllCellsOk(Open(text))
            && res.level.selRow == -1 && res.level.selCol == -1
  {
    LoadOpened(l, text);
    ReadGridIsCellGrid(Open(text));
    ReadGridFlag(Open(text));
  }

  lemma {:induction false} FailedStaysFailed(k: nat)
    ensures StreamBefore(Failed, k) == Failed
    decreases k
  {
    if k > 0 {
      FailedStaysFailed(k - 1);
    }
  }

  /** Once an extraction fails, every later one stores 0 and fails too. */
  lemma {:induction false} FailureStaysFailed(st: Stream, i: nat, k: nat)
    requires StreamBefore(st, i).Failed?
    requires i <= k
    ensures StreamBefore(st, k).Failed? && CellCode(st, k) == Empty && !CellOk(st, k)
    decreases i
  {
    if i == 0 {
      FailedStaysFailed(k);
    } else {
      StreamBeforeNext(st, i);
      StreamBeforeNext(st, k);
      FailureStaysFailed(ReadCell(st).2, i - 1, k - 1);
    }
  }
}
