/** Play-time bookkeeping of class `Level`: the design matrix, the brick
    vector built from it, the active-brick counter and the editor selection. */
module Levels {

  import opened Codes
  import opened Grid
  import opened Bricks

  /** `m_bricks`: resized to Rows * Cols in the constructor and never resized. */
  type BrickVec = s: seq<Brick> | |s| == Rows * Cols witness seq(8 * 14, _ => Brick(Unplaced, 0, false))

  /** `selRow`/`selCol` are `m_editorSelectedRow`/`m_editorSelectedCol`,
      -1 meaning nothing is selected. */
  datatype Level = Level(grid: Matrix, bricks: BrickVec, activeCount: int, selRow: int, selCol: int)

  /** Number of bricks the counter is meant to count (active, not
      indestructible). */
  function CountLive(s: seq<Brick>): (n: nat)
    ensures n <= |s|
  {
    if |s| == 0 then 0
    else CountLive(s[..|s| - 1]) + (if Live(s[|s| - 1]) then 1 else 0)
  }

  predicate BricksValid(s: seq<Brick>) {
    forall i :: 0 <= i < |s| ==> Wf(s[i]) && IsValidCode(s[i].score)
  }

  /** The level invariant: valid codes everywhere and a counter equal to the
      number of live bricks. */
  predicate Inv(l: Level) {
    && AllValid(l.grid)
    && BricksValid(l.bricks)
    && l.activeCount == CountLive(l.bricks)
  }

  /** The `Level` constructor: empty grid, default bricks, no selection. */
  function NewLevel(): (l: Level)
    ensures Inv(l)
    ensures l.grid == Zeros()
    ensures forall k :: 0 <= k < Rows * Cols ==> l.bricks[k] == NewBrick()
    ensures l.activeCount == 0 && l.selRow == -1 && l.selCol == -1
  {
    var bricks: BrickVec := seq(Rows * Cols, _ => NewBrick());
    CountLiveNone(bricks);
    Level(Zeros(), bricks, 0, -1, -1)
  }

  /** The brick `setupBricks` puts at flat index k = r * Cols + c. */
  function BrickAt(g: Matrix, k: int): Brick
    requires 0 <= k < Rows * Cols
  {
    Init(At(Flip(k / Cols), k % Cols), g[k / Cols][k % Cols])
  }

  /** Reference definition of the brick vector built from a matrix. */
  function BuildBricks(g: Matrix): BrickVec
  {
    seq(Rows * Cols, k requires 0 <= k < Rows * Cols => BrickAt(g, k))
  }

  lemma FlatIndex(r: int, c: int)
    requires InBounds(r, c)
    ensures 0 <= r * Cols + c < Rows * Cols
    ensures (r * Cols + c) / Cols == r && (r * Cols + c) % Cols == c
  {
  }

  /** `setupBricks`: rebuilds every brick from the matrix in row-major order
      and counts the destructible ones. */
  method SetupBricks(l: Level) returns (l': Level)
    ensures l'.grid == l.grid && l'.selRow == l.selRow && l'.selCol == l.selCol
    ensures l'.bricks == BuildBricks(l.grid)
    ensures l'.activeCount == CountRows(l.grid)
    ensures l'.activeCount == CountLive(l'.bricks)
    ensures AllValid(l.grid) ==> Inv(l')
  {
    var g := l.grid;
    var bricks: seq<Brick> := [];
    var count := 0;
    var r := 0;
    while r < Rows
      invariant 0 <= r <= Rows
      invariant |bricks| == r * Cols
      invariant forall k :: 0 <= k < |bricks| ==> bricks[k] == BrickAt(g, k)
      invariant count == CountRows(g[..r])
      invariant count == CountLive(bricks)
    {
      var c := 0;
      while c < Cols
        invariant 0 <= c <= Cols
        invariant |bricks| == r * Cols + c
        invariant forall k :: 0 <= k < |bricks| ==> bricks[k] == BrickAt(g, k)
        invariant count == CountRows(g[..r]) + CountRow(g[r][..c])
        invariant count == CountLive(bricks)
      {
        var b := Init(At(Flip(r), c), g[r][c]);
        AppendBrick(g, bricks, r, c);
        CountRowStep(g[r], c);
        bricks := bricks + [b];
        if Live(b) {
          count := count + 1;
        }
        c := c + 1;
      }
      assert g[r][..Cols] == g[r];
      assert g[..r + 1][..r] == g[..r];
      r := r + 1;
    }
    assert g[..Rows] == g;
    assert bricks == BuildBricks(g);
    l' := l.(bricks := bricks, activeCount := count);
    if AllValid(g) {
      forall k | 0 <= k < |bricks|
        ensures Wf(bricks[k]) && IsValidCode(bricks[k].score)
      {
        assert bricks[k] == BrickAt(g, k);
      }
    }
  }

  /** One step of the inner loop of `setupBricks`: the brick for cell
      (r, c) extends the prefix of the reference vector, and it adds one to
      the live count exactly when the cell's code is destructible. */
  lemma AppendBrick(g: Matrix, bricks: seq<Brick>, r: int, c: int)
    requires InBounds(r, c) && |bricks| == r * Cols + c
    requires forall k :: 0 <= k < |bricks| ==> bricks[k] == BrickAt(g, k)
    ensures var b := Init(At(Flip(r), c), g[r][c]);
            && (forall k :: 0 <= k < |bricks| + 1 ==> (bricks + [b])[k] == BrickAt(g, k))
            && CountLive(bricks + [b]) == CountLive(bricks) + (if IsDestructibleCode(g[r][c]) then 1 else 0)
            && (Live(b) <==> IsDestructibleCode(g[r][c]))
  {
    var b := Init(At(Flip(r), c), g[r][c]);
    FlatIndex(r, c);
    assert (bricks + [b])[..|bricks|] == bricks;
  }

  lemma CountRowStep(row: seq<int>, c: int)
    requires 0 <= c < |row|
    ensures CountRow(row[..c + 1]) == CountRow(row[..c]) + (if IsDestructibleCode(row[c]) then 1 else 0)
  {
    assert row[..c + 1][..c] == row[..c];
  }

  /** Brick r * Cols + c carries the code of cell (r, c) and is drawn at
      visual row Flip(r); flipping that visual row gives back r. */
  lemma BrickPlacement(g: Matrix, r: int, c: int)
    requires InBounds(r, c)
    ensures 0 <= r * Cols + c < |BuildBricks(g)|
    ensures BuildBricks(g)[r * Cols + c].score == g[r][c]
    ensures BuildBricks(g)[r * Cols + c].slot == At(Rows - 1 - r, c)
    ensures Flip(BuildBricks(g)[r * Cols + c].slot.visualRow) == r
  {
    FlatIndex(r, c);
  }

  lemma {:induction false} CountLiveNone(s: seq<Brick>)
    requires forall i :: 0 <= i < |s| ==> !Live(s[i])
    ensures CountLive(s) == 0
  {
    if |s| > 0 {
      CountLiveNone(s[..|s| - 1]);
    }
  }

  /** The counter is zero exactly when no brick is live. */
  lemma {:induction false} CountLiveZeroIff(s: seq<Brick>)
    ensures CountLive(s) == 0 <==> forall i :: 0 <= i < |s| ==> !Live(s[i])
  {
    if |s| > 0 {
      CountLiveZeroIff(s[..|s| - 1]);
      if CountLive(s) == 0 {
        forall i | 0 <= i < |s|
          ensures !Live(s[i])
        {
          if i < |s| - 1 {
            assert s[i] == s[..|s| - 1][i];
          }
        }
      } else if forall i :: 0 <= i < |s| ==> !Live(s[i]) {
        CountLiveNone(s);
      }
    }
  }

  /** Replacing one brick changes the live count by that brick's contribution
      only. */
  lemma {:induction false} CountLiveUpdate(s: seq<Brick>, i: int, b: Brick)
    requires 0 <= i < |s|
    ensures CountLive(s[i := b]) ==
            CountLive(s) - (if Live(s[i]) then 1 else 0) + (if Live(b) then 1 else 0)
  {
    var n := |s|;
    var t := s[i := b];
    if i == n - 1 {
      assert t[..n - 1] == s[..n - 1];
    } else {
      assert t[..n - 1] == s[..n - 1][i := b];
      CountLiveUpdate(s[..n - 1], i, b);
    }
  }

  /** `processBrickHit(index)`: returns the new level and the points
      awarded. */
  function ProcessBrickHit(l: Level, index: int): (res: (Level, int))
    ensures index < 0 || index >= Rows * Cols || !l.bricks[index].active ==> res == (l, 0)
    ensures 0 <= index < Rows * Cols && IsIndestructible(l.bricks[index]) ==> res == (l, 0)
    ensures 0 <= index < Rows * Cols && l.bricks[index].active ==>
              res.0.bricks[index] == Hit(l.bricks[index]).0 && res.1 == Hit(l.bricks[index]).1
    ensures res.0.activeCount == l.activeCount || res.0.activeCount == if l.activeCount - 1 < 0 then 0 else l.activeCount - 1
    ensures res.0.grid == l.grid && res.0.selRow == l.selRow && res.0.selCol == l.selCol
    ensures forall j :: 0 <= j < Rows * Cols && j != index ==> res.0.bricks[j] == l.bricks[j]
  {
    if index < 0 || index >= |l.bricks| then (l, 0)
    else
      var b := l.bricks[index];
      if !b.active then (l, 0)
      else
        var (b', score) := Hit(b);
        var bricks := l.bricks[index := b'];
        assert b' == b ==> bricks == l.bricks;
        var count := if score > 0 && !IsIndestructible(b') then Max(0, l.activeCount - 1) else l.activeCount;
        (l.(bricks := bricks, activeCount := count), score)
  }

  function Max(a: int, b: int): int {
    if a < b then b else a
  }

  /** Under the level invariant, a hit on a live brick awards its positive
      score and lowers the counter by exactly one without going below zero;
      any other hit awards nothing and leaves the counter alone. The
      invariant is kept either way. */
  lemma ProcessBrickHitKeepsInv(l: Level, index: int)
    requires Inv(l)
    ensures Inv(ProcessBrickHit(l, index).0)
    ensures 0 <= index < Rows * Cols && Live(l.bricks[index]) ==>
              && ProcessBrickHit(l, index).1 == l.bricks[index].score > 0
              && ProcessBrickHit(l, index).0.activeCount == l.activeCount - 1 >= 0
              && !ProcessBrickHit(l, index).0.bricks[index].active
              && ProcessBrickHit(l, index).0.bricks[index].score == Empty
    ensures !(0 <= index < Rows * Cols && Live(l.bricks[index])) ==>
              ProcessBrickHit(l, index) == (l, 0)
  {
    if 0 <= index < Rows * Cols && Live(l.bricks[index]) {
      var b := l.bricks[index];
      HitAwardsIffLive(b);
      CountLiveUpdate(l.bricks, index, Hit(b).0);
      var l' := ProcessBrickHit(l, index).0;
      forall i | 0 <= i < |l'.bricks|
        ensures Wf(l'.bricks[i]) && IsValidCode(l'.bricks[i].score)
      {
      }
    }
  }

  /** A brick's second hit through the level awards nothing. */
  lemma SecondHitAwardsNothing(l: Level, index: int)
    ensures ProcessBrickHit(ProcessBrickHit(l, index).0, index).1 == 0
  {
  }

  /** `areAllBricksCleared`: the win test reads the counter only. */
  predicate AreAllBricksCleared(l: Level) {
    l.activeCount <= 0
  }

  /** Under the invariant the counter-based win test holds exactly when no
      live brick is left. */
  lemma ClearedIffNoLiveBrick(l: Level)
    requires Inv(l)
    ensures AreAllBricksCleared(l) <==> forall i :: 0 <= i < Rows * Cols ==> !Live(l.bricks[i])
  {
    CountLiveZeroIff(l.bricks);
  }

  /** Hits on a sequence of brick indices, in order; the total score. */
  function ProcessHits(l: Level, indices: seq<int>): (res: (Level, int))
    decreases |indices|
  {
    if |indices| == 0 then (l, 0)
    else
      var (l1, s1) := ProcessBrickHit(l, indices[0]);
      var (l2, s2) := ProcessHits(l1, indices[1..]);
      (l2, s1 + s2)
  }

  /** N hits on N distinct live bricks lower the counter by exactly N. */
  lemma {:induction false} DistinctHitsCount(l: Level, indices: seq<int>)
    requires Inv(l)
    requires forall i :: 0 <= i < |indices| ==> 0 <= indices[i] < Rows * Cols && Live(l.bricks[indices[i]])
    requires forall i, j :: 0 <= i < j < |indices| ==> indices[i] != indices[j]
    ensures Inv(ProcessHits(l, indices).0)
    ensures ProcessHits(l, indices).0.activeCount == l.activeCount - |indices|
    decreases |indices|
  {
    if |indices| > 0 {
      var l1 := ProcessBrickHit(l, indices[0]).0;
      ProcessBrickHitKeepsInv(l, indices[0]);
      var rest := indices[1..];
      forall i | 0 <= i < |rest|
        ensures 0 <= rest[i] < Rows * Cols && Live(l1.bricks[rest[i]])
      {
        assert rest[i] == indices[i + 1];
      }
      DistinctHitsCount(l1, rest);
    }
  }
}
