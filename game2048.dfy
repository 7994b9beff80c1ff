/**
 * The 2048 tile engine: a 4x4 grid of integers (0 is an empty cell),
 * slide-and-merge moves in four directions reduced to a left move by
 * rotation, random tile spawning and the game-over test, plus the page's
 * state (grid, score, best, game over).
 */
module Game2048 {
  import opened Wrappers

  /** Side length of the board. */
  const SIZE: nat := 4
  /** Number of tiles on a fresh board. */
  const START_TILES: nat := 2

  type Grid = seq<seq<int>>

  datatype Direction = Left | Right | Up | Down

  /** A board position: row r, column c. */
  datatype Pos = Pos(r: int, c: int)

  /** What a move reports: the new grid, whether anything changed, and the points earned. */
  datatype MoveResult = MoveResult(grid: Grid, moved: bool, scoreGained: int)

  predicate IsGrid(g: Grid) {
    |g| == SIZE && forall r :: 0 <= r < SIZE ==> |g[r]| == SIZE
  }

  predicate InRange(r: int, c: int) {
    0 <= r < SIZE && 0 <= c < SIZE
  }

  /** True when some cell of the grid is empty. */
  predicate HasEmpty(g: Grid)
    requires IsGrid(g)
  {
    exists r, c :: 0 <= r < SIZE && 0 <= c < SIZE && g[r][c] == 0
  }

  // ---------------------------------------------------------------------------
  // Grid construction and rotation
  // ---------------------------------------------------------------------------

  function EmptyGrid(): (g: Grid)
    ensures IsGrid(g)
    ensures forall r, c :: InRange(r, c) ==> g[r][c] == 0
  {
    seq(SIZE, _ => seq(SIZE, _ => 0))
  }

  /** Clockwise quarter turn: the cell at (r, c) goes to (c, SIZE - 1 - r). */
  function Rotate(g: Grid): (h: Grid)
    requires IsGrid(g)
    ensures IsGrid(h)
    ensures forall r, c :: InRange(r, c) ==> h[c][SIZE - 1 - r] == g[r][c]
  {
    seq(SIZE, i requires 0 <= i < SIZE => seq(SIZE, j requires 0 <= j < SIZE => g[SIZE - 1 - j][i]))
  }

  /** k successive quarter turns. */
  function RotateN(g: Grid, k: nat): (h: Grid)
    requires IsGrid(g)
    ensures IsGrid(h)
  {
    if k == 0 then g else Rotate(RotateN(g, k - 1))
  }

  /** The number of quarter turns that brings a direction to "left". */
  function Rotations(d: Direction): (k: nat)
    ensures k < 4
  {
    match d
    case Left => 0
    case Down => 1
    case Right => 2
    case Up => 3
  }

  /** Builds the rotated grid cell by cell, as rotateGrid does. */
  method RotateGrid(g: Grid) returns (ng: Grid)
    requires IsGrid(g)
    ensures ng == Rotate(g)
  {
    ng := EmptyGrid();
    var r := 0;
    while r < SIZE
      invariant 0 <= r <= SIZE
      invariant IsGrid(ng)
      invariant forall i, j :: InRange(i, j) ==> ng[i][j] == (if SIZE - 1 - j < r then g[SIZE - 1 - j][i] else 0)
    {
      var c := 0;
      while c < SIZE
        invariant 0 <= c <= SIZE
        invariant IsGrid(ng)
        invariant forall i, j :: InRange(i, j) ==>
          ng[i][j] == (if SIZE - 1 - j < r || (SIZE - 1 - j == r && i < c) then g[SIZE - 1 - j][i] else 0)
      {
        ng := ng[c := ng[c][SIZE - 1 - r := g[r][c]]];
        c := c + 1;
      }
      r := r + 1;
    }
    assert forall i :: 0 <= i < SIZE ==> ng[i] == Rotate(g)[i];
  }

  /** The cell formula of one quarter turn. */
  lemma RotateOnce(g: Grid)
    requires IsGrid(g)
    ensures forall i, j :: InRange(i, j) ==> RotateN(g, 1)[i][j] == g[SIZE - 1 - j][i]
  {
    assert RotateN(g, 1) == Rotate(g);
  }

  /** The cell formula of a half turn. */
  lemma RotateTwice(g: Grid)
    requires IsGrid(g)
    ensures forall i, j :: InRange(i, j) ==> RotateN(g, 2)[i][j] == g[SIZE - 1 - i][SIZE - 1 - j]
  {
    RotateOnce(g);
    assert RotateN(g, 2) == Rotate(RotateN(g, 1));
  }

  /** The cell formula of three quarter turns. */
  lemma RotateThrice(g: Grid)
    requires IsGrid(g)
    ensures forall i, j :: InRange(i, j) ==> RotateN(g, 3)[i][j] == g[j][SIZE - 1 - i]
  {
    RotateTwice(g);
    assert RotateN(g, 3) == Rotate(RotateN(g, 2));
  }

  /** Four quarter turns give the grid back. */
  lemma RotateFour(g: Grid)
    requires IsGrid(g)
    ensures RotateN(g, 4) == g
  {
    RotateThrice(g);
    var r4 := RotateN(g, 4);
    assert r4 == Rotate(RotateN(g, 3));
    forall i | 0 <= i < SIZE
      ensures r4[i] == g[i]
    {
      assert forall j :: 0 <= j < SIZE ==> r4[i][j] == RotateN(g, 3)[SIZE - 1 - j][i];
    }
  }

  /** Rotating a rotated grid adds up the quarter turns. */
  lemma {:induction false} RotateNAdd(g: Grid, a: nat, b: nat)
    requires IsGrid(g)
    ensures RotateN(RotateN(g, a), b) == RotateN(g, a + b)
  {
    if b > 0 {
      RotateNAdd(g, a, b - 1);
      assert RotateN(RotateN(g, a), b) == Rotate(RotateN(RotateN(g, a), b - 1));
      assert RotateN(g, a + b) == Rotate(RotateN(g, a + b - 1));
    }
  }

  /** Four quarter turns are the identity, so the inverse count used by move restores orientation. */
  lemma RotateBack(g: Grid, k: nat)
    requires IsGrid(g) && k < 4
    ensures RotateN(RotateN(g, k), (4 - k) % 4) == g
    ensures RotateN(RotateN(g, (4 - k) % 4), k) == g
  {
    var back := (4 - k) % 4;
    RotateNAdd(g, k, back);
    RotateNAdd(g, back, k);
    assert k + back == 0 || k + back == 4;
    RotateFour(g);
  }

  // ---------------------------------------------------------------------------
  // One row: filter empties, merge pairs in a single pass, pad with empties
  // ---------------------------------------------------------------------------

  /** The non-empty tiles of a row, in order (row.filter(v => v !== 0)). */
  function Compact(row: seq<int>): (t: seq<int>)
    ensures |t| <= |row|
    ensures forall i :: 0 <= i < |t| ==> t[i] != 0
    ensures |t| == |row| ==> t == row
  {
    if row == [] then []
    else if row[0] == 0 then Compact(row[1..])
    else [row[0]] + Compact(row[1..])
  }

  /**
   * The left-to-right pass with the skip flag: a tile equal to its right
   * neighbour is merged with it, and the neighbour is skipped, so a merged
   * tile never takes part in a second merge.
   */
  function MergePass(t: seq<int>): (out: seq<int>)
    ensures |out| <= |t|
    ensures (forall i :: 0 <= i < |t| ==> t[i] != 0) ==> forall i :: 0 <= i < |out| ==> out[i] != 0
  {
    if |t| >= 2 && t[0] == t[1] then [t[0] + t[1]] + MergePass(t[2..])
    else if |t| >= 1 then [t[0]] + MergePass(t[1..])
    else []
  }

  /** The sum of the values produced by merges in MergePass (scoreGained for one row). */
  function MergeGain(t: seq<int>): int
  {
    if |t| >= 2 && t[0] == t[1] then t[0] + t[1] + MergeGain(t[2..])
    else if |t| >= 1 then MergeGain(t[1..])
    else 0
  }

  /** Appends empties until the row has n cells (while (newRow.length < SIZE) newRow.push(0)). */
  function PadZeros(t: seq<int>, n: nat): (p: seq<int>)
    ensures |p| == if |t| >= n then |t| else n
    decreases n - |t|
  {
    if |t| >= n then t else PadZeros(t + [0], n)
  }

  /** The row produced by moveLeft for one input row. */
  function SlideRow(row: seq<int>): (s: seq<int>)
    ensures |row| <= SIZE ==> |s| == SIZE
  {
    PadZeros(MergePass(Compact(row)), SIZE)
  }

  function RowSum(s: seq<int>): int
  {
    if s == [] then 0 else s[0] + RowSum(s[1..])
  }

  /** Padding keeps the row as a prefix and fills the rest with empties. */
  lemma {:induction false} PadZerosShape(t: seq<int>, n: nat)
    ensures |PadZeros(t, n)| == if |t| >= n then |t| else n
    ensures PadZeros(t, n)[..|t|] == t
    ensures forall i :: |t| <= i < |PadZeros(t, n)| ==> PadZeros(t, n)[i] == 0
    decreases n - |t|
  {
    if |t| < n {
      PadZerosShape(t + [0], n);
      assert PadZeros(t, n)[..|t|] == PadZeros(t + [0], n)[..|t| + 1][..|t|];
    }
  }

  lemma {:induction false} RowSumAppend(a: seq<int>, b: seq<int>)
    ensures RowSum(a + b) == RowSum(a) + RowSum(b)
  {
    if a == [] {
      assert a + b == b;
    } else {
      assert (a + b)[1..] == a[1..] + b;
      RowSumAppend(a[1..], b);
    }
  }

  /** Dropping empties does not change the row's total. */
  lemma {:induction false} CompactSum(row: seq<int>)
    ensures RowSum(Compact(row)) == RowSum(row)
  {
    if row != [] {
      CompactSum(row[1..]);
      if row[0] != 0 {
        RowSumAppend([row[0]], Compact(row[1..]));
      }
    }
  }

  /** Merging two equal tiles into their sum does not change the row's total. */
  lemma {:induction false} MergeSum(t: seq<int>)
    ensures RowSum(MergePass(t)) == RowSum(t)
  {
    if |t| >= 2 && t[0] == t[1] {
      MergeSum(t[2..]);
      assert t[1..][1..] == t[2..];
      RowSumAppend([t[0] + t[1]], MergePass(t[2..]));
    } else if |t| >= 1 {
      MergeSum(t[1..]);
      RowSumAppend([t[0]], MergePass(t[1..]));
    }
  }

  /** Padding with empties does not change the row's total. */
  lemma {:induction false} PadSum(t: seq<int>, n: nat)
    ensures RowSum(PadZeros(t, n)) == RowSum(t)
    decreases n - |t|
  {
    if |t| < n {
      PadSum(t + [0], n);
      RowSumAppend(t, [0]);
    }
  }

  /** moveLeft keeps every row's total. */
  lemma SlideRowSum(row: seq<int>)
    ensures RowSum(SlideRow(row)) == RowSum(row)
  {
    CompactSum(row);
    MergeSum(Compact(row));
    PadSum(MergePass(Compact(row)), SIZE);
  }

  /**
   * A slid row has SIZE cells, and all its tiles come before all its empties.
   */
  lemma SlideRowShape(row: seq<int>)
    requires |row| == SIZE
    ensures |SlideRow(row)| == SIZE
    ensures forall i, j :: 0 <= i < j < SIZE && SlideRow(row)[i] == 0 ==> SlideRow(row)[j] == 0
  {
    var m := MergePass(Compact(row));
    PadZerosShape(m, SIZE);
    var s := SlideRow(row);
    assert forall i :: 0 <= i < |m| ==> s[i] == m[i] && s[i] != 0;
  }

  /** For each output tile of MergePass: 2 if it is a merged pair, 1 if it is a single tile. */
  function Blocks(t: seq<int>): (b: seq<nat>)
  {
    if |t| >= 2 && t[0] == t[1] then [2] + Blocks(t[2..])
    else if |t| >= 1 then [1] + Blocks(t[1..])
    else []
  }

  function NatSum(b: seq<nat>): nat
  {
    if b == [] then 0 else b[0] + NatSum(b[1..])
  }

  /** Output tile k of a merging pass over t, whose block starts at input position s. */
  predicate BlockAt(t: seq<int>, out: seq<int>, b: seq<nat>, k: nat, s: nat)
    requires k < |out| && k < |b|
  {
    || (b[k] == 1 && s < |t| && out[k] == t[s] && (s + 1 < |t| ==> t[s] != t[s + 1]))
    || (b[k] == 2 && s + 1 < |t| && t[s] == t[s + 1] && out[k] == t[s] + t[s + 1])
  }

  /** The sum of the output tiles that came from a merge. */
  function MergedTotal(out: seq<int>, b: seq<nat>): int
    requires |out| == |b|
  {
    if out == [] then 0 else (if b[0] == 2 then out[0] else 0) + MergedTotal(out[1..], b[1..])
  }

  lemma {:induction false} NatSumCons(c: nat, b: seq<nat>, k: nat)
    requires 0 < k <= |b| + 1
    ensures NatSum(([c] + b)[..k]) == c + NatSum(b[..k - 1])
  {
    assert ([c] + b)[..k] == [c] + b[..k - 1];
    assert ([c] + b[..k - 1])[1..] == b[..k - 1];
  }

  /**
   * Merge once: the input row is cut, left to right, into consecutive blocks
   * of one or two tiles. Each output tile is either a single input tile
   * (whose right neighbour differs from it) or the sum of two equal adjacent
   * input tiles, so no output tile comes from more than two input tiles,
   * tiles keep their order, and scoreGained is the sum of the merged tiles.
   */
  lemma {:induction false} MergeOnce(t: seq<int>)
    ensures |Blocks(t)| == |MergePass(t)|
    ensures NatSum(Blocks(t)) == |t|
    ensures forall k :: 0 <= k < |Blocks(t)| ==> BlockAt(t, MergePass(t), Blocks(t), k, NatSum(Blocks(t)[..k]))
    ensures MergeGain(t) == MergedTotal(MergePass(t), Blocks(t))
  {
    var out, b := MergePass(t), Blocks(t);
    if |t| >= 1 {
      var c: nat := if |t| >= 2 && t[0] == t[1] then 2 else 1;
      var rest := t[c..];
      MergeOnce(rest);
      var out', b' := MergePass(rest), Blocks(rest);
      assert out == [out[0]] + out' && b == [c] + b';
      assert BlockAt(t, out, b, 0, 0) by {
        assert b[..0] == [];
      }
      forall k | 1 <= k < |b|
        ensures BlockAt(t, out, b, k, NatSum(b[..k]))
      {
        NatSumCons(c, b', k);
        var s' := NatSum(b'[..k - 1]);
        assert BlockAt(rest, out', b', k - 1, s');
        assert out[k] == out'[k - 1] && b[k] == b'[k - 1];
        assert forall i :: 0 <= i < |rest| ==> rest[i] == t[c + i];
      }
      assert b[..0] == [];
      assert (forall k :: 0 <= k < |b| ==> BlockAt(t, out, b, k, NatSum(b[..k])));
      assert out[1..] == out' && b[1..] == b';
    }
  }

  /** [2,2,2,2] slides left to [4,4,0,0]: the merged 4s are not merged again. */
  lemma SlideFourTwos()
    ensures SlideRow([2, 2, 2, 2]) == [4, 4, 0, 0]
    ensures MergeGain(Compact([2, 2, 2, 2])) == 8
  {
    assert Compact([2, 2, 2, 2]) == [2, 2, 2, 2] by {
      assert [2, 2, 2, 2][1..] == [2, 2, 2];
      assert [2, 2, 2][1..] == [2, 2];
      assert [2, 2][1..] == [2];
      assert [2][1..] == [];
    }
    assert [2, 2, 2, 2][2..] == [2, 2];
    assert [2, 2][2..] == [];
    assert MergePass([2, 2, 2, 2]) == [4, 4];
    assert [4, 4] + [0] == [4, 4, 0] && [4, 4, 0] + [0] == [4, 4, 0, 0];
    assert PadZeros([4, 4], SIZE) == PadZeros([4, 4, 0], SIZE) == PadZeros([4, 4, 0, 0], SIZE);
  }

  /** [2,2,0,0] slides left to [4,0,0,0] and earns 4 points. */
  lemma SlideTwoTwos()
    ensures SlideRow([2, 2, 0, 0]) == [4, 0, 0, 0]
    ensures MergeGain(Compact([2, 2, 0, 0])) == 4
  {
    assert Compact([2, 2, 0, 0]) == [2, 2] by {
      assert [2, 2, 0, 0][1..] == [2, 0, 0];
      assert [2, 0, 0][1..] == [0, 0];
      assert [0, 0][1..] == [0];
      assert [0][1..] == [];
    }
    assert [2, 2][2..] == [];
    assert MergePass([2, 2]) == [4];
    assert [4] + [0] == [4, 0] && [4, 0] + [0] == [4, 0, 0] && [4, 0, 0] + [0] == [4, 0, 0, 0];
    assert PadZeros([4], SIZE) == PadZeros([4, 0], SIZE) == PadZeros([4, 0, 0], SIZE) == PadZeros([4, 0, 0, 0], SIZE);
  }

  // ---------------------------------------------------------------------------
  // moveLeft and move
  // ---------------------------------------------------------------------------

  function GridSum(g: Grid): int
  {
    if g == [] then 0 else RowSum(g[0]) + GridSum(g[1..])
  }

  /** Points earned by the first k rows in a left move. */
  function GainUpTo(g: Grid, k: nat): int
    requires k <= |g|
  {
    if k == 0 then 0 else GainUpTo(g, k - 1) + MergeGain(Compact(g[k - 1]))
  }

  /** Every row slid left; moved is true exactly when some cell differs from the input. */
  function MoveLeftAll(g: Grid): (m: MoveResult)
    requires IsGrid(g)
  {
    var ng := seq(SIZE, r requires 0 <= r < SIZE => SlideRow(g[r]));
    MoveResult(ng, ng != g, GainUpTo(g, SIZE))
  }

  /** move: rotate so that the direction becomes "left", slide left, rotate back. */
  function Move(g: Grid, d: Direction): (m: MoveResult)
    requires IsGrid(g)
  {
    var k := Rotations(d);
    var left := MoveLeftAll(RotateN(g, k));
    MoveResult(RotateN(left.grid, (4 - k) % 4), left.moved, left.scoreGained)
  }

  lemma SlideRowLength(row: seq<int>)
    ensures |SlideRow(row)| == if |MergePass(Compact(row))| >= SIZE then |MergePass(Compact(row))| else SIZE
  {
    PadZerosShape(MergePass(Compact(row)), SIZE);
  }

  lemma MoveLeftIsGrid(g: Grid)
    requires IsGrid(g)
    ensures IsGrid(MoveLeftAll(g).grid)
  {
    forall r | 0 <= r < SIZE
      ensures |SlideRow(g[r])| == SIZE
    {
      SlideRowLength(g[r]);
    }
  }

  /** One step of the merging pass, at position i of t. */
  lemma MergeStep(t: seq<int>, i: nat)
    requires i < |t|
    ensures i + 1 < |t| && t[i] == t[i + 1] ==>
      MergePass(t[i..]) == [t[i] + t[i + 1]] + MergePass(t[i + 2..]) &&
      MergeGain(t[i..]) == t[i] + t[i + 1] + MergeGain(t[i + 2..])
    ensures !(i + 1 < |t| && t[i] == t[i + 1]) ==>
      MergePass(t[i..]) == [t[i]] + MergePass(t[i + 1..]) &&
      MergeGain(t[i..]) == MergeGain(t[i + 1..])
  {
    if i + 1 < |t| {
      assert t[i..][2..] == t[i + 2..];
    }
    assert t[i..][1..] == t[i + 1..];
  }

  /** The loop of moveLeft merging row[i] with row[i + 1] keeps its invariant. */
  lemma TakePair(row: seq<int>, i: nat, acc: seq<int>, g: int)
    requires i + 1 < |row| && row[i] == row[i + 1]
    requires acc + MergePass(row[i..]) == MergePass(row) && g + MergeGain(row[i..]) == MergeGain(row)
    ensures (acc + [row[i] + row[i + 1]]) + MergePass(row[i + 2..]) == MergePass(row)
    ensures g + (row[i] + row[i + 1]) + MergeGain(row[i + 2..]) == MergeGain(row)
  {
    MergeStep(row, i);
    var x := row[i] + row[i + 1];
    AppendAssoc(acc, [x], MergePass(row[i + 2..]));
  }

  /** The loop of moveLeft copying row[i] unmerged keeps its invariant. */
  lemma TakeOne(row: seq<int>, i: nat, acc: seq<int>, g: int)
    requires i < |row| && !(i + 1 < |row| && row[i] == row[i + 1])
    requires acc + MergePass(row[i..]) == MergePass(row) && g + MergeGain(row[i..]) == MergeGain(row)
    ensures (acc + [row[i]]) + MergePass(row[i + 1..]) == MergePass(row)
    ensures g + MergeGain(row[i + 1..]) == MergeGain(row)
  {
    MergeStep(row, i);
    AppendAssoc(acc, [row[i]], MergePass(row[i + 1..]));
  }

  lemma AppendAssoc(a: seq<int>, b: seq<int>, c: seq<int>)
    ensures (a + b) + c == a + (b + c)
  {
  }

  /** while (newRow.length < SIZE) newRow.push(0) */
  method PadRow(t: seq<int>) returns (p: seq<int>)
    ensures p == PadZeros(t, SIZE)
  {
    p := t;
    while |p| < SIZE
      invariant PadZeros(p, SIZE) == PadZeros(t, SIZE)
      decreases SIZE - |p|
    {
      p := p + [0];
    }
  }

  /** The for loop of moveLeft over the filtered row, with the skip flag. */
  method MergeLoop(row: seq<int>) returns (newRow: seq<int>, gained: int)
    ensures newRow == MergePass(row)
    ensures gained == MergeGain(row)
  {
    newRow := [];
    gained := 0;
    var skip := false;
    var i := 0;
    ghost var next := 0;  // the first position not yet consumed by the pass
    while i < |row|
      invariant 0 <= i <= |row|
      invariant next == if skip then i + 1 else i
      invariant next <= |row|
      invariant newRow + MergePass(row[next..]) == MergePass(row)
      invariant gained + MergeGain(row[next..]) == MergeGain(row)
    {
      if skip {
        skip := false;
        i := i + 1;
        continue;
      }
      var current := row[i];
      if i + 1 < |row| && current == row[i + 1] {
        var merged := current + row[i + 1];
        TakePair(row, i, newRow, gained);
        newRow := newRow + [merged];
        gained := gained + merged;
        skip := true;
        next := i + 2;
      } else {
        TakeOne(row, i, newRow, gained);
        newRow := newRow + [current];
        next := i + 1;
      }
      i := i + 1;
    }
    assert row[next..] == [];
    assert newRow + [] == newRow;
  }

  /**
   * The body of moveLeft's row loop: filter the empties, merge with the skip
   * flag, pad with empties. Returns the new row and the points it earns.
   */
  method SlideRowLoop(cells: seq<int>) returns (newRow: seq<int>, gained: int)
    ensures newRow == SlideRow(cells)
    ensures gained == MergeGain(Compact(cells))
  {
    var row := Compact(cells);
    newRow, gained := MergeLoop(row);
    newRow := PadRow(newRow);
  }

  /** The row loop of moveLeft, with the moved flag and the score accumulator. */
  method MoveLeft(g: Grid) returns (res: MoveResult)
    requires IsGrid(g)
    ensures res == MoveLeftAll(g)
    ensures IsGrid(res.grid)
  {
    var ng := EmptyGrid();
    var moved := false;
    var scoreGained := 0;
    var r := 0;
    while r < SIZE
      invariant 0 <= r <= SIZE
      invariant IsGrid(ng)
      invariant forall i :: 0 <= i < r ==> ng[i] == SlideRow(g[i])
      invariant moved <==> exists i :: 0 <= i < r && SlideRow(g[i]) != g[i]
      invariant scoreGained == GainUpTo(g, r)
    {
      var newRow, gained := SlideRowLoop(g[r]);
      scoreGained := scoreGained + gained;
      ng := ng[r := newRow];
      if !moved && exists idx :: 0 <= idx < |newRow| && newRow[idx] != g[r][idx] {
        moved := true;
      }
      r := r + 1;
    }
    assert ng == MoveLeftAll(g).grid;
    assert moved <==> ng != g by {
      if ng != g {
        var i :| 0 <= i < SIZE && ng[i] != g[i];
      }
    }
    res := MoveResult(ng, moved, scoreGained);
  }

  /** One of move's rotation loops: k successive rotateGrid calls. */
  method RotateTimes(g: Grid, k: nat) returns (h: Grid)
    requires IsGrid(g)
    ensures h == RotateN(g, k)
  {
    h := g;
    var i := 0;
    while i < k
      invariant 0 <= i <= k
      invariant h == RotateN(g, i)
    {
      h := RotateGrid(h);
      i := i + 1;
    }
  }

  /** move: the rotation loops around moveLeft. */
  method MoveGrid(g: Grid, d: Direction) returns (res: MoveResult)
    requires IsGrid(g)
    ensures res == Move(g, d)
  {
    var rotations := Rotations(d);
    var h := RotateTimes(g, rotations);
    var left := MoveLeft(h);
    var resultGrid := RotateTimes(left.grid, (4 - rotations) % 4);
    res := MoveResult(resultGrid, left.moved, left.scoreGained);
  }

  lemma RowSum4(s: seq<int>)
    requires |s| == 4
    ensures RowSum(s) == s[0] + s[1] + s[2] + s[3]
  {
    assert s[1..][1..] == s[2..];
    assert s[2..][1..] == s[3..];
    assert s[3..][1..] == [];
    assert RowSum(s[3..]) == s[3];
    assert RowSum(s[2..]) == s[2] + s[3];
    assert RowSum(s[1..]) == s[1] + s[2] + s[3];
  }

  lemma GridSumCells(g: Grid)
    requires IsGrid(g)
    ensures GridSum(g) == RowSum(g[0]) + RowSum(g[1]) + RowSum(g[2]) + RowSum(g[3])
    ensures GridSum(g) ==
      g[0][0] + g[0][1] + g[0][2] + g[0][3] + g[1][0] + g[1][1] + g[1][2] + g[1][3] +
      g[2][0] + g[2][1] + g[2][2] + g[2][3] + g[3][0] + g[3][1] + g[3][2] + g[3][3]
  {
    assert g[1..][1..] == g[2..];
    assert g[2..][1..] == g[3..];
    assert g[3..][1..] == [];
    assert GridSum(g[3..]) == RowSum(g[3]);
    assert GridSum(g[2..]) == RowSum(g[2]) + RowSum(g[3]);
    assert GridSum(g[1..]) == RowSum(g[1]) + RowSum(g[2]) + RowSum(g[3]);
    RowSum4(g[0]);
    RowSum4(g[1]);
    RowSum4(g[2]);
    RowSum4(g[3]);
  }

  /** A quarter turn moves the tiles around but keeps the grid total. */
  lemma RotateSum(g: Grid)
    requires IsGrid(g)
    ensures GridSum(Rotate(g)) == GridSum(g)
  {
    GridSumCells(g);
    GridSumCells(Rotate(g));
  }

  lemma {:induction false} RotateNSum(g: Grid, k: nat)
    requires IsGrid(g)
    ensures GridSum(RotateN(g, k)) == GridSum(g)
  {
    if k > 0 {
      RotateNSum(g, k - 1);
      RotateSum(RotateN(g, k - 1));
    }
  }

  /** A left move keeps the grid total: merged tiles carry the sum of their parts. */
  lemma MoveLeftSum(g: Grid)
    requires IsGrid(g)
    ensures GridSum(MoveLeftAll(g).grid) == GridSum(g)
  {
    var ng := MoveLeftAll(g).grid;
    MoveLeftIsGrid(g);
    GridSumCells(g);
    GridSumCells(ng);
    SlideRowSum(g[0]);
    SlideRowSum(g[1]);
    SlideRowSum(g[2]);
    SlideRowSum(g[3]);
  }

  /**
   * Conservation: a move in any direction keeps the grid total. The points
   * earned are the values of the merged tiles; they are not added to the grid.
   */
  lemma MoveSum(g: Grid, d: Direction)
    requires IsGrid(g)
    ensures IsGrid(Move(g, d).grid)
    ensures GridSum(Move(g, d).grid) == GridSum(g)
  {
    var k := Rotations(d);
    var h := RotateN(g, k);
    RotateNSum(g, k);
    MoveLeftSum(h);
    MoveLeftIsGrid(h);
    RotateNSum(MoveLeftAll(h).grid, (4 - k) % 4);
  }

  /**
   * moved is reported on the rotated grid, yet it is true exactly when the
   * returned grid differs from the input: rotating back undoes the rotation.
   */
  lemma MovedIffChanged(g: Grid, d: Direction)
    requires IsGrid(g)
    ensures Move(g, d).moved <==> Move(g, d).grid != g
  {
    var k := Rotations(d);
    var h := RotateN(g, k);
    var m := MoveLeftAll(h).grid;
    MoveLeftIsGrid(h);
    RotateBack(g, k);
    RotateBack(m, k);
    var res := RotateN(m, (4 - k) % 4);
    assert res == Move(g, d).grid;
    assert res == g ==> m == h;
    assert m == h ==> res == g;
  }

  // ---------------------------------------------------------------------------
  // The four moves stated directly, and the game-over test
  // ---------------------------------------------------------------------------

  function Reverse(s: seq<int>): (r: seq<int>)
    ensures |r| == |s|
  {
    seq(|s|, i requires 0 <= i < |s| => s[|s| - 1 - i])
  }

  function Column(g: Grid, c: int): (col: seq<int>)
    requires IsGrid(g) && 0 <= c < SIZE
    ensures |col| == SIZE
  {
    seq(SIZE, r requires 0 <= r < SIZE => g[r][c])
  }

  /**
   * Reference definition of the four moves without rotation: left slides
   * each row toward column 0, right toward column SIZE - 1, up slides each
   * column toward row 0 and down toward row SIZE - 1.
   */
  function DirectMove(g: Grid, d: Direction): Grid
    requires IsGrid(g)
  {
    match d
    case Left => seq(SIZE, r requires 0 <= r < SIZE => SlideRow(g[r]))
    case Right => seq(SIZE, r requires 0 <= r < SIZE => Reverse(SlideRow(Reverse(g[r]))))
    case Up => seq(SIZE, r requires 0 <= r < SIZE =>
                 seq(SIZE, c requires 0 <= c < SIZE => SlideRow(Column(g, c))[r]))
    case Down => seq(SIZE, r requires 0 <= r < SIZE =>
                   seq(SIZE, c requires 0 <= c < SIZE => Reverse(SlideRow(Reverse(Column(g, c))))[r]))
  }

  lemma MoveRightDirect(g: Grid)
    requires IsGrid(g)
    ensures Move(g, Right).grid == DirectMove(g, Right)
  {
    var m := MoveLeftAll(RotateN(g, 2)).grid;
    assert Move(g, Right).grid == RotateN(m, 2);
    HalfTurnSlid(g);
    RightBack(g, m);
  }

  /** Sliding the half-turned grid left slides each row of g, reversed. */
  lemma HalfTurnSlid(g: Grid)
    requires IsGrid(g)
    ensures IsGrid(MoveLeftAll(RotateN(g, 2)).grid)
    ensures forall i :: 0 <= i < SIZE ==> MoveLeftAll(RotateN(g, 2)).grid[SIZE - 1 - i] == SlideRow(Reverse(g[i]))
  {
    var h := RotateN(g, 2);
    HalfTurnRows(g);
    MoveLeftIsGrid(h);
    forall i | 0 <= i < SIZE
      ensures MoveLeftAll(h).grid[SIZE - 1 - i] == SlideRow(Reverse(g[i]))
    {
      assert h[SIZE - 1 - i] == Reverse(g[i]);
    }
  }

  /** A half turn lists the rows in reverse order, each reversed. */
  lemma HalfTurnRows(g: Grid)
    requires IsGrid(g)
    ensures forall i :: 0 <= i < SIZE ==> RotateN(g, 2)[i] == Reverse(g[SIZE - 1 - i])
  {
    var h := RotateN(g, 2);
    RotateTwice(g);
    forall i | 0 <= i < SIZE
      ensures h[i] == Reverse(g[SIZE - 1 - i])
    {
      assert forall j :: 0 <= j < SIZE ==> h[i][j] == Reverse(g[SIZE - 1 - i])[j];
    }
  }

  /** Turning the rows slid left of the half-turned grid back gives the rows slid right. */
  lemma RightBack(g: Grid, m: Grid)
    requires IsGrid(g) && IsGrid(m)
    requires forall i :: 0 <= i < SIZE ==> m[SIZE - 1 - i] == SlideRow(Reverse(g[i]))
    ensures RotateN(m, 2) == DirectMove(g, Right)
  {
    RotateTwice(m);
    var res := RotateN(m, 2);
    var want := DirectMove(g, Right);
    forall i | 0 <= i < SIZE
      ensures res[i] == want[i]
    {
      var row := SlideRow(Reverse(g[i]));
      assert m[SIZE - 1 - i] == row;
      assert want[i] == Reverse(row);
      forall j | 0 <= j < SIZE
        ensures res[i][j] == want[i][j]
      {
        assert res[i][j] == m[SIZE - 1 - i][SIZE - 1 - j];
      }
    }
  }

  lemma MoveUpDirect(g: Grid)
    requires IsGrid(g)
    ensures Move(g, Up).grid == DirectMove(g, Up)
  {
    var h := RotateN(g, 3);
    RotateThrice(g);
    forall i | 0 <= i < SIZE
      ensures h[i] == Column(g, SIZE - 1 - i)
    {
      assert forall j :: 0 <= j < SIZE ==> h[i][j] == Column(g, SIZE - 1 - i)[j];
    }
    var m := MoveLeftAll(h).grid;
    MoveLeftIsGrid(h);
    RotateOnce(m);
    var res := RotateN(m, 1);
    var want := DirectMove(g, Up);
    forall i | 0 <= i < SIZE
      ensures res[i] == want[i]
    {
      assert forall j :: 0 <= j < SIZE ==> res[i][j] == want[i][j];
    }
  }

  lemma MoveDownDirect(g: Grid)
    requires IsGrid(g)
    ensures Move(g, Down).grid == DirectMove(g, Down)
  {
    var m := MoveLeftAll(RotateN(g, 1)).grid;
    assert Move(g, Down).grid == RotateN(m, 3);
    QuarterTurnSlid(g);
    DownBack(g, m);
  }

  /** Sliding the quarter-turned grid left slides each column of g, read bottom to top. */
  lemma QuarterTurnSlid(g: Grid)
    requires IsGrid(g)
    ensures IsGrid(MoveLeftAll(RotateN(g, 1)).grid)
    ensures forall i :: 0 <= i < SIZE ==> MoveLeftAll(RotateN(g, 1)).grid[i] == SlideRow(Reverse(Column(g, i)))
  {
    QuarterTurnRows(g);
    MoveLeftIsGrid(RotateN(g, 1));
  }

  /** A quarter turn makes column i, read bottom to top, row i. */
  lemma QuarterTurnRows(g: Grid)
    requires IsGrid(g)
    ensures forall i :: 0 <= i < SIZE ==> RotateN(g, 1)[i] == Reverse(Column(g, i))
  {
    var h := RotateN(g, 1);
    RotateOnce(g);
    forall i | 0 <= i < SIZE
      ensures h[i] == Reverse(Column(g, i))
    {
      forall j | 0 <= j < SIZE
        ensures h[i][j] == Reverse(Column(g, i))[j]
      {
        assert h[i][j] == g[SIZE - 1 - j][i];
      }
    }
  }

  /** Turning the rows slid left of the quarter-turned grid back gives the columns slid down. */
  lemma DownBack(g: Grid, m: Grid)
    requires IsGrid(g) && IsGrid(m)
    requires forall i :: 0 <= i < SIZE ==> m[i] == SlideRow(Reverse(Column(g, i)))
    ensures RotateN(m, 3) == DirectMove(g, Down)
  {
    var res := RotateN(m, 3);
    var want := DirectMove(g, Down);
    forall i | 0 <= i < SIZE
      ensures res[i] == want[i]
    {
      forall j | 0 <= j < SIZE
        ensures res[i][j] == want[i][j]
      {
        ThriceReversed(m, i, j);
        assert m[j] == SlideRow(Reverse(Column(g, j)));
      }
    }
  }

  /** Cell (i, j) of three quarter turns is row j read backwards. */
  lemma ThriceReversed(m: Grid, i: int, j: int)
    requires IsGrid(m) && InRange(i, j)
    ensures RotateN(m, 3)[i][j] == Reverse(m[j])[i]
  {
    assert Reverse(m[j])[i] == m[j][SIZE - 1 - i] by {
      assert |m[j]| == SIZE;
    }
    RotateThrice(m);
  }

  /** Reducing every direction to "left" by rotation moves rows and columns as the reference says. */
  lemma MoveDirect(g: Grid, d: Direction)
    requires IsGrid(g)
    ensures Move(g, d).grid == DirectMove(g, d)
  {
    match d
    case Left =>
    case Right => MoveRightDirect(g);
    case Up => MoveUpDirect(g);
    case Down => MoveDownDirect(g);
  }

  predicate NoZero(s: seq<int>) {
    forall i :: 0 <= i < |s| ==> s[i] != 0
  }

  ghost predicate NoEqualNeighbours(s: seq<int>) {
    forall i, j :: 0 <= i < j < |s| && j == i + 1 ==> s[i] != s[j]
  }

  lemma {:induction false} CompactNoZero(row: seq<int>)
    requires NoZero(row)
    ensures Compact(row) == row
  {
    if row != [] {
      CompactNoZero(row[1..]);
      assert row == [row[0]] + row[1..];
    }
  }

  /** A pass leaves a row alone exactly when no two neighbours are equal, and otherwise shortens it. */
  lemma {:induction false} MergeIff(t: seq<int>)
    ensures MergePass(t) == t <==> NoEqualNeighbours(t)
    ensures MergePass(t) != t ==> |MergePass(t)| < |t|
  {
    if |t| >= 2 && t[0] == t[1] {
      assert |MergePass(t[2..])| <= |t| - 2;
      assert !NoEqualNeighbours(t) by { assert t[0] == t[0 + 1]; }
    } else if |t| >= 1 {
      MergeIff(t[1..]);
      assert t == [t[0]] + t[1..];
      assert MergePass(t) == [t[0]] + MergePass(t[1..]);
      assert MergePass(t) == t <==> MergePass(t[1..]) == t[1..];
      assert NoEqualNeighbours(t) <==> NoEqualNeighbours(t[1..]) by {
        if NoEqualNeighbours(t[1..]) {
          forall i | 0 <= i < |t| - 1
            ensures t[i] != t[i + 1]
          {
            if i > 0 {
              assert t[i] == t[1..][i - 1] && t[i + 1] == t[1..][i];
            }
          }
        }
        if NoEqualNeighbours(t) {
          forall i | 0 <= i < |t[1..]| - 1
            ensures t[1..][i] != t[1..][i + 1]
          {
            assert t[1..][i] == t[i + 1] && t[1..][i + 1] == t[i + 2];
          }
        }
      }
    }
  }

  /** A full row stays put when slid exactly when it has no equal neighbours. */
  lemma FullRowSlide(s: seq<int>)
    requires |s| == SIZE && NoZero(s)
    ensures SlideRow(s) == s <==> NoEqualNeighbours(s)
  {
    CompactNoZero(s);
    MergeIff(s);
    if !NoEqualNeighbours(s) {
      PadZerosShape(MergePass(s), SIZE);
      assert SlideRow(s)[SIZE - 1] == 0 != s[SIZE - 1];
    }
  }

  lemma ReverseReverse(s: seq<int>)
    ensures Reverse(Reverse(s)) == s
  {
  }

  lemma ReverseKeeps(s: seq<int>)
    ensures NoZero(Reverse(s)) <==> NoZero(s)
    ensures NoEqualNeighbours(Reverse(s)) <==> NoEqualNeighbours(s)
  {
    var r := Reverse(s);
    if NoZero(r) {
      forall i | 0 <= i < |s|
        ensures s[i] != 0
      {
        assert s[i] == r[|s| - 1 - i];
      }
    }
    if NoEqualNeighbours(r) {
      forall i | 0 <= i < |s| - 1
        ensures s[i] != s[i + 1]
      {
        assert s[i] == r[|s| - 1 - i] && s[i + 1] == r[|s| - 2 - i];
        assert r[|s| - 2 - i] != r[(|s| - 2 - i) + 1];
      }
    }
    if NoEqualNeighbours(s) {
      forall i | 0 <= i < |r| - 1
        ensures r[i] != r[i + 1]
      {
        assert r[i] == s[|s| - 1 - i] && r[i + 1] == s[|s| - 2 - i];
        assert s[|s| - 2 - i] != s[(|s| - 2 - i) + 1];
      }
    }
  }

  /** The same for a slide toward the far end. */
  lemma FullRowSlideBack(s: seq<int>)
    requires |s| == SIZE && NoZero(s)
    ensures Reverse(SlideRow(Reverse(s))) == s <==> NoEqualNeighbours(s)
  {
    ReverseKeeps(s);
    FullRowSlide(Reverse(s));
    ReverseReverse(s);
    ReverseReverse(SlideRow(Reverse(s)));
  }

  /**
   * Reference definition of a finished game: no empty cell and no two
   * horizontally or vertically adjacent tiles of equal value.
   */
  ghost predicate Blocked(g: Grid)
    requires IsGrid(g)
  {
    && !HasEmpty(g)
    && (forall r, c, c' :: 0 <= r < SIZE && 0 <= c < c' < SIZE && c' == c + 1 ==> g[r][c] != g[r][c'])
    && (forall r, r', c :: 0 <= r < r' < SIZE && 0 <= c < SIZE && r' == r + 1 ==> g[r][c] != g[r'][c])
  }

  /** isGameOver: no empty cell, and a trial move in each of the four directions moves nothing. */
  predicate IsOver(g: Grid)
    requires IsGrid(g)
  {
    !HasEmpty(g) && !CanMove(g)
  }

  /** Some direction changes the grid. */
  predicate CanMove(g: Grid)
    requires IsGrid(g)
  {
    Move(g, Left).moved || Move(g, Right).moved || Move(g, Up).moved || Move(g, Down).moved
  }

  lemma RowsStuck(g: Grid)
    requires IsGrid(g) && !HasEmpty(g)
    ensures DirectMove(g, Left) == g <==> forall r :: 0 <= r < SIZE ==> NoEqualNeighbours(g[r])
    ensures DirectMove(g, Right) == g <==> forall r :: 0 <= r < SIZE ==> NoEqualNeighbours(g[r])
  {
    forall r | 0 <= r < SIZE
      ensures SlideRow(g[r]) == g[r] <==> NoEqualNeighbours(g[r])
      ensures Reverse(SlideRow(Reverse(g[r]))) == g[r] <==> NoEqualNeighbours(g[r])
    {
      assert NoZero(g[r]) by {
        assert forall c :: 0 <= c < SIZE ==> g[r][c] != 0;
      }
      FullRowSlide(g[r]);
      FullRowSlideBack(g[r]);
    }
    var left := DirectMove(g, Left);
    var right := DirectMove(g, Right);
    assert left == g <==> forall r :: 0 <= r < SIZE ==> left[r] == g[r];
    assert right == g <==> forall r :: 0 <= r < SIZE ==> right[r] == g[r];
  }

  lemma ColumnsStuck(g: Grid)
    requires IsGrid(g) && !HasEmpty(g)
    ensures DirectMove(g, Up) == g <==> forall c :: 0 <= c < SIZE ==> NoEqualNeighbours(Column(g, c))
    ensures DirectMove(g, Down) == g <==> forall c :: 0 <= c < SIZE ==> NoEqualNeighbours(Column(g, c))
  {
    forall c | 0 <= c < SIZE
      ensures SlideRow(Column(g, c)) == Column(g, c) <==> NoEqualNeighbours(Column(g, c))
      ensures Reverse(SlideRow(Reverse(Column(g, c)))) == Column(g, c) <==> NoEqualNeighbours(Column(g, c))
    {
      assert NoZero(Column(g, c)) by {
        assert forall r :: 0 <= r < SIZE ==> Column(g, c)[r] == g[r][c] != 0;
      }
      FullRowSlide(Column(g, c));
      FullRowSlideBack(Column(g, c));
    }
    ColumnsFix(g, DirectMove(g, Up), seq(SIZE, c requires 0 <= c < SIZE => SlideRow(Column(g, c))));
    ColumnsFix(g, DirectMove(g, Down), seq(SIZE, c requires 0 <= c < SIZE => Reverse(SlideRow(Reverse(Column(g, c))))));
  }

  /** A grid whose columns are cols equals g exactly when cols are g's columns. */
  lemma ColumnsFix(g: Grid, h: Grid, cols: seq<seq<int>>)
    requires IsGrid(g) && IsGrid(h) && IsGrid(cols)
    requires forall r, c :: 0 <= r < SIZE && 0 <= c < SIZE ==> h[r][c] == cols[c][r]
    ensures h == g <==> forall c :: 0 <= c < SIZE ==> cols[c] == Column(g, c)
  {
    if forall c :: 0 <= c < SIZE ==> cols[c] == Column(g, c) {
      forall r | 0 <= r < SIZE
        ensures h[r] == g[r]
      {
        assert forall c :: 0 <= c < SIZE ==> h[r][c] == Column(g, c)[r];
      }
    }
    if h == g {
      forall c | 0 <= c < SIZE
        ensures cols[c] == Column(g, c)
      {
        assert forall r :: 0 <= r < SIZE ==> cols[c][r] == h[r][c];
      }
    }
  }

  /** The game is over exactly when the board is full and no two neighbouring tiles are equal. */
  lemma GameOverIffBlocked(g: Grid)
    requires IsGrid(g)
    ensures IsOver(g) <==> Blocked(g)
  {
    if !HasEmpty(g) {
      MovedIffChanged(g, Left);
      MovedIffChanged(g, Right);
      MovedIffChanged(g, Up);
      MovedIffChanged(g, Down);
      MoveDirect(g, Left);
      MoveDirect(g, Right);
      MoveDirect(g, Up);
      MoveDirect(g, Down);
      RowsStuck(g);
      ColumnsStuck(g);
      NeighboursInCells(g);
    }
  }

  lemma NeighboursInCells(g: Grid)
    requires IsGrid(g)
    ensures (forall r :: 0 <= r < SIZE ==> NoEqualNeighbours(g[r]))
        <==> (forall r, c, c' :: 0 <= r < SIZE && 0 <= c < c' < SIZE && c' == c + 1 ==> g[r][c] != g[r][c'])
    ensures (forall c :: 0 <= c < SIZE ==> NoEqualNeighbours(Column(g, c)))
        <==> (forall r, r', c :: 0 <= r < r' < SIZE && 0 <= c < SIZE && r' == r + 1 ==> g[r][c] != g[r'][c])
  {
    if forall r, r', c :: 0 <= r < r' < SIZE && 0 <= c < SIZE && r' == r + 1 ==> g[r][c] != g[r'][c] {
      forall c | 0 <= c < SIZE
        ensures NoEqualNeighbours(Column(g, c))
      {
        var col := Column(g, c);
        assert forall r :: 0 <= r < SIZE ==> col[r] == g[r][c];
      }
    }
    if forall c :: 0 <= c < SIZE ==> NoEqualNeighbours(Column(g, c)) {
      forall r, r', c | 0 <= r < r' < SIZE && 0 <= c < SIZE && r' == r + 1
        ensures g[r][c] != g[r'][c]
      {
        var col := Column(g, c);
        assert col[r] == g[r][c] && col[r'] == g[r'][c];
      }
    }
  }

  /** A trial move that reports movement always leaves an empty cell for the new tile. */
  lemma MovedLeavesRoom(g: Grid, d: Direction)
    requires IsGrid(g)
    requires Move(g, d).moved
    ensures HasEmpty(Move(g, d).grid)
  {
    var k := Rotations(d);
    var h := RotateN(g, k);
    var m := MoveLeftAll(h).grid;
    MoveLeftIsGrid(h);
    var r :| 0 <= r < SIZE && m[r] != h[r];
    ChangedRowEndsEmpty(h[r]);
    assert m[r][SIZE - 1] == 0;
    RotateNHasEmpty(m, (4 - k) % 4);
  }

  /** A full-length row that a slide changes ends in an empty cell. */
  lemma ChangedRowEndsEmpty(row: seq<int>)
    requires |row| == SIZE
    requires SlideRow(row) != row
    ensures SlideRow(row)[SIZE - 1] == 0
  {
    var t := Compact(row);
    var m := MergePass(t);
    MergeIff(t);
    PadZerosShape(m, SIZE);
    assert |m| < SIZE;
  }

  lemma RotateHasEmpty(g: Grid)
    requires IsGrid(g) && HasEmpty(g)
    ensures HasEmpty(Rotate(g))
  {
    var r, c :| 0 <= r < SIZE && 0 <= c < SIZE && g[r][c] == 0;
    assert Rotate(g)[c][SIZE - 1 - r] == 0;
  }

  lemma {:induction false} RotateNHasEmpty(g: Grid, k: nat)
    requires IsGrid(g) && HasEmpty(g)
    ensures HasEmpty(RotateN(g, k))
  {
    if k > 0 {
      RotateNHasEmpty(g, k - 1);
      RotateHasEmpty(RotateN(g, k - 1));
    }
  }

  // ---------------------------------------------------------------------------
  // Spawning a tile
  // ---------------------------------------------------------------------------

  /**
   * The random numbers one addRandomTile draws: draw picks the empty cell
   * (an index taken modulo the number of empties), and four is true when
   * the second number is at least 0.9, which makes the new tile a 4.
   */
  datatype Spawn = Spawn(draw: nat, four: bool) {
    /** The value of the new tile. */
    function Value(): int {
      if four then 4 else 2
    }
  }

  /** The empty cells of row r in columns below c, left to right. */
  function EmptiesInRow(g: Grid, r: int, c: int): (e: seq<Pos>)
    requires IsGrid(g) && 0 <= r < SIZE && 0 <= c <= SIZE
    ensures forall p :: p in e <==> p.r == r && 0 <= p.c < c && g[r][p.c] == 0
  {
    if c == 0 then [] else EmptiesInRow(g, r, c - 1) + (if g[r][c - 1] == 0 then [Pos(r, c - 1)] else [])
  }

  /** The empty cells of the rows below r, in row-major order. */
  function EmptiesInRows(g: Grid, r: int): (e: seq<Pos>)
    requires IsGrid(g) && 0 <= r <= SIZE
    ensures forall p :: p in e <==> 0 <= p.r < r && 0 <= p.c < SIZE && g[p.r][p.c] == 0
  {
    if r == 0 then [] else EmptiesInRows(g, r - 1) + EmptiesInRow(g, r - 1, SIZE)
  }

  /** The empties list that getRandomEmptyCell builds. */
  function Empties(g: Grid): seq<Pos>
    requires IsGrid(g)
  {
    EmptiesInRows(g, SIZE)
  }

  /** The empties list is non-empty exactly when the grid has an empty cell. */
  lemma EmptiesExist(g: Grid)
    requires IsGrid(g)
    ensures |Empties(g)| > 0 <==> HasEmpty(g)
  {
    var e := Empties(g);
    if HasEmpty(g) {
      var r, c :| 0 <= r < SIZE && 0 <= c < SIZE && g[r][c] == 0;
      assert Pos(r, c) in e;
    }
    if |e| > 0 {
      assert e[0] in e;
    }
  }

  /** getRandomEmptyCell with its random index given as draw: null when the grid is full. */
  function ChooseEmpty(g: Grid, draw: nat): (cell: Option<Pos>)
    requires IsGrid(g)
    ensures cell.None? <==> !HasEmpty(g)
    ensures cell.Some? ==> InRange(cell.value.r, cell.value.c) && g[cell.value.r][cell.value.c] == 0
  {
    EmptiesExist(g);
    var e := Empties(g);
    if |e| == 0 then None
    else
      assert e[draw % |e|] in e;
      Some(e[draw % |e|])
  }

  /** Every empty cell is the choice of some draw. */
  lemma EveryEmptyCellReachable(g: Grid, p: Pos)
    requires IsGrid(g) && InRange(p.r, p.c) && g[p.r][p.c] == 0
    ensures exists draw: nat :: ChooseEmpty(g, draw) == Some(p)
  {
    var e := Empties(g);
    assert p in e;
    var i :| 0 <= i < |e| && e[i] == p;
    var n: nat := i;
    ModSmall(n, |e|);
    assert ChooseEmpty(g, n) == Some(e[i]);
  }

  lemma ModSmall(n: nat, m: nat)
    requires n < m
    ensures n % m == n
  {
  }

  method GetRandomEmptyCell(g: Grid, draw: nat) returns (cell: Option<Pos>)
    requires IsGrid(g)
    ensures cell == ChooseEmpty(g, draw)
  {
    var empties: seq<Pos> := [];
    var r := 0;
    while r < SIZE
      invariant 0 <= r <= SIZE
      invariant empties == EmptiesInRows(g, r)
    {
      var c := 0;
      while c < SIZE
        invariant 0 <= c <= SIZE
        invariant empties == EmptiesInRows(g, r) + EmptiesInRow(g, r, c)
      {
        if g[r][c] == 0 {
          empties := empties + [Pos(r, c)];
        }
        c := c + 1;
      }
      r := r + 1;
    }
    if |empties| == 0 {
      return None;
    }
    cell := Some(empties[draw % |empties|]);
  }

  /** addRandomTile: a 2 (or a 4) in the chosen empty cell; a full grid is returned unchanged. */
  function SpawnTile(g: Grid, s: Spawn): (ng: Grid)
    requires IsGrid(g)
    ensures IsGrid(ng)
  {
    match ChooseEmpty(g, s.draw)
    case None => g
    case Some(p) => g[p.r := g[p.r][p.c := s.Value()]]
  }

  /** Spawning changes exactly one formerly empty cell, to 2 or 4, and nothing else. */
  lemma SpawnTileEffect(g: Grid, s: Spawn)
    requires IsGrid(g)
    ensures !HasEmpty(g) ==> SpawnTile(g, s) == g
    ensures HasEmpty(g) ==>
      exists r, c :: InRange(r, c) && g[r][c] == 0 && SpawnTile(g, s)[r][c] == s.Value() &&
        forall i, j :: InRange(i, j) && (i != r || j != c) ==> SpawnTile(g, s)[i][j] == g[i][j]
  {
    if HasEmpty(g) {
      var p := ChooseEmpty(g, s.draw).value;
      assert SpawnTile(g, s)[p.r][p.c] == s.Value();
    }
  }

  /** The spawned tile is the only cell that can change; its position is returned. */
  lemma SpawnedCell(g: Grid, s: Spawn) returns (r: int, c: int)
    requires IsGrid(g)
    ensures InRange(r, c)
    ensures forall i, j :: InRange(i, j) && (i != r || j != c) ==> SpawnTile(g, s)[i][j] == g[i][j]
  {
    SpawnTileEffect(g, s);
    if HasEmpty(g) {
      r, c :| InRange(r, c) && g[r][c] == 0 && SpawnTile(g, s)[r][c] == s.Value() &&
        forall i, j :: InRange(i, j) && (i != r || j != c) ==> SpawnTile(g, s)[i][j] == g[i][j];
    } else {
      r, c := 0, 0;
    }
  }

  /** Spawning on a grid with room adds the new tile's value to the grid total. */
  lemma SpawnSum(g: Grid, s: Spawn)
    requires IsGrid(g) && HasEmpty(g)
    ensures GridSum(SpawnTile(g, s)) == GridSum(g) + s.Value()
  {
    var ng := SpawnTile(g, s);
    var p := ChooseEmpty(g, s.draw).value;
    assert forall i, j :: InRange(i, j) && (i != p.r || j != p.c) ==> ng[i][j] == g[i][j];
    GridSumCells(g);
    GridSumCells(ng);
  }

  method AddRandomTile(g: Grid, s: Spawn) returns (ng: Grid)
    requires IsGrid(g)
    ensures ng == SpawnTile(g, s)
  {
    var cell := GetRandomEmptyCell(g, s.draw);
    if cell.None? {
      return g;
    }
    var val := s.Value();
    var p := cell.value;
    ng := g[p.r := g[p.r][p.c := val]];
  }

  /** Tiles spawned one after another, starting from g. */
  function SpawnAll(g: Grid, spawns: seq<Spawn>): (ng: Grid)
    requires IsGrid(g)
    ensures IsGrid(ng)
  {
    if spawns == [] then g else SpawnTile(SpawnAll(g, spawns[..|spawns| - 1]), spawns[|spawns| - 1])
  }

  /** The grid a new game starts from: START_TILES tiles spawned on an empty grid. */
  method NewGrid(spawns: seq<Spawn>) returns (g: Grid)
    requires |spawns| == START_TILES
    ensures g == SpawnAll(EmptyGrid(), spawns)
  {
    g := EmptyGrid();
    for i := 0 to START_TILES
      invariant g == SpawnAll(EmptyGrid(), spawns[..i])
    {
      SpawnAllSnoc(EmptyGrid(), spawns, i);
      g := AddRandomTile(g, spawns[i]);
    }
    assert spawns[..START_TILES] == spawns;
  }

  lemma SpawnAllSnoc(g: Grid, spawns: seq<Spawn>, i: nat)
    requires IsGrid(g) && i < |spawns|
    ensures SpawnAll(g, spawns[..i + 1]) == SpawnTile(SpawnAll(g, spawns[..i]), spawns[i])
  {
    var pre := spawns[..i + 1];
    assert pre[..|pre| - 1] == spawns[..i] && pre[|pre| - 1] == spawns[i];
  }

  lemma SpawnAllTwo(g: Grid, spawns: seq<Spawn>)
    requires IsGrid(g) && |spawns| == 2
    ensures SpawnAll(g, spawns) == SpawnTile(SpawnTile(g, spawns[0]), spawns[1])
  {
    var first := spawns[..1];
    assert first[..0] == [] && first[0] == spawns[0];
    assert SpawnAll(g, first) == SpawnTile(g, spawns[0]);
    assert spawns[..|spawns| - 1] == first;
  }

  /** A fresh grid holds two tiles at most, so it has room and the game is not over. */
  lemma NewGridPlayable(spawns: seq<Spawn>)
    requires |spawns| == START_TILES
    ensures HasEmpty(SpawnAll(EmptyGrid(), spawns))
    ensures !IsOver(SpawnAll(EmptyGrid(), spawns))
  {
    var g0 := EmptyGrid();
    var g1 := SpawnTile(g0, spawns[0]);
    var g2 := SpawnTile(g1, spawns[1]);
    SpawnAllTwo(g0, spawns);
    var r1, c1 := SpawnedCell(g0, spawns[0]);
    var r2, c2 := SpawnedCell(g1, spawns[1]);
    var c := if (r1 != 0 || c1 != 0) && (r2 != 0 || c2 != 0) then 0
      else if (r1 != 0 || c1 != 1) && (r2 != 0 || c2 != 1) then 1
      else 2;
    assert g1[0][c] == g0[0][c] == 0;
    assert g2[0][c] == g1[0][c];
  }

  method IsGameOver(g: Grid) returns (over: bool)
    requires IsGrid(g)
    ensures over == IsOver(g)
  {
    var empty := FindEmpty(g);
    if empty {
      return false;
    }
    var moved := AnyMove(g);
    return !moved;
  }

  /** The cell loops at the start of isGameOver: an empty cell means the game goes on. */
  method FindEmpty(g: Grid) returns (found: bool)
    requires IsGrid(g)
    ensures found == HasEmpty(g)
  {
    for r := 0 to SIZE
      invariant forall i, j :: 0 <= i < r && 0 <= j < SIZE ==> g[i][j] != 0
    {
      for c := 0 to SIZE
        invariant forall i, j :: 0 <= i < r && 0 <= j < SIZE ==> g[i][j] != 0
        invariant forall j :: 0 <= j < c ==> g[r][j] != 0
      {
        if g[r][c] == 0 {
          return true;
        }
      }
    }
    return false;
  }

  /** The loop of isGameOver over ["left", "right", "up", "down"]: does some move change the grid? */
  method AnyMove(g: Grid) returns (moved: bool)
    requires IsGrid(g)
    ensures moved == CanMove(g)
  {
    var dirs := [Left, Right, Up, Down];
    for k := 0 to |dirs|
      invariant 0 < k ==> !Move(g, Left).moved
      invariant 1 < k ==> !Move(g, Right).moved
      invariant 2 < k ==> !Move(g, Up).moved
      invariant 3 < k ==> !Move(g, Down).moved
    {
      var m := MoveGrid(g, dirs[k]);
      if m.moved {
        return true;
      }
    }
    return false;
  }

  /** The page's state: the grid, the score, the best score and the game-over flag. */
  class Game {
    var grid: Grid
    var score: int
    var best: int
    var gameOver: bool

    /** The page after its effect has run: gameOver is isGameOver(grid) and best is at least score. */
    ghost predicate Valid()
      reads this
    {
      IsGrid(grid) && gameOver == IsOver(grid) && score <= best
    }

    /**
     * A fresh game; storedBest is the best score read back from storage
     * (None when there is none, which reads as 0).
     */
    constructor(storedBest: Option<int>, spawns: seq<Spawn>)
      requires |spawns| == START_TILES
      ensures Valid()
      ensures grid == SpawnAll(EmptyGrid(), spawns) && score == 0 && !gameOver
      ensures best == match storedBest case None => 0 case Some(b) => if b < 0 then 0 else b
    {
      var g := NewGrid(spawns);
      grid := g;
      score := 0;
      best := match storedBest case None => 0 case Some(b) => b;
      gameOver := false;
      NewGridPlayable(spawns);
      new;
      SyncEffect();
    }

    /** The effect that runs whenever grid or score change. */
    method SyncEffect()
      requires IsGrid(grid)
      modifies this
      ensures grid == old(grid) && score == old(score)
      ensures best == if old(score) > old(best) then old(score) else old(best)
      ensures gameOver == IsOver(grid)
      ensures Valid()
    {
      if score > best {
        best := score;
      }
      gameOver := IsGameOver(grid);
    }

    /**
     * handleMove: ignored when the game is over or the move changes nothing;
     * otherwise spawn a tile on the moved grid, add the points, and let the
     * effect update best and gameOver.
     */
    method HandleMove(d: Direction, s: Spawn)
      requires Valid()
      modifies this
      ensures Valid()
      ensures best >= old(best)
      ensures old(gameOver) || !Move(old(grid), d).moved ==>
        grid == old(grid) && score == old(score) && best == old(best) && gameOver == old(gameOver)
      ensures !old(gameOver) && Move(old(grid), d).moved ==>
        && grid == SpawnTile(Move(old(grid), d).grid, s)
        && score == old(score) + Move(old(grid), d).scoreGained
        && best == (if score > old(best) then score else old(best))
    {
      if gameOver {
        return;
      }
      var m := MoveGrid(grid, d);
      if !m.moved {
        return;
      }
      MoveSum(grid, d);
      var withTile := AddRandomTile(m.grid, s);
      grid := withTile;
      score := score + m.scoreGained;
      SyncEffect();
    }

    /** restart: a fresh grid, score 0, best kept. */
    method Restart(spawns: seq<Spawn>)
      requires Valid() && |spawns| == START_TILES
      modifies this
      ensures Valid()
      ensures grid == SpawnAll(EmptyGrid(), spawns) && score == 0 && !gameOver
      ensures best == if old(best) < 0 then 0 else old(best)
    {
      var g := NewGrid(spawns);
      grid := g;
      score := 0;
      gameOver := false;
      NewGridPlayable(spawns);
      SyncEffect();
    }
  }
}
