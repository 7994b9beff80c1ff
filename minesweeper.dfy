/**
 * The Minesweeper board engine: board configurations per difficulty, mine
 * placement by rejection sampling, adjacent-mine counting, the recursive
 * flood-fill reveal, and the page's click, right-click and reset handlers.
 */
module Minesweeper {
  import opened Wrappers

  /** One square of the board. */
  datatype Cell = Cell(hasMine: bool, revealed: bool, flagged: bool, adjacentMines: int)

  datatype Difficulty = Easy | Medium | Hard

  datatype Config = Config(rows: nat, cols: nat, mines: nat)

  datatype Pos = Pos(r: int, c: int)

  /** getBoardConfig: the board size and mine count of each difficulty. */
  function BoardConfig(d: Difficulty): (cfg: Config)
    ensures 0 < cfg.mines < cfg.rows * cfg.cols
    ensures d == Hard ==> cfg.rows < cfg.cols
    ensures d != Hard ==> cfg.rows == cfg.cols
  {
    match d
    case Easy => Config(9, 9, 10)
    case Medium => Config(16, 16, 40)
    case Hard => Config(16, 30, 99)
  }

  /** A fresh square: no mine, hidden, unflagged, count 0. */
  const Blank: Cell := Cell(false, false, false, 0)

  predicate InGrid(rows: int, cols: int, r: int, c: int) {
    0 <= r < rows && 0 <= c < cols
  }

  /** (nr, nc) lies in the 3x3 window centred on (r, c); the window includes (r, c) itself. */
  predicate Adjacent(r: int, c: int, nr: int, nc: int) {
    -1 <= nr - r <= 1 && -1 <= nc - c <= 1
  }

  // ---------------------------------------------------------------------------
  // Counting adjacent mines
  // ---------------------------------------------------------------------------

  /** Mined in-bounds cells in row nr, at the first k columns of c-1, c, c+1 (the dc loop). */
  function RowWindow(mines: set<Pos>, rows: int, cols: int, nr: int, c: int, k: nat): nat
    requires k <= 3
  {
    if k == 0 then 0
    else
      var hit := if InGrid(rows, cols, nr, c - 2 + k) && Pos(nr, c - 2 + k) in mines then 1 else 0;
      RowWindow(mines, rows, cols, nr, c, k - 1) + hit
  }

  /** Mined in-bounds cells in the first k rows of r-1, r, r+1 of the window (the dr loop). */
  function Window(mines: set<Pos>, rows: int, cols: int, r: int, c: int, k: nat): nat
    requires k <= 3
  {
    if k == 0 then 0
    else Window(mines, rows, cols, r, c, k - 1) + RowWindow(mines, rows, cols, r - 2 + k, c, 3)
  }

  /** The count generateBoard stores in a mine-free cell. */
  function AdjacentCount(mines: set<Pos>, rows: int, cols: int, r: int, c: int): nat
  {
    Window(mines, rows, cols, r, c, 3)
  }

  /** Reference definition: the mined in-bounds cells among the 8 neighbours of (r, c). */
  ghost function NeighbourMines(mines: set<Pos>, rows: int, cols: int, r: int, c: int): set<Pos>
  {
    set p | p in mines && InGrid(rows, cols, p.r, p.c) && Adjacent(r, c, p.r, p.c) && p != Pos(r, c)
  }

  ghost function RowSet(mines: set<Pos>, rows: int, cols: int, nr: int, c: int, k: nat): set<Pos>
  {
    set p | p in mines && InGrid(rows, cols, p.r, p.c) && p.r == nr && c - 1 <= p.c < c - 1 + k
  }

  ghost function WindowSet(mines: set<Pos>, rows: int, cols: int, r: int, c: int, k: nat): set<Pos>
  {
    set p | p in mines && InGrid(rows, cols, p.r, p.c) && r - 1 <= p.r < r - 1 + k && -1 <= p.c - c <= 1
  }

  lemma {:induction false} RowWindowCard(mines: set<Pos>, rows: int, cols: int, nr: int, c: int, k: nat)
    requires k <= 3
    ensures RowWindow(mines, rows, cols, nr, c, k) == |RowSet(mines, rows, cols, nr, c, k)|
  {
    if k > 0 {
      RowWindowCard(mines, rows, cols, nr, c, k - 1);
      var p := Pos(nr, c - 2 + k);
      var prev := RowSet(mines, rows, cols, nr, c, k - 1);
      if InGrid(rows, cols, nr, c - 2 + k) && p in mines {
        assert RowSet(mines, rows, cols, nr, c, k) == prev + {p};
        assert p !in prev;
      } else {
        assert RowSet(mines, rows, cols, nr, c, k) == prev;
      }
    }
  }

  lemma {:induction false} WindowCard(mines: set<Pos>, rows: int, cols: int, r: int, c: int, k: nat)
    requires k <= 3
    ensures Window(mines, rows, cols, r, c, k) == |WindowSet(mines, rows, cols, r, c, k)|
  {
    if k > 0 {
      WindowCard(mines, rows, cols, r, c, k - 1);
      RowWindowCard(mines, rows, cols, r - 2 + k, c, 3);
      var prev := WindowSet(mines, rows, cols, r, c, k - 1);
      var row := RowSet(mines, rows, cols, r - 2 + k, c, 3);
      assert WindowSet(mines, rows, cols, r, c, k) == prev + row;
      assert prev * row == {};
    }
  }

  /**
   * The stored count of a mine-free cell is the number of mined neighbours.
   * The source's loops also visit the cell itself, which holds no mine.
   */
  lemma AdjacentCountIsNeighbours(mines: set<Pos>, rows: int, cols: int, r: int, c: int)
    requires Pos(r, c) !in mines
    ensures AdjacentCount(mines, rows, cols, r, c) == |NeighbourMines(mines, rows, cols, r, c)|
  {
    WindowCard(mines, rows, cols, r, c, 3);
    assert WindowSet(mines, rows, cols, r, c, 3) == NeighbourMines(mines, rows, cols, r, c);
  }

  /** A count of 0 means no mine anywhere in the 3x3 window. */
  lemma ZeroCountNoMine(mines: set<Pos>, rows: int, cols: int, r: int, c: int)
    requires AdjacentCount(mines, rows, cols, r, c) == 0
    ensures forall nr, nc :: InGrid(rows, cols, nr, nc) && Adjacent(r, c, nr, nc) ==> Pos(nr, nc) !in mines
  {
    WindowCard(mines, rows, cols, r, c, 3);
    var w := WindowSet(mines, rows, cols, r, c, 3);
    forall nr, nc | InGrid(rows, cols, nr, nc) && Adjacent(r, c, nr, nc)
      ensures Pos(nr, nc) !in mines
    {
      assert Pos(nr, nc) in mines ==> Pos(nr, nc) in w;
    }
  }

  // ---------------------------------------------------------------------------
  // Placing mines
  // ---------------------------------------------------------------------------

  ghost function Elements(ds: seq<Pos>): set<Pos>
  {
    set i | 0 <= i < |ds| :: ds[i]
  }

  lemma {:induction false} SubsetCard(a: set<Pos>, b: set<Pos>)
    requires a <= b
    ensures |a| <= |b|
    decreases b
  {
    if b != {} {
      var x :| x in b;
      SubsetCard(a - {x}, b - {x});
    }
  }

  /**
   * The cells the placement loop mines when the random cells arrive in the
   * order of draws: a drawn cell that is already mined is skipped, and
   * drawing stops once `mines` cells are mined.
   */
  ghost function Placed(draws: seq<Pos>, mines: nat): (p: set<Pos>)
    ensures |p| <= mines
    ensures p <= Elements(draws)
    ensures |p| < mines ==> p == Elements(draws)
  {
    if draws == [] then {}
    else
      ElementsSnoc(draws);
      var prev := Placed(draws[..|draws| - 1], mines);
      var d := draws[|draws| - 1];
      if |prev| < mines then prev + {d} else prev
  }

  lemma ElementsSnoc(ds: seq<Pos>)
    requires ds != []
    ensures Elements(ds) == Elements(ds[..|ds| - 1]) + {ds[|ds| - 1]}
  {
    var front := ds[..|ds| - 1];
    assert forall i :: 0 <= i < |front| ==> front[i] == ds[i];
  }

  /** Draws after the last needed mine are never looked at. */
  lemma {:induction false} PlacedSaturated(draws: seq<Pos>, mines: nat, i: nat)
    requires i <= |draws| && |Placed(draws[..i], mines)| == mines
    ensures Placed(draws, mines) == Placed(draws[..i], mines)
    decreases |draws|
  {
    if i < |draws| {
      var front := draws[..|draws| - 1];
      assert front[..i] == draws[..i];
      PlacedSaturated(front, mines, i);
    } else {
      assert draws[..i] == draws;
    }
  }

  /** Placement mines `mines` distinct cells exactly when the draws hold that many distinct cells. */
  lemma PlacedCount(draws: seq<Pos>, mines: nat)
    ensures |Placed(draws, mines)| == if mines <= |Elements(draws)| then mines else |Elements(draws)|
  {
    var p := Placed(draws, mines);
    if |p| == mines {
      SubsetCard(p, Elements(draws));
    }
  }

  lemma PlacedStep(draws: seq<Pos>, mines: nat, i: nat)
    requires i < |draws| && |Placed(draws[..i], mines)| < mines
    ensures Placed(draws[..i + 1], mines) == Placed(draws[..i], mines) + {draws[i]}
  {
    var pre := draws[..i + 1];
    assert pre[..|pre| - 1] == draws[..i];
  }

  /** The inner dr/dc loops of generateBoard for the cell (r, c). */
  method CountAround(board: array2<Cell>, r: int, c: int, ghost mines: set<Pos>) returns (count: nat)
    requires forall i, j :: InGrid(board.Length0, board.Length1, i, j) ==> (board[i, j].hasMine <==> Pos(i, j) in mines)
    ensures count == AdjacentCount(mines, board.Length0, board.Length1, r, c)
  {
    var rows, cols := board.Length0, board.Length1;
    count := 0;
    for dr := -1 to 2
      invariant count == Window(mines, rows, cols, r, c, dr + 1)
    {
      for dc := -1 to 2
        invariant count == Window(mines, rows, cols, r, c, dr + 1) + RowWindow(mines, rows, cols, r + dr, c, dc + 1)
      {
        var nr := r + dr;
        var nc := c + dc;
        if nr >= 0 && nr < rows && nc >= 0 && nc < cols && board[nr, nc].hasMine {
          count := count + 1;
        }
      }
    }
  }

  /** The loop `while (placed < mines)` of generateBoard, reading the random cells from draws. */
  method PlaceMines(board: array2<Cell>, mines: nat, draws: seq<Pos>) returns (ok: bool)
    requires forall i :: 0 <= i < |draws| ==> InGrid(board.Length0, board.Length1, draws[i].r, draws[i].c)
    requires forall r, c :: InGrid(board.Length0, board.Length1, r, c) ==> board[r, c] == Blank
    modifies board
    ensures ok <==> mines <= |Elements(draws)|
    ensures |Placed(draws, mines)| == if ok then mines else |Elements(draws)|
    ensures forall r, c :: InGrid(board.Length0, board.Length1, r, c) ==>
      board[r, c] == Blank.(hasMine := Pos(r, c) in Placed(draws, mines))
  {
    ghost var placedSet: set<Pos> := {};
    var placed := 0;
    var i := 0;
    while placed < mines && i < |draws|
      invariant 0 <= i <= |draws|
      invariant placedSet == Placed(draws[..i], mines)
      invariant placed == |placedSet|
      invariant forall r, c :: InGrid(board.Length0, board.Length1, r, c) ==>
        board[r, c] == Blank.(hasMine := Pos(r, c) in placedSet)
    {
      var d := draws[i];
      PlacedStep(draws, mines, i);
      assert board[d.r, d.c].hasMine <==> d in placedSet;
      if !board[d.r, d.c].hasMine {
        board[d.r, d.c] := Blank.(hasMine := true);
        placed := placed + 1;
        assert |placedSet + {d}| == |placedSet| + 1;
      } else {
        assert placedSet + {d} == placedSet;
      }
      placedSet := placedSet + {d};
      i := i + 1;
    }
    PlacedAtExit(draws, mines, i);
    PlacedCount(draws, mines);
    ok := placed == mines;
  }

  lemma PlacedAtExit(draws: seq<Pos>, mines: nat, i: nat)
    requires i <= |draws|
    requires |Placed(draws[..i], mines)| >= mines || i == |draws|
    ensures Placed(draws, mines) == Placed(draws[..i], mines)
  {
    if i < |draws| {
      PlacedSaturated(draws, mines, i);
    } else {
      assert draws[..i] == draws;
    }
  }

  /** The counting loops of generateBoard: every mine-free cell gets its count, mined cells keep 0. */
  method FillCounts(board: array2<Cell>, ghost m: set<Pos>)
    requires forall r, c :: InGrid(board.Length0, board.Length1, r, c) ==> board[r, c] == Blank.(hasMine := Pos(r, c) in m)
    modifies board
    ensures forall i, j :: InGrid(board.Length0, board.Length1, i, j) ==>
      board[i, j] == Blank.(hasMine := Pos(i, j) in m)
                          .(adjacentMines := if Pos(i, j) in m then 0 else AdjacentCount(m, board.Length0, board.Length1, i, j))
  {
    var rows, cols := board.Length0, board.Length1;
    for r := 0 to rows
      invariant forall i, j :: InGrid(rows, cols, i, j) ==>
        board[i, j] == Blank.(hasMine := Pos(i, j) in m)
                            .(adjacentMines := if i < r && Pos(i, j) !in m then AdjacentCount(m, rows, cols, i, j) else 0)
    {
      for c := 0 to cols
        invariant forall i, j :: InGrid(rows, cols, i, j) ==>
          board[i, j] == Blank.(hasMine := Pos(i, j) in m)
                              .(adjacentMines := if (i < r || (i == r && j < c)) && Pos(i, j) !in m
                                                 then AdjacentCount(m, rows, cols, i, j) else 0)
      {
        if !board[r, c].hasMine {
          var count := CountAround(board, r, c, m);
          board[r, c] := board[r, c].(adjacentMines := count);
        }
      }
    }
  }

  /**
   * generateBoard, with the random cells given as draws. The source keeps
   * drawing until `mines` cells are mined; a finite list of draws can run
   * out first, and then ok is false.
   */
  method GenerateBoard(rows: nat, cols: nat, mines: nat, draws: seq<Pos>) returns (board: array2<Cell>, ok: bool)
    requires forall i :: 0 <= i < |draws| ==> InGrid(rows, cols, draws[i].r, draws[i].c)
    ensures fresh(board)
    ensures board.Length0 == rows && board.Length1 == cols
    ensures ok <==> mines <= |Elements(draws)|
    ensures |Placed(draws, mines)| == if ok then mines else |Elements(draws)|
    ensures forall r, c :: InGrid(rows, cols, r, c) ==>
      && (board[r, c].hasMine <==> Pos(r, c) in Placed(draws, mines))
      && !board[r, c].revealed && !board[r, c].flagged
      && board[r, c].adjacentMines ==
           if board[r, c].hasMine then 0 else AdjacentCount(Placed(draws, mines), rows, cols, r, c)
    ensures ZeroMeansSafe(board)
    ensures MinesOf(Snap(board), rows, cols) == Placed(draws, mines)
    ensures Counted(Snap(board), rows, cols)
  {
    board := new Cell[rows, cols]((_, _) => Blank);
    ok := PlaceMines(board, mines, draws);
    ghost var m := Placed(draws, mines);
    FillCounts(board, m);
    forall p | p in m
      ensures InGrid(rows, cols, p.r, p.c)
    {
      var i :| 0 <= i < |draws| && draws[i] == p;
    }
    GeneratedCounted(Snap(board), rows, cols, m);
  }

  /** A board filled as generateBoard fills it has mines m and correct counts, and is safe. */
  lemma GeneratedCounted(s: Snapshot, rows: int, cols: int, m: set<Pos>)
    requires Shape(s, rows, cols)
    requires forall p :: p in m ==> InGrid(rows, cols, p.r, p.c)
    requires forall i, j :: InGrid(rows, cols, i, j) ==>
      s[i][j] == Blank.(hasMine := Pos(i, j) in m)
                      .(adjacentMines := if Pos(i, j) in m then 0 else AdjacentCount(m, rows, cols, i, j))
    ensures MinesOf(s, rows, cols) == m
    ensures Counted(s, rows, cols)
    ensures Safe(s, rows, cols)
  {
    assert MinesOf(s, rows, cols) == m;
    CountedSafe(s, rows, cols);
  }

  // ---------------------------------------------------------------------------
  // Revealing
  // ---------------------------------------------------------------------------

  /** A mine-free cell with count 0: the cells from which the fill spreads. */
  predicate Empty(cell: Cell) {
    cell.adjacentMines == 0 && !cell.hasMine
  }

  /** A board state as a value, so that states before and after a step can be compared. */
  type Snapshot = seq<seq<Cell>>

  predicate Shape(s: Snapshot, rows: int, cols: int) {
    |s| == rows && forall i :: 0 <= i < |s| ==> |s[i]| == cols
  }

  ghost function Snap(b: array2<Cell>): (s: Snapshot)
    reads b
    ensures Shape(s, b.Length0, b.Length1)
    ensures forall i, j :: InGrid(b.Length0, b.Length1, i, j) ==> s[i][j] == b[i, j]
  {
    seq(b.Length0, i reads b =>
      seq(b.Length1, j reads b => if 0 <= i < b.Length0 && 0 <= j < b.Length1 then b[i, j] else Blank))
  }

  /** The hidden cells of a state; the fill's recursion makes this set smaller. */
  ghost function Hidden(s: Snapshot, rows: int, cols: int): set<Pos>
    requires Shape(s, rows, cols)
  {
    set i, j | 0 <= i < rows && 0 <= j < cols && !s[i][j].revealed :: Pos(i, j)
  }

  /**
   * s1 differs from s0 only in revealed flags, those only go from false to
   * true, and a flagged cell keeps its revealed flag.
   */
  ghost predicate Grown(s0: Snapshot, s1: Snapshot, rows: int, cols: int)
    requires Shape(s0, rows, cols) && Shape(s1, rows, cols)
  {
    forall i, j :: InGrid(rows, cols, i, j) ==>
      && s1[i][j] == s0[i][j].(revealed := s1[i][j].revealed)
      && (s0[i][j].revealed ==> s1[i][j].revealed)
      && (s0[i][j].flagged ==> s1[i][j].revealed == s0[i][j].revealed)
  }

  predicate Newly(s0: Snapshot, s1: Snapshot, rows: int, cols: int, i: int, j: int)
    requires Shape(s0, rows, cols) && Shape(s1, rows, cols) && InGrid(rows, cols, i, j)
  {
    !s0[i][j].revealed && s1[i][j].revealed
  }

  /** Every empty cell that went from hidden to revealed, except (r, c), has no hidden unflagged neighbour. */
  ghost predicate ClosedBut(s0: Snapshot, s1: Snapshot, rows: int, cols: int, r: int, c: int)
    requires Shape(s0, rows, cols) && Shape(s1, rows, cols)
  {
    forall i, j :: InGrid(rows, cols, i, j) && (i != r || j != c) && Newly(s0, s1, rows, cols, i, j) && Empty(s1[i][j]) ==>
      forall ni, nj :: InGrid(rows, cols, ni, nj) && Adjacent(i, j, ni, nj) ==> s1[ni][nj].revealed || s1[ni][nj].flagged
  }

  /** Every empty cell that went from hidden to revealed has no hidden unflagged neighbour. */
  ghost predicate Closed(s0: Snapshot, s1: Snapshot, rows: int, cols: int)
    requires Shape(s0, rows, cols) && Shape(s1, rows, cols)
  {
    forall i, j :: InGrid(rows, cols, i, j) && Newly(s0, s1, rows, cols, i, j) && Empty(s1[i][j]) ==>
      forall ni, nj :: InGrid(rows, cols, ni, nj) && Adjacent(i, j, ni, nj) ==> s1[ni][nj].revealed || s1[ni][nj].flagged
  }

  /**
   * An empty cell revealed between s0 and s1. Stated without Newly, so that
   * a witness of Supported does not feed the triggers of Chain.
   */
  predicate Source(s0: Snapshot, s1: Snapshot, rows: int, cols: int, i: int, j: int)
    requires Shape(s0, rows, cols) && Shape(s1, rows, cols) && InGrid(rows, cols, i, j)
  {
    !s0[i][j].revealed && s1[i][j].revealed && Empty(s1[i][j])
  }

  /** The k-th cell of a reveal order neighbours an empty cell revealed earlier in the order. */
  ghost predicate Supported(s0: Snapshot, s1: Snapshot, rows: int, cols: int, order: seq<Pos>, k: int)
    requires Shape(s0, rows, cols) && Shape(s1, rows, cols) && 0 <= k < |order|
  {
    exists m :: 0 <= m < k && InGrid(rows, cols, order[m].r, order[m].c) &&
      Adjacent(order[m].r, order[m].c, order[k].r, order[k].c) && Source(s0, s1, rows, cols, order[m].r, order[m].c)
  }

  /**
   * The cells revealed from s0 to s1, in the order a fill from (r, c)
   * revealed them: (r, c) first, then each cell next to an empty cell
   * revealed before it. So every revealed cell is connected to the start.
   */
  ghost predicate Chain(s0: Snapshot, s1: Snapshot, rows: int, cols: int, r: int, c: int, order: seq<Pos>)
    requires Shape(s0, rows, cols) && Shape(s1, rows, cols)
  {
    && (forall k :: 0 <= k < |order| ==> InGrid(rows, cols, order[k].r, order[k].c))
    && (forall i, j :: InGrid(rows, cols, i, j) ==> (Newly(s0, s1, rows, cols, i, j) <==> Pos(i, j) in order))
    && (|order| > 0 ==> order[0] == Pos(r, c))
    && (forall k {:trigger Supported(s0, s1, rows, cols, order, k)} :: 0 < k < |order| ==> Supported(s0, s1, rows, cols, order, k))
  }

  /** The state a generated board guarantees: the window of an empty cell holds no mine. */
  ghost predicate Safe(s: Snapshot, rows: int, cols: int)
    requires Shape(s, rows, cols)
  {
    forall i, j, ni, nj :: InGrid(rows, cols, i, j) && InGrid(rows, cols, ni, nj) && Adjacent(i, j, ni, nj) && Empty(s[i][j]) ==>
      !s[ni][nj].hasMine
  }

  ghost predicate ZeroMeansSafe(b: array2<Cell>)
    reads b
  {
    Safe(Snap(b), b.Length0, b.Length1)
  }

  lemma GrownHidden(s0: Snapshot, s1: Snapshot, rows: int, cols: int)
    requires Shape(s0, rows, cols) && Shape(s1, rows, cols) && Grown(s0, s1, rows, cols)
    ensures Hidden(s1, rows, cols) <= Hidden(s0, rows, cols)
  {
  }

  lemma GrownTrans(s0: Snapshot, s1: Snapshot, s2: Snapshot, rows: int, cols: int)
    requires Shape(s0, rows, cols) && Shape(s1, rows, cols) && Shape(s2, rows, cols)
    requires Grown(s0, s1, rows, cols) && Grown(s1, s2, rows, cols)
    ensures Grown(s0, s2, rows, cols)
  {
  }

  /** Closure survives a nested fill, which closes what it reveals and only reveals more. */
  lemma ClosedStep(s0: Snapshot, s1: Snapshot, s2: Snapshot, rows: int, cols: int, r: int, c: int)
    requires Shape(s0, rows, cols) && Shape(s1, rows, cols) && Shape(s2, rows, cols)
    requires Grown(s0, s1, rows, cols) && Grown(s1, s2, rows, cols)
    requires ClosedBut(s0, s1, rows, cols, r, c) && Closed(s1, s2, rows, cols)
    ensures ClosedBut(s0, s2, rows, cols, r, c)
  {
    forall i, j | InGrid(rows, cols, i, j) && (i != r || j != c) && Newly(s0, s2, rows, cols, i, j) && Empty(s2[i][j])
      ensures forall ni, nj :: InGrid(rows, cols, ni, nj) && Adjacent(i, j, ni, nj) ==> s2[ni][nj].revealed || s2[ni][nj].flagged
    {
      if !Newly(s1, s2, rows, cols, i, j) {
        assert Newly(s0, s1, rows, cols, i, j) && Empty(s1[i][j]);
      }
    }
  }

  /** A source of s0 to s1 stays a source of s0 to s2 when s2 has grown from s1. */
  lemma SourceKeeps(s0: Snapshot, s1: Snapshot, s2: Snapshot, rows: int, cols: int, i: int, j: int)
    requires Shape(s0, rows, cols) && Shape(s1, rows, cols) && Shape(s2, rows, cols)
    requires Grown(s0, s1, rows, cols) && Grown(s1, s2, rows, cols) && InGrid(rows, cols, i, j)
    requires Source(s0, s1, rows, cols, i, j) || Source(s1, s2, rows, cols, i, j)
    ensures Source(s0, s2, rows, cols, i, j)
  {
  }

  /**
   * The reveal order of a fill from the empty start (r, c), followed by the
   * order of a nested fill from its hidden neighbour (nr, nc), is a reveal
   * order of the whole.
   */
  lemma ChainStep(s0: Snapshot, s1: Snapshot, s2: Snapshot, rows: int, cols: int, r: int, c: int, nr: int, nc: int,
                  o1: seq<Pos>, o2: seq<Pos>)
    requires Shape(s0, rows, cols) && Shape(s1, rows, cols) && Shape(s2, rows, cols)
    requires Grown(s0, s1, rows, cols) && Grown(s1, s2, rows, cols)
    requires InGrid(rows, cols, r, c) && Newly(s0, s1, rows, cols, r, c) && Empty(s1[r][c])
    requires InGrid(rows, cols, nr, nc) && Adjacent(r, c, nr, nc)
    requires Chain(s0, s1, rows, cols, r, c, o1) && Chain(s1, s2, rows, cols, nr, nc, o2)
    ensures Chain(s0, s2, rows, cols, r, c, o1 + o2)
  {
    var o := o1 + o2;
    assert Pos(r, c) in o1;
    forall i, j | InGrid(rows, cols, i, j)
      ensures Newly(s0, s2, rows, cols, i, j) <==> Pos(i, j) in o
    {
      if s1[i][j].revealed {
        assert Newly(s0, s2, rows, cols, i, j) <==> Newly(s0, s1, rows, cols, i, j);
        assert !Newly(s1, s2, rows, cols, i, j);
      } else {
        assert !Newly(s0, s1, rows, cols, i, j);
        assert Newly(s0, s2, rows, cols, i, j) <==> Newly(s1, s2, rows, cols, i, j);
      }
    }
    forall k | 0 < k < |o|
      ensures Supported(s0, s2, rows, cols, o, k)
    {
      if k < |o1| {
        assert Supported(s0, s1, rows, cols, o1, k);
        var m :| 0 <= m < k && InGrid(rows, cols, o1[m].r, o1[m].c) &&
          Adjacent(o1[m].r, o1[m].c, o1[k].r, o1[k].c) && Source(s0, s1, rows, cols, o1[m].r, o1[m].c);
        SourceKeeps(s0, s1, s2, rows, cols, o1[m].r, o1[m].c);
        assert o[m] == o1[m] && o[k] == o1[k];
      } else if k == |o1| {
        assert o[k] == Pos(nr, nc) && o[0] == Pos(r, c);
        assert Source(s0, s2, rows, cols, r, c);
      } else {
        var k2 := k - |o1|;
        assert Supported(s1, s2, rows, cols, o2, k2);
        var m :| 0 <= m < k2 && InGrid(rows, cols, o2[m].r, o2[m].c) &&
          Adjacent(o2[m].r, o2[m].c, o2[k2].r, o2[k2].c) && Source(s1, s2, rows, cols, o2[m].r, o2[m].c);
        SourceKeeps(s0, s1, s2, rows, cols, o2[m].r, o2[m].c);
        assert o[|o1| + m] == o2[m] && o[k] == o2[k2];
      }
    }
  }

  /** On a safe board, a fill started at a mine-free cell reveals no mine. */
  lemma SafeFill(s0: Snapshot, s1: Snapshot, rows: int, cols: int, r: int, c: int, order: seq<Pos>)
    requires Shape(s0, rows, cols) && Shape(s1, rows, cols)
    requires Chain(s0, s1, rows, cols, r, c, order) && Safe(s1, rows, cols)
    requires InGrid(rows, cols, r, c) && !s1[r][c].hasMine
    ensures forall i, j :: InGrid(rows, cols, i, j) && Newly(s0, s1, rows, cols, i, j) ==> !s1[i][j].hasMine
  {
    forall i, j | InGrid(rows, cols, i, j) && Newly(s0, s1, rows, cols, i, j)
      ensures !s1[i][j].hasMine
    {
      var k :| 0 <= k < |order| && order[k] == Pos(i, j);
      if k > 0 {
        assert Supported(s0, s1, rows, cols, order, k);
        var m :| 0 <= m < k && InGrid(rows, cols, order[m].r, order[m].c) &&
          Adjacent(order[m].r, order[m].c, i, j) && Source(s0, s1, rows, cols, order[m].r, order[m].c);
      }
    }
  }

  /** What holds between the start s0 of a fill from the empty cell (r, c) and a later state s. */
  ghost predicate FillInv(s0: Snapshot, s: Snapshot, rows: int, cols: int, r: int, c: int, order: seq<Pos>)
    requires Shape(s0, rows, cols) && Shape(s, rows, cols)
  {
    && InGrid(rows, cols, r, c)
    && Grown(s0, s, rows, cols)
    && Newly(s0, s, rows, cols, r, c) && Empty(s[r][c])
    && ClosedBut(s0, s, rows, cols, r, c)
    && Chain(s0, s, rows, cols, r, c, order)
  }

  /** A nested fill from a hidden neighbour (nr, nc) keeps the invariant of the outer fill. */
  lemma FillStep(s0: Snapshot, s1: Snapshot, s2: Snapshot, rows: int, cols: int, r: int, c: int, nr: int, nc: int,
                 o1: seq<Pos>, o2: seq<Pos>)
    requires Shape(s0, rows, cols) && Shape(s1, rows, cols) && Shape(s2, rows, cols)
    requires FillInv(s0, s1, rows, cols, r, c, o1)
    requires InGrid(rows, cols, nr, nc) && Adjacent(r, c, nr, nc)
    requires Grown(s1, s2, rows, cols) && Closed(s1, s2, rows, cols) && Chain(s1, s2, rows, cols, nr, nc, o2)
    ensures FillInv(s0, s2, rows, cols, r, c, o1 + o2)
  {
    GrownTrans(s0, s1, s2, rows, cols);
    ClosedStep(s0, s1, s2, rows, cols, r, c);
    ChainStep(s0, s1, s2, rows, cols, r, c, nr, nc, o1, o2);
  }

  /** The neighbours of (r, c) that the dr/dc loops have visited before reaching offset (dr, dc) are revealed or flagged. */
  ghost predicate Visited(s: Snapshot, rows: int, cols: int, r: int, c: int, dr: int, dc: int)
    requires Shape(s, rows, cols)
  {
    forall ni, nj :: InGrid(rows, cols, ni, nj) && Adjacent(r, c, ni, nj) && (ni < r + dr || (ni == r + dr && nj < c + dc)) ==>
      s[ni][nj].revealed || s[ni][nj].flagged
  }

  lemma VisitedStep(s1: Snapshot, s2: Snapshot, rows: int, cols: int, r: int, c: int, dr: int, dc: int)
    requires Shape(s1, rows, cols) && Shape(s2, rows, cols) && Grown(s1, s2, rows, cols)
    requires Visited(s1, rows, cols, r, c, dr, dc)
    requires InGrid(rows, cols, r + dr, c + dc) ==> s2[r + dr][c + dc].revealed || s2[r + dr][c + dc].flagged
    ensures Visited(s2, rows, cols, r, c, dr, dc + 1)
  {
  }

  lemma VisitedSkip(s: Snapshot, rows: int, cols: int, r: int, c: int, dr: int, dc: int)
    requires Shape(s, rows, cols) && Visited(s, rows, cols, r, c, dr, dc)
    requires InGrid(rows, cols, r + dr, c + dc) ==> s[r + dr][c + dc].revealed || s[r + dr][c + dc].flagged
    ensures Visited(s, rows, cols, r, c, dr, dc + 1)
  {
  }

  lemma VisitedRow(s: Snapshot, rows: int, cols: int, r: int, c: int, dr: int)
    requires Shape(s, rows, cols) && Visited(s, rows, cols, r, c, dr, 2)
    ensures Visited(s, rows, cols, r, c, dr + 1, -1)
  {
  }

  /** Once every neighbour of the empty start is visited, the start is closed too. */
  lemma CloseStart(s0: Snapshot, s1: Snapshot, rows: int, cols: int, r: int, c: int)
    requires Shape(s0, rows, cols) && Shape(s1, rows, cols)
    requires ClosedBut(s0, s1, rows, cols, r, c) && Visited(s1, rows, cols, r, c, 2, -1)
    ensures Closed(s0, s1, rows, cols)
  {
  }

  /** The first step of a fill: revealing the hidden, unflagged start (r, c) on its own. */
  lemma RevealStart(s0: Snapshot, s1: Snapshot, rows: int, cols: int, r: int, c: int)
    requires Shape(s0, rows, cols) && InGrid(rows, cols, r, c) && !s0[r][c].revealed && !s0[r][c].flagged
    requires s1 == RevealAt(s0, rows, cols, r, c)
    ensures Grown(s0, s1, rows, cols) && Chain(s0, s1, rows, cols, r, c, [Pos(r, c)])
    ensures Hidden(s1, rows, cols) < Hidden(s0, rows, cols)
    ensures Empty(s1[r][c]) ==> FillInv(s0, s1, rows, cols, r, c, [Pos(r, c)])
    ensures !Empty(s1[r][c]) ==> Closed(s0, s1, rows, cols)
  {
    assert Pos(r, c) in Hidden(s0, rows, cols) && Pos(r, c) !in Hidden(s1, rows, cols);
    GrownHidden(s0, s1, rows, cols);
  }

  /**
   * revealCell: reveal (r, c) unless it is revealed or flagged; from an
   * empty cell, recurse into every in-bounds neighbour not yet revealed.
   * The board is changed in place; order is the sequence of cells revealed.
   */
  method RevealCell(b: array2<Cell>, r: int, c: int) returns (ghost order: seq<Pos>)
    requires InGrid(b.Length0, b.Length1, r, c)
    modifies b
    decreases Hidden(Snap(b), b.Length0, b.Length1), 0
    ensures Grown(old(Snap(b)), Snap(b), b.Length0, b.Length1)
    ensures Closed(old(Snap(b)), Snap(b), b.Length0, b.Length1)
    ensures Chain(old(Snap(b)), Snap(b), b.Length0, b.Length1, r, c, order)
    ensures old(b[r, c].revealed) || old(b[r, c].flagged) ==> Snap(b) == old(Snap(b))
    ensures !old(b[r, c].flagged) ==> b[r, c].revealed
    ensures !Empty(old(b[r, c])) ==>
      forall i, j :: InGrid(b.Length0, b.Length1, i, j) && (i != r || j != c) ==> b[i, j] == old(b[i, j])
  {
    ghost var s0 := Snap(b);
    var rows, cols := b.Length0, b.Length1;
    order := [];
    if b[r, c].revealed || b[r, c].flagged {
      return;
    }
    b[r, c] := b[r, c].(revealed := true);
    ghost var s1 := Snap(b);
    SnapshotEq(s1, RevealAt(s0, rows, cols, r, c), rows, cols);
    RevealStart(s0, s1, rows, cols, r, c);
    order := [Pos(r, c)];
    if b[r, c].adjacentMines == 0 && !b[r, c].hasMine {
      for dr := -1 to 2
        invariant FillInv(s0, Snap(b), rows, cols, r, c, order)
        invariant Hidden(Snap(b), rows, cols) < Hidden(s0, rows, cols)
        invariant Visited(Snap(b), rows, cols, r, c, dr, -1)
      {
        for dc := -1 to 2
          invariant FillInv(s0, Snap(b), rows, cols, r, c, order)
          invariant Hidden(Snap(b), rows, cols) < Hidden(s0, rows, cols)
          invariant Visited(Snap(b), rows, cols, r, c, dr, dc)
        {
          order := Visit(b, r, c, dr, dc, s0, order);
        }
        VisitedRow(Snap(b), rows, cols, r, c, dr);
      }
      CloseStart(s0, Snap(b), rows, cols, r, c);
    }
  }

  /**
   * One pass of the fill loops around the empty start (r, c), at offset
   * (dr, dc): recurse into the neighbour there when it is in bounds and
   * hidden, and extend the reveal order with what that call revealed.
   */
  method Visit(b: array2<Cell>, r: int, c: int, dr: int, dc: int, ghost s0: Snapshot, ghost order0: seq<Pos>)
    returns (ghost order: seq<Pos>)
    requires Shape(s0, b.Length0, b.Length1)
    requires FillInv(s0, Snap(b), b.Length0, b.Length1, r, c, order0)
    requires Visited(Snap(b), b.Length0, b.Length1, r, c, dr, dc)
    requires -1 <= dr <= 1 && -1 <= dc <= 1
    modifies b
    decreases Hidden(Snap(b), b.Length0, b.Length1), 1
    ensures FillInv(s0, Snap(b), b.Length0, b.Length1, r, c, order)
    ensures Visited(Snap(b), b.Length0, b.Length1, r, c, dr, dc + 1)
    ensures Hidden(Snap(b), b.Length0, b.Length1) <= old(Hidden(Snap(b), b.Length0, b.Length1))
  {
    var rows, cols := b.Length0, b.Length1;
    var nr := r + dr;
    var nc := c + dc;
    ghost var before := Snap(b);
    order := order0;
    if nr >= 0 && nr < rows && nc >= 0 && nc < cols && !b[nr, nc].revealed {
      ghost var sub := RevealCell(b, nr, nc);
      ghost var after := Snap(b);
      FillStep(s0, before, after, rows, cols, r, c, nr, nc, order0, sub);
      order := order0 + sub;
      GrownHidden(before, after, rows, cols);
      assert after[nr][nc] == b[nr, nc];
      VisitedStep(before, after, rows, cols, r, c, dr, dc);
    } else {
      assert InGrid(rows, cols, nr, nc) ==> before[nr][nc] == b[nr, nc];
      VisitedSkip(before, rows, cols, r, c, dr, dc);
    }
  }

  // ---------------------------------------------------------------------------
  // Board invariants kept by the page
  // ---------------------------------------------------------------------------

  /** The mined cells of a state. */
  ghost function MinesOf(s: Snapshot, rows: int, cols: int): set<Pos>
    requires Shape(s, rows, cols)
  {
    set i, j | 0 <= i < rows && 0 <= j < cols && s[i][j].hasMine :: Pos(i, j)
  }

  /** Every mine-free cell carries the number of mines in its window; mined cells carry 0. */
  ghost predicate Counted(s: Snapshot, rows: int, cols: int)
    requires Shape(s, rows, cols)
  {
    forall i, j {:trigger AdjacentCount(MinesOf(s, rows, cols), rows, cols, i, j)} :: InGrid(rows, cols, i, j) ==>
      s[i][j].adjacentMines == if s[i][j].hasMine then 0 else AdjacentCount(MinesOf(s, rows, cols), rows, cols, i, j)
  }

  /** Two states with the same mines and the same counts. */
  ghost predicate SameLayout(s0: Snapshot, s1: Snapshot, rows: int, cols: int)
    requires Shape(s0, rows, cols) && Shape(s1, rows, cols)
  {
    forall i, j :: InGrid(rows, cols, i, j) ==>
      s1[i][j].hasMine == s0[i][j].hasMine && s1[i][j].adjacentMines == s0[i][j].adjacentMines
  }

  /** No mine is revealed. */
  ghost predicate MinesHidden(s: Snapshot, rows: int, cols: int)
    requires Shape(s, rows, cols)
  {
    forall i, j :: InGrid(rows, cols, i, j) && s[i][j].hasMine ==> !s[i][j].revealed
  }

  /** Some mine is revealed. */
  ghost predicate MineShown(s: Snapshot, rows: int, cols: int)
    requires Shape(s, rows, cols)
  {
    exists i, j :: InGrid(rows, cols, i, j) && s[i][j].hasMine && s[i][j].revealed
  }

  /** The win condition of handleClick: every cell is revealed or holds a mine. */
  ghost predicate Cleared(s: Snapshot, rows: int, cols: int)
    requires Shape(s, rows, cols)
  {
    forall i, j :: InGrid(rows, cols, i, j) ==> s[i][j].revealed || s[i][j].hasMine
  }

  lemma SnapshotEq(s: Snapshot, t: Snapshot, rows: int, cols: int)
    requires Shape(s, rows, cols) && Shape(t, rows, cols)
    requires forall i, j :: InGrid(rows, cols, i, j) ==> s[i][j] == t[i][j]
    ensures s == t
  {
    forall i | 0 <= i < rows
      ensures s[i] == t[i]
    {
      assert forall j :: 0 <= j < cols ==> s[i][j] == t[i][j];
    }
  }

  /** A state with the same layout keeps the same mines, and stays counted. */
  lemma LayoutKeeps(s0: Snapshot, s1: Snapshot, rows: int, cols: int)
    requires Shape(s0, rows, cols) && Shape(s1, rows, cols) && SameLayout(s0, s1, rows, cols)
    ensures MinesOf(s1, rows, cols) == MinesOf(s0, rows, cols)
    ensures Counted(s0, rows, cols) ==> Counted(s1, rows, cols)
  {
    assert MinesOf(s1, rows, cols) == MinesOf(s0, rows, cols);
    if Counted(s0, rows, cols) {
      forall i, j | InGrid(rows, cols, i, j)
        ensures s1[i][j].adjacentMines ==
          if s1[i][j].hasMine then 0 else AdjacentCount(MinesOf(s1, rows, cols), rows, cols, i, j)
      {
        assert s0[i][j].adjacentMines ==
          if s0[i][j].hasMine then 0 else AdjacentCount(MinesOf(s0, rows, cols), rows, cols, i, j);
      }
    }
  }

  /** A counted state is safe: the fill never spreads next to a mine. */
  lemma CountedSafe(s: Snapshot, rows: int, cols: int)
    requires Shape(s, rows, cols) && Counted(s, rows, cols)
    ensures Safe(s, rows, cols)
  {
    var m := MinesOf(s, rows, cols);
    forall i, j | InGrid(rows, cols, i, j) && Empty(s[i][j])
      ensures forall ni, nj :: InGrid(rows, cols, ni, nj) && Adjacent(i, j, ni, nj) ==> !s[ni][nj].hasMine
    {
      ZeroCountNoMine(m, rows, cols, i, j);
      forall ni, nj | InGrid(rows, cols, ni, nj) && Adjacent(i, j, ni, nj)
        ensures !s[ni][nj].hasMine
      {
        assert s[ni][nj].hasMine ==> Pos(ni, nj) in m;
      }
    }
  }

  /** The state after the mine branch of handleClick reveals (r, c). */
  function RevealAt(s: Snapshot, rows: int, cols: int, r: int, c: int): (t: Snapshot)
    requires Shape(s, rows, cols) && InGrid(rows, cols, r, c)
    ensures Shape(t, rows, cols)
    ensures t[r][c].revealed
    ensures forall i, j :: InGrid(rows, cols, i, j) ==> t[i][j] == s[i][j].(revealed := t[i][j].revealed)
    ensures forall i, j :: InGrid(rows, cols, i, j) && (i != r || j != c) ==> t[i][j] == s[i][j]
  {
    s[r := s[r][c := s[r][c].(revealed := true)]]
  }

  /** The state after handleRightClick toggles the flag of (r, c). */
  function ToggleFlag(s: Snapshot, rows: int, cols: int, r: int, c: int): (t: Snapshot)
    requires Shape(s, rows, cols) && InGrid(rows, cols, r, c)
    ensures Shape(t, rows, cols)
    ensures t[r][c].flagged != s[r][c].flagged
    ensures forall i, j :: InGrid(rows, cols, i, j) ==> t[i][j] == s[i][j].(flagged := t[i][j].flagged)
    ensures forall i, j :: InGrid(rows, cols, i, j) && (i != r || j != c) ==> t[i][j] == s[i][j]
  {
    s[r := s[r][c := s[r][c].(flagged := !s[r][c].flagged)]]
  }

  /** Two right-clicks on the same cell give back the board. */
  lemma ToggleTwice(s: Snapshot, rows: int, cols: int, r: int, c: int)
    requires Shape(s, rows, cols) && InGrid(rows, cols, r, c)
    ensures ToggleFlag(ToggleFlag(s, rows, cols, r, c), rows, cols, r, c) == s
  {
    var t := ToggleFlag(ToggleFlag(s, rows, cols, r, c), rows, cols, r, c);
    SnapshotEq(t, s, rows, cols);
  }

  /** The deep copy `board.map(row => row.map(cell => ({...cell})))` of the stored board, as a mutable array. */
  method CopyBoard(s: Snapshot, rows: nat, cols: nat) returns (nb: array2<Cell>)
    requires Shape(s, rows, cols)
    ensures fresh(nb)
    ensures nb.Length0 == rows && nb.Length1 == cols
    ensures Snap(nb) == s
  {
    nb := new Cell[rows, cols];
    for i := 0 to rows
      invariant forall r, c :: 0 <= r < i && 0 <= c < cols ==> nb[r, c] == s[r][c]
    {
      for j := 0 to cols
        invariant forall r, c :: 0 <= r < i && 0 <= c < cols ==> nb[r, c] == s[r][c]
        invariant forall c :: 0 <= c < j ==> nb[i, c] == s[i][c]
      {
        nb[i, j] := s[i][j];
      }
    }
    SnapshotEq(Snap(nb), s, rows, cols);
  }

  /**
   * A helper with no counterpart in the page: it reads the working array
   * back as a value, so that a handler can store the board as the page's
   * state holds it (the board passed to setBoard).
   */
  method BoardValue(b: array2<Cell>) returns (s: Snapshot)
    ensures s == Snap(b)
  {
    s := [];
    for i := 0 to b.Length0
      invariant |s| == i
      invariant forall r :: 0 <= r < i ==> s[r] == Snap(b)[r]
    {
      var row: seq<Cell> := [];
      for j := 0 to b.Length1
        invariant |row| == j
        invariant forall c :: 0 <= c < j ==> row[c] == b[i, c]
      {
        row := row + [b[i, j]];
      }
      assert row == Snap(b)[i];
      s := s + [row];
    }
  }

  /** `updatedBoard.flat().every(cell => cell.revealed || cell.hasMine)`. */
  method AllCleared(b: array2<Cell>) returns (res: bool)
    ensures res == Cleared(Snap(b), b.Length0, b.Length1)
  {
    for i := 0 to b.Length0
      invariant forall r, c :: 0 <= r < i && 0 <= c < b.Length1 ==> b[r, c].revealed || b[r, c].hasMine
    {
      for j := 0 to b.Length1
        invariant forall r, c :: 0 <= r < i && 0 <= c < b.Length1 ==> b[r, c].revealed || b[r, c].hasMine
        invariant forall c :: 0 <= c < j ==> b[i, c].revealed || b[i, c].hasMine
      {
        if !b[i, j].revealed && !b[i, j].hasMine {
          assert !(Snap(b)[i][j].revealed || Snap(b)[i][j].hasMine);
          return false;
        }
      }
    }
    return true;
  }

  /**
   * The page's invariant on a board state: correct counts, the configured
   * number of mines, a win only on a cleared board, and a loss exactly when
   * a mine is shown.
   */
  ghost predicate Consistent(s: Snapshot, rows: int, cols: int, mines: nat, gameOver: bool, win: bool)
    requires Shape(s, rows, cols)
  {
    && Counted(s, rows, cols)
    && |MinesOf(s, rows, cols)| == mines
    && (win ==> gameOver && Cleared(s, rows, cols))
    && (win || !gameOver ==> MinesHidden(s, rows, cols))
    && (gameOver && !win ==> MineShown(s, rows, cols))
  }

  /** A freshly generated board is a game in progress. */
  lemma FreshConsistent(s: Snapshot, rows: int, cols: int, mines: nat)
    requires Shape(s, rows, cols) && Counted(s, rows, cols) && |MinesOf(s, rows, cols)| == mines
    requires forall i, j :: InGrid(rows, cols, i, j) ==> !s[i][j].revealed
    ensures Consistent(s, rows, cols, mines, false, false)
  {
  }

  /** Clicking a mine loses the game. */
  lemma MineClickConsistent(s: Snapshot, rows: int, cols: int, mines: nat, r: int, c: int)
    requires Shape(s, rows, cols) && InGrid(rows, cols, r, c) && s[r][c].hasMine
    requires Consistent(s, rows, cols, mines, false, false)
    ensures Consistent(RevealAt(s, rows, cols, r, c), rows, cols, mines, true, false)
  {
    var t := RevealAt(s, rows, cols, r, c);
    LayoutKeeps(s, t, rows, cols);
    assert t[r][c].hasMine && t[r][c].revealed;
  }

  /**
   * A flood fill from a mine-free cell reveals no mine, so the game is
   * either still in progress or, on a cleared board, won.
   */
  lemma SafeClickConsistent(s0: Snapshot, s1: Snapshot, rows: int, cols: int, mines: nat, r: int, c: int)
    requires Shape(s0, rows, cols) && Shape(s1, rows, cols) && InGrid(rows, cols, r, c) && !s0[r][c].hasMine
    requires Consistent(s0, rows, cols, mines, false, false)
    requires Grown(s0, s1, rows, cols) && exists order :: Chain(s0, s1, rows, cols, r, c, order)
    ensures Consistent(s1, rows, cols, mines, Cleared(s1, rows, cols), Cleared(s1, rows, cols))
  {
    var order :| Chain(s0, s1, rows, cols, r, c, order);
    LayoutKeeps(s0, s1, rows, cols);
    CountedSafe(s1, rows, cols);
    SafeFill(s0, s1, rows, cols, r, c, order);
  }

  /** Flagging keeps a game in progress. */
  lemma FlagConsistent(s: Snapshot, rows: int, cols: int, mines: nat, r: int, c: int)
    requires Shape(s, rows, cols) && InGrid(rows, cols, r, c)
    requires Consistent(s, rows, cols, mines, false, false)
    ensures Consistent(ToggleFlag(s, rows, cols, r, c), rows, cols, mines, false, false)
  {
    LayoutKeeps(s, ToggleFlag(s, rows, cols, r, c), rows, cols);
  }

  /**
   * What revealCell promises between the state s0 before a click on (r, c)
   * and the state s1 after it.
   */
  ghost predicate ClickSpec(s0: Snapshot, s1: Snapshot, rows: int, cols: int, r: int, c: int)
    requires Shape(s0, rows, cols) && Shape(s1, rows, cols) && InGrid(rows, cols, r, c)
  {
    && Grown(s0, s1, rows, cols)
    && Closed(s0, s1, rows, cols)
    && (exists order :: Chain(s0, s1, rows, cols, r, c, order))
    && (s0[r][c].revealed || s0[r][c].flagged ==> s1 == s0)
    && (!s0[r][c].flagged ==> s1[r][c].revealed)
  }

  /**
   * Every cell of a reveal order from s0 to s1 is revealed in any s2 that
   * also satisfies ClickSpec from s0: it is the start, or it neighbours an
   * earlier empty cell, and s2 leaves no hidden unflagged neighbour of an
   * empty cell it revealed.
   */
  lemma {:induction false} ChainCovered(s0: Snapshot, s1: Snapshot, s2: Snapshot, rows: int, cols: int, r: int, c: int,
                                        order: seq<Pos>, k: int)
    requires Shape(s0, rows, cols) && Shape(s1, rows, cols) && Shape(s2, rows, cols) && InGrid(rows, cols, r, c)
    requires ClickSpec(s0, s1, rows, cols, r, c) && ClickSpec(s0, s2, rows, cols, r, c)
    requires Chain(s0, s1, rows, cols, r, c, order) && 0 <= k < |order|
    ensures s2[order[k].r][order[k].c].revealed
    decreases k
  {
    var p := order[k];
    assert InGrid(rows, cols, p.r, p.c) && Newly(s0, s1, rows, cols, p.r, p.c);
    if k == 0 {
      assert s1 != s0;
    } else {
      assert Supported(s0, s1, rows, cols, order, k);
      var m :| 0 <= m < k && InGrid(rows, cols, order[m].r, order[m].c) &&
        Adjacent(order[m].r, order[m].c, p.r, p.c) && Source(s0, s1, rows, cols, order[m].r, order[m].c);
      var q := order[m];
      ChainCovered(s0, s1, s2, rows, cols, r, c, order, m);
      assert Newly(s0, s2, rows, cols, q.r, q.c) && Empty(s2[q.r][q.c]);
      assert !s2[p.r][p.c].flagged;
    }
  }

  /** ClickSpec names one board: two states it allows after the same click are equal. */
  lemma ClickSpecUnique(s0: Snapshot, s1: Snapshot, s2: Snapshot, rows: int, cols: int, r: int, c: int)
    requires Shape(s0, rows, cols) && Shape(s1, rows, cols) && Shape(s2, rows, cols) && InGrid(rows, cols, r, c)
    requires ClickSpec(s0, s1, rows, cols, r, c) && ClickSpec(s0, s2, rows, cols, r, c)
    ensures s1 == s2
  {
    var o1 :| Chain(s0, s1, rows, cols, r, c, o1);
    var o2 :| Chain(s0, s2, rows, cols, r, c, o2);
    forall i, j | InGrid(rows, cols, i, j)
      ensures s1[i][j] == s2[i][j]
    {
      if Newly(s0, s1, rows, cols, i, j) {
        var k :| 0 <= k < |o1| && o1[k] == Pos(i, j);
        ChainCovered(s0, s1, s2, rows, cols, r, c, o1, k);
      }
      if Newly(s0, s2, rows, cols, i, j) {
        var k :| 0 <= k < |o2| && o2[k] == Pos(i, j);
        ChainCovered(s0, s2, s1, rows, cols, r, c, o2, k);
      }
    }
    SnapshotEq(s1, s2, rows, cols);
  }

  /**
   * The board work of handleClick on a game in progress: copy the board,
   * then either reveal the mine at (r, c) or flood-fill from (r, c) and
   * test for a win.
   */
  method ClickBoard(s: Snapshot, rows: nat, cols: nat, r: int, c: int, ghost mines: nat)
    returns (t: Snapshot, lost: bool, cleared: bool)
    requires Shape(s, rows, cols) && InGrid(rows, cols, r, c)
    requires Consistent(s, rows, cols, mines, false, false)
    ensures Shape(t, rows, cols)
    ensures lost == s[r][c].hasMine
    ensures lost ==> t == RevealAt(s, rows, cols, r, c) && !cleared
    ensures !lost ==> ClickSpec(s, t, rows, cols, r, c) && cleared == Cleared(t, rows, cols)
    ensures Consistent(t, rows, cols, mines, lost || cleared, cleared)
  {
    var nb := CopyBoard(s, rows, cols);
    lost := nb[r, c].hasMine;
    if lost {
      nb[r, c] := nb[r, c].(revealed := true);
      SnapshotEq(Snap(nb), RevealAt(s, rows, cols, r, c), rows, cols);
      MineClickConsistent(s, rows, cols, mines, r, c);
      cleared := false;
    } else {
      ghost var order := RevealCell(nb, r, c);
      SafeClickConsistent(s, Snap(nb), rows, cols, mines, r, c);
      cleared := AllCleared(nb);
    }
    t := BoardValue(nb);
  }

  /** The board work of handleRightClick: copy the board and toggle the flag of (r, c). */
  method FlagBoard(s: Snapshot, rows: nat, cols: nat, r: int, c: int) returns (t: Snapshot)
    requires Shape(s, rows, cols) && InGrid(rows, cols, r, c)
    ensures t == ToggleFlag(s, rows, cols, r, c)
  {
    var nb := CopyBoard(s, rows, cols);
    nb[r, c] := nb[r, c].(flagged := !nb[r, c].flagged);
    SnapshotEq(Snap(nb), ToggleFlag(s, rows, cols, r, c), rows, cols);
    t := BoardValue(nb);
  }

  /** `generateBoard(config.rows, config.cols, config.mines)` for a difficulty, as the value handed to setBoard. */
  method NewBoard(d: Difficulty, draws: seq<Pos>) returns (s: Snapshot)
    requires forall i :: 0 <= i < |draws| ==> InGrid(BoardConfig(d).rows, BoardConfig(d).cols, draws[i].r, draws[i].c)
    requires BoardConfig(d).mines <= |Elements(draws)|
    ensures Shape(s, BoardConfig(d).rows, BoardConfig(d).cols)
    ensures Consistent(s, BoardConfig(d).rows, BoardConfig(d).cols, BoardConfig(d).mines, false, false)
    ensures MinesOf(s, BoardConfig(d).rows, BoardConfig(d).cols) == Placed(draws, BoardConfig(d).mines)
    ensures forall i, j :: InGrid(BoardConfig(d).rows, BoardConfig(d).cols, i, j) ==> !s[i][j].revealed && !s[i][j].flagged
  {
    var cfg := BoardConfig(d);
    var b, ok := GenerateBoard(cfg.rows, cfg.cols, cfg.mines, draws);
    FreshConsistent(Snap(b), cfg.rows, cfg.cols, cfg.mines);
    s := BoardValue(b);
  }

  // ---------------------------------------------------------------------------
  // The page
  // ---------------------------------------------------------------------------

  /**
   * The Minesweeper page's state: difficulty, board, gameOver and win. The
   * board is React state that each handler replaces with a modified copy,
   * so it is held here as a value.
   */
  class Game {
    var difficulty: Difficulty
    var board: Snapshot
    var gameOver: bool
    var win: bool

    /** The board has the size of its difficulty and is Consistent with gameOver and win. */
    ghost predicate Valid()
      reads this
    {
      var cfg := BoardConfig(difficulty);
      && Shape(board, cfg.rows, cfg.cols)
      && Consistent(board, cfg.rows, cfg.cols, cfg.mines, gameOver, win)
    }

    /** The initial state: Easy, a generated board, neither lost nor won. */
    constructor(draws: seq<Pos>)
      requires forall i :: 0 <= i < |draws| ==> InGrid(BoardConfig(Easy).rows, BoardConfig(Easy).cols, draws[i].r, draws[i].c)
      requires BoardConfig(Easy).mines <= |Elements(draws)|
      ensures Valid()
      ensures difficulty == Easy && !gameOver && !win
      ensures MinesOf(board, BoardConfig(Easy).rows, BoardConfig(Easy).cols) == Placed(draws, BoardConfig(Easy).mines)
      ensures forall i, j :: InGrid(BoardConfig(Easy).rows, BoardConfig(Easy).cols, i, j) ==>
        !board[i][j].revealed && !board[i][j].flagged
    {
      var s := NewBoard(Easy, draws);
      difficulty := Easy;
      board := s;
      gameOver := false;
      win := false;
    }

    /** handleClick: reveal (r, c); a mine loses, a cleared board wins. */
    method HandleClick(r: int, c: int)
      requires Valid() && InGrid(BoardConfig(difficulty).rows, BoardConfig(difficulty).cols, r, c)
      modifies this
      ensures Valid() && difficulty == old(difficulty)
      ensures old(gameOver || win) ==> board == old(board) && gameOver == old(gameOver) && win == old(win)
      ensures !old(gameOver || win) && old(board[r][c].hasMine) ==>
        board == RevealAt(old(board), |board|, BoardConfig(difficulty).cols, r, c) && gameOver && !win
      ensures !old(gameOver || win) && !old(board[r][c].hasMine) ==>
        && ClickSpec(old(board), board, |board|, BoardConfig(difficulty).cols, r, c)
        && win == Cleared(board, |board|, BoardConfig(difficulty).cols)
        && gameOver == win
    {
      if gameOver || win { return; }
      var cfg := BoardConfig(difficulty);
      var t, lost, cleared := ClickBoard(board, cfg.rows, cfg.cols, r, c, cfg.mines);
      board := t;
      if lost {
        gameOver := true;
      } else if cleared {
        win := true;
        gameOver := true;
      }
    }

    /** handleRightClick: toggle the flag of (r, c), revealed or not. */
    method HandleRightClick(r: int, c: int)
      requires Valid() && InGrid(BoardConfig(difficulty).rows, BoardConfig(difficulty).cols, r, c)
      modifies this
      ensures Valid() && difficulty == old(difficulty) && gameOver == old(gameOver) && win == old(win)
      ensures old(gameOver || win) ==> board == old(board)
      ensures !old(gameOver || win) ==> board == ToggleFlag(old(board), |board|, BoardConfig(difficulty).cols, r, c)
    {
      if gameOver || win { return; }
      var cfg := BoardConfig(difficulty);
      FlagConsistent(board, cfg.rows, cfg.cols, cfg.mines, r, c);
      board := FlagBoard(board, cfg.rows, cfg.cols, r, c);
    }

    /** resetGame: a new board for the given difficulty, or for the current one when none is given. */
    method ResetGame(newDifficulty: Option<Difficulty>, draws: seq<Pos>)
      requires var cfg := BoardConfig(if newDifficulty.Some? then newDifficulty.value else difficulty);
        && (forall i :: 0 <= i < |draws| ==> InGrid(cfg.rows, cfg.cols, draws[i].r, draws[i].c))
        && cfg.mines <= |Elements(draws)|
      modifies this
      ensures Valid()
      ensures difficulty == if newDifficulty.Some? then newDifficulty.value else old(difficulty)
      ensures !gameOver && !win
      ensures MinesOf(board, BoardConfig(difficulty).rows, BoardConfig(difficulty).cols) == Placed(draws, BoardConfig(difficulty).mines)
      ensures forall i, j :: InGrid(BoardConfig(difficulty).rows, BoardConfig(difficulty).cols, i, j) ==>
        !board[i][j].revealed && !board[i][j].flagged
    {
      var diff := if newDifficulty.Some? then newDifficulty.value else difficulty;
      var s := NewBoard(diff, draws);
      difficulty := diff;
      board := s;
      gameOver := false;
      win := false;
    }
  }
}
