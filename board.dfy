/**
 * The game grid of an N x N Tic-Tac-Toe board, as values: cells, moves,
 * placement, line detection, fullness and the row-major list of empty cells
 * that both searches scan.
 */
module Board {

  datatype Cell = Empty | X | O

  datatype Option<T> = None | Some(value: T)

  /** A (row, col) coordinate, 0-indexed. */
  datatype Move = Move(row: nat, col: nat)

  /** The grid as a list of rows; also its own immutable snapshot (memo key). */
  type Grid = seq<seq<Cell>>

  /** `g` has `n` rows of `n` cells each. */
  predicate Square(g: Grid, n: nat)
  {
    |g| == n && forall r :: 0 <= r < n ==> |g[r]| == n
  }

  /** A freshly constructed board: every cell blank. */
  function EmptyGrid(n: nat): (g: Grid)
    ensures Square(g, n)
    ensures forall r, c :: 0 <= r < n && 0 <= c < n ==> g[r][c] == Empty
  {
    seq(n, _ => seq(n, _ => Empty))
  }

  /** The grid after writing `p` into cell (r, c): still n x n, and that cell holds `p`. */
  function Place(g: Grid, n: nat, r: nat, c: nat, p: Cell): (h: Grid)
    requires Square(g, n) && r < n && c < n
    ensures Square(h, n)
    ensures h[r][c] == p
  {
    g[r := g[r][c := p]]
  }

  /** Placing a mark changes no cell other than the one it is written into. */
  lemma PlaceKeepsOthers(g: Grid, n: nat, r: nat, c: nat, p: Cell)
    requires Square(g, n) && r < n && c < n
    ensures forall i, j :: 0 <= i < n && 0 <= j < n && (i != r || j != c) ==> Place(g, n, r, c, p)[i][j] == g[i][j]
  {
  }

  /** Clearing a cell that was blank before a placement restores the whole grid. */
  lemma {:induction false} UndoRestores(g: Grid, n: nat, r: nat, c: nat, p: Cell)
    requires Square(g, n) && r < n && c < n && g[r][c] == Empty
    ensures Place(Place(g, n, r, c, p), n, r, c, Empty) == g
  {
    var h := Place(Place(g, n, r, c, p), n, r, c, Empty);
    forall i | 0 <= i < n
      ensures h[i] == g[i]
    {
      assert |h[i]| == |g[i]| == n;
      forall j | 0 <= j < n
        ensures h[i][j] == g[i][j]
      {
      }
    }
  }

  // ---------------------------------------------------------------------------
  // Lines
  // ---------------------------------------------------------------------------

  /** Row `r` holds `p` in every column from `c` on: the generator over the columns of one row. */
  function RowFrom(g: Grid, n: nat, p: Cell, r: nat, c: nat): (ok: bool)
    requires Square(g, n) && r < n && c <= n
    decreases n - c
  {
    c == n || (g[r][c] == p && RowFrom(g, n, p, r, c + 1))
  }

  /** Column `c` holds `p` in every row from `r` on. */
  function ColFrom(g: Grid, n: nat, p: Cell, c: nat, r: nat): (ok: bool)
    requires Square(g, n) && c < n && r <= n
    decreases n - r
  {
    r == n || (g[r][c] == p && ColFrom(g, n, p, c, r + 1))
  }

  /** Cells (i, i) hold `p` for every i from `i0` on. */
  function DiagFrom(g: Grid, n: nat, p: Cell, i0: nat): (ok: bool)
    requires Square(g, n) && i0 <= n
    decreases n - i0
  {
    i0 == n || (g[i0][i0] == p && DiagFrom(g, n, p, i0 + 1))
  }

  /** Cells (i, n - 1 - i) hold `p` for every i from `i0` on. */
  function AntiFrom(g: Grid, n: nat, p: Cell, i0: nat): (ok: bool)
    requires Square(g, n) && i0 <= n
    decreases n - i0
  {
    i0 == n || (g[i0][n - 1 - i0] == p && AntiFrom(g, n, p, i0 + 1))
  }

  /** Every cell of row `r` holds `p`. */
  ghost predicate RowAll(g: Grid, n: nat, p: Cell, r: nat)
    requires Square(g, n) && r < n
  {
    forall c :: 0 <= c < n ==> g[r][c] == p
  }

  /** Every cell of column `c` holds `p`. */
  ghost predicate ColAll(g: Grid, n: nat, p: Cell, c: nat)
    requires Square(g, n) && c < n
  {
    forall r :: 0 <= r < n ==> g[r][c] == p
  }

  /** Every cell (i, i) holds `p`. */
  ghost predicate DiagAll(g: Grid, n: nat, p: Cell)
    requires Square(g, n)
  {
    forall i :: 0 <= i < n ==> g[i][i] == p
  }

  /** Every cell (i, n - 1 - i) holds `p`. */
  ghost predicate AntiDiagAll(g: Grid, n: nat, p: Cell)
    requires Square(g, n)
  {
    forall i :: 0 <= i < n ==> g[i][n - 1 - i] == p
  }

  /** The row generator from column `c` accepts exactly when columns c .. n-1 hold `p`. */
  lemma {:induction false} RowFromAll(g: Grid, n: nat, p: Cell, r: nat, c: nat)
    requires Square(g, n) && r < n && c <= n
    decreases n - c
    ensures RowFrom(g, n, p, r, c) <==> forall j :: c <= j < n ==> g[r][j] == p
  {
    if c < n {
      RowFromAll(g, n, p, r, c + 1);
    }
  }

  /** The column generator from row `r` accepts exactly when rows r .. n-1 hold `p`. */
  lemma {:induction false} ColFromAll(g: Grid, n: nat, p: Cell, c: nat, r: nat)
    requires Square(g, n) && c < n && r <= n
    decreases n - r
    ensures ColFrom(g, n, p, c, r) <==> forall i :: r <= i < n ==> g[i][c] == p
  {
    if r < n {
      ColFromAll(g, n, p, c, r + 1);
    }
  }

  /** The diagonal generator from `i0` accepts exactly when cells (i, i), i >= i0, hold `p`. */
  lemma {:induction false} DiagFromAll(g: Grid, n: nat, p: Cell, i0: nat)
    requires Square(g, n) && i0 <= n
    decreases n - i0
    ensures DiagFrom(g, n, p, i0) <==> forall i :: i0 <= i < n ==> g[i][i] == p
  {
    if i0 < n {
      DiagFromAll(g, n, p, i0 + 1);
    }
  }

  /** The anti-diagonal generator from `i0` accepts exactly when cells (i, n - 1 - i), i >= i0, hold `p`. */
  lemma {:induction false} AntiFromAll(g: Grid, n: nat, p: Cell, i0: nat)
    requires Square(g, n) && i0 <= n
    decreases n - i0
    ensures AntiFrom(g, n, p, i0) <==> forall i :: i0 <= i < n ==> g[i][n - 1 - i] == p
  {
    if i0 < n {
      AntiFromAll(g, n, p, i0 + 1);
    }
  }

  /** The winning condition: some row, some column, the main diagonal or the anti-diagonal is all `p`. */
  ghost predicate HasLine(g: Grid, n: nat, p: Cell)
    requires Square(g, n)
  {
    (exists r :: 0 <= r < n && RowAll(g, n, p, r))
    || (exists c :: 0 <= c < n && ColAll(g, n, p, c))
    || DiagAll(g, n, p)
    || AntiDiagAll(g, n, p)
  }

  /** The row loop of the win check: scans rows r, r+1, ... and stops at the first full one. */
  function RowScan(g: Grid, n: nat, p: Cell, r: nat): (found: bool)
    requires Square(g, n) && r <= n
    decreases n - r
  {
    if r == n then false
    else if RowFrom(g, n, p, r, 0) then true
    else RowScan(g, n, p, r + 1)
  }

  /** The row scan from r succeeds exactly when one of rows r .. n-1 is all `p`. */
  lemma {:induction false} RowScanFinds(g: Grid, n: nat, p: Cell, r: nat)
    requires Square(g, n) && r <= n
    decreases n - r
    ensures RowScan(g, n, p, r) <==> exists i :: r <= i < n && RowAll(g, n, p, i)
  {
    if r < n {
      RowFromAll(g, n, p, r, 0);
      RowScanFinds(g, n, p, r + 1);
      assert RowFrom(g, n, p, r, 0) <==> RowAll(g, n, p, r);
    }
  }

  /** The column loop of the win check: scans columns c, c+1, ... and stops at the first full one. */
  function ColScan(g: Grid, n: nat, p: Cell, c: nat): (found: bool)
    requires Square(g, n) && c <= n
    decreases n - c
  {
    if c == n then false
    else if ColFrom(g, n, p, c, 0) then true
    else ColScan(g, n, p, c + 1)
  }

  /** The column scan from c succeeds exactly when one of columns c .. n-1 is all `p`. */
  lemma {:induction false} ColScanFinds(g: Grid, n: nat, p: Cell, c: nat)
    requires Square(g, n) && c <= n
    decreases n - c
    ensures ColScan(g, n, p, c) <==> exists j :: c <= j < n && ColAll(g, n, p, j)
  {
    if c < n {
      ColFromAll(g, n, p, c, 0);
      ColScanFinds(g, n, p, c + 1);
      assert ColFrom(g, n, p, c, 0) <==> ColAll(g, n, p, c);
    }
  }

  /** Rows first, then columns, then the two diagonals, as the win check does them. */
  function IsWinner(g: Grid, n: nat, p: Cell): (won: bool)
    requires Square(g, n)
  {
    if RowScan(g, n, p, 0) then true
    else if ColScan(g, n, p, 0) then true
    else if DiagFrom(g, n, p, 0) then true
    else AntiFrom(g, n, p, 0)
  }

  /** The win check holds exactly when `p` has a full row, column or diagonal. */
  lemma IsWinnerIffHasLine(g: Grid, n: nat, p: Cell)
    requires Square(g, n)
    ensures IsWinner(g, n, p) <==> HasLine(g, n, p)
  {
    RowScanFinds(g, n, p, 0);
    ColScanFinds(g, n, p, 0);
    DiagFromAll(g, n, p, 0);
    AntiFromAll(g, n, p, 0);
  }

  /** Cells from (r, c) on, in row-major order, are all non-blank: the generator of the fullness check. */
  function FullFrom(g: Grid, n: nat, r: nat, c: nat): (full: bool)
    requires Square(g, n) && r <= n && c <= n
    decreases n - r, n - c
  {
    if r == n then true
    else if c == n then FullFrom(g, n, r + 1, 0)
    else g[r][c] != Empty && FullFrom(g, n, r, c + 1)
  }

  /** No cell is blank. */
  function IsFull(g: Grid, n: nat): (full: bool)
    requires Square(g, n)
  {
    FullFrom(g, n, 0, 0)
  }

  /** No cell is blank, stated over all positions. */
  ghost predicate NoBlank(g: Grid, n: nat)
    requires Square(g, n)
  {
    forall r, c :: 0 <= r < n && 0 <= c < n ==> g[r][c] != Empty
  }

  /** The fullness generator from (r, c) accepts exactly when every cell at or after (r, c) is marked. */
  lemma {:induction false} FullFromAll(g: Grid, n: nat, r: nat, c: nat)
    requires Square(g, n) && r <= n && c <= n
    decreases n - r, n - c
    ensures FullFrom(g, n, r, c) <==>
      forall i, j :: r <= i < n && 0 <= j < n && (i > r || j >= c) ==> g[i][j] != Empty
  {
    if r == n {
    } else if c == n {
      FullFromAll(g, n, r + 1, 0);
    } else {
      FullFromAll(g, n, r, c + 1);
    }
  }

  /** The fullness check holds exactly when no cell is blank. */
  lemma IsFullIffNoBlank(g: Grid, n: nat)
    requires Square(g, n)
    ensures IsFull(g, n) <==> NoBlank(g, n)
  {
    FullFromAll(g, n, 0, 0);
  }

  /** A position where the search stops: a line for either player, or no blank cell. */
  predicate IsTerminal(g: Grid, n: nat)
    requires Square(g, n)
  {
    IsWinner(g, n, X) || IsWinner(g, n, O) || IsFull(g, n)
  }

  /** A fresh board of size at least one is neither full nor won by a player. */
  lemma FreshBoard(n: nat, p: Cell)
    requires n >= 1 && p != Empty
    ensures !IsFull(EmptyGrid(n), n)
    ensures !IsWinner(EmptyGrid(n), n, p)
  {
    var g := EmptyGrid(n);
    IsWinnerIffHasLine(g, n, p);
    IsFullIffNoBlank(g, n);
    assert g[0][0] == Empty;
    assert !DiagAll(g, n, p) by { assert g[0][0] != p; }
    assert !AntiDiagAll(g, n, p) by { assert g[0][n - 1 - 0] != p; }
    forall r | 0 <= r < n ensures !RowAll(g, n, p, r) { assert g[r][0] != p; }
    forall c | 0 <= c < n ensures !ColAll(g, n, p, c) { assert g[0][c] != p; }
  }

  /** On a 0 x 0 board every line check runs over nothing, so the diagonal check says both players have won. */
  lemma ZeroBoardWon(p: Cell)
    ensures IsWinner(EmptyGrid(0), 0, p) && IsFull(EmptyGrid(0), 0)
  {
  }

  // ---------------------------------------------------------------------------
  // Empty cells in row-major order
  // ---------------------------------------------------------------------------

  /** `a` comes strictly before `b` in row-major order. */
  predicate Before(a: Move, b: Move)
  {
    a.row < b.row || (a.row == b.row && a.col < b.col)
  }

  /** The moves are strictly increasing in row-major order (hence without repetition). */
  predicate RowMajor(s: seq<Move>)
  {
    forall i, j :: 0 <= i < j < |s| ==> Before(s[i], s[j])
  }

  /** The blank cells of row `r` with column in [lo, hi), left to right. */
  function RowEmpties(g: Grid, n: nat, r: nat, lo: nat, hi: nat): (s: seq<Move>)
    requires Square(g, n) && r < n && lo <= hi <= n
    decreases hi - lo
  {
    if hi == lo then []
    else RowEmpties(g, n, r, lo, hi - 1) + (if g[r][hi - 1] == Empty then [Move(r, hi - 1)] else [])
  }

  /** Every entry of RowEmpties is a blank cell of row r inside the column range. */
  lemma {:induction false} RowEmptiesInRange(g: Grid, n: nat, r: nat, lo: nat, hi: nat)
    requires Square(g, n) && r < n && lo <= hi <= n
    decreases hi - lo
    ensures forall k :: 0 <= k < |RowEmpties(g, n, r, lo, hi)| ==>
      var m := RowEmpties(g, n, r, lo, hi)[k]; m.row == r && lo <= m.col < hi && g[r][m.col] == Empty
  {
    if hi > lo {
      RowEmptiesInRange(g, n, r, lo, hi - 1);
      var front := RowEmpties(g, n, r, lo, hi - 1);
      var e := if g[r][hi - 1] == Empty then [Move(r, hi - 1)] else [];
      var s := front + e;
      assert RowEmpties(g, n, r, lo, hi) == s;
      forall k | 0 <= k < |s|
        ensures s[k].row == r && lo <= s[k].col < hi && g[r][s[k].col] == Empty
      {
        if k < |front| {
          assert s[k] == front[k];
        } else {
          assert s[k] == Move(r, hi - 1);
        }
      }
    }
  }

  /** RowEmpties lists exactly the blank cells of its range, left to right. */
  lemma {:induction false} RowEmptiesExact(g: Grid, n: nat, r: nat, lo: nat, hi: nat)
    requires Square(g, n) && r < n && lo <= hi <= n
    decreases hi - lo
    ensures forall m :: m in RowEmpties(g, n, r, lo, hi) <==> (m.row == r && lo <= m.col < hi && g[r][m.col] == Empty)
    ensures RowMajor(RowEmpties(g, n, r, lo, hi))
  {
    if hi > lo {
      RowEmptiesExact(g, n, r, lo, hi - 1);
      RowEmptiesInRange(g, n, r, lo, hi - 1);
      var front := RowEmpties(g, n, r, lo, hi - 1);
      var e := if g[r][hi - 1] == Empty then [Move(r, hi - 1)] else [];
      var s := front + e;
      assert RowEmpties(g, n, r, lo, hi) == s;
      forall i, j | 0 <= i < j < |s|
        ensures Before(s[i], s[j])
      {
        if j < |front| {
          assert s[i] == front[i] && s[j] == front[j];
        } else {
          assert s[i] == front[i] && s[j] == Move(r, hi - 1);
        }
      }
      forall m
        ensures m in s <==> (m.row == r && lo <= m.col < hi && g[r][m.col] == Empty)
      {
        assert m in s <==> m in front || m in e;
      }
    }
  }

  /** Splitting the column range splits the list of blank cells. */
  lemma {:induction false} RowEmptiesSplit(g: Grid, n: nat, r: nat, lo: nat, mid: nat, hi: nat)
    requires Square(g, n) && r < n && lo <= mid <= hi <= n
    decreases hi - mid
    ensures RowEmpties(g, n, r, lo, hi) == RowEmpties(g, n, r, lo, mid) + RowEmpties(g, n, r, mid, hi)
  {
    if hi > mid {
      RowEmptiesSplit(g, n, r, lo, mid, hi - 1);
    }
  }

  /** Row r's blank cells before column c, after all earlier rows': one more column appends cell (r, c) if blank. */
  lemma EmptiesNextCol(g: Grid, n: nat, r: nat, c: nat)
    requires Square(g, n) && r < n && c < n
    ensures RowsEmpties(g, n, r) + RowEmpties(g, n, r, 0, c + 1)
         == RowsEmpties(g, n, r) + RowEmpties(g, n, r, 0, c) + (if g[r][c] == Empty then [Move(r, c)] else [])
  {
    var a, b := RowsEmpties(g, n, r), RowEmpties(g, n, r, 0, c);
    var e := if g[r][c] == Empty then [Move(r, c)] else [];
    assert RowEmpties(g, n, r, 0, c + 1) == b + e;
    assert a + (b + e) == a + b + e;
  }

  /** Finishing row r, whether all its columns were visited or the rest were skipped from column c on. */
  lemma EmptiesNextRow(g: Grid, n: nat, r: nat, c: nat)
    requires Square(g, n) && r < n && c <= n
    ensures RowsEmpties(g, n, r + 1) == RowsEmpties(g, n, r) + RowEmpties(g, n, r, 0, n)
    ensures RowsEmpties(g, n, r + 1) == RowsEmpties(g, n, r) + RowEmpties(g, n, r, 0, c) + RowEmpties(g, n, r, c, n)
  {
    RowEmptiesSplit(g, n, r, 0, c, n);
    var a, b, d := RowsEmpties(g, n, r), RowEmpties(g, n, r, 0, c), RowEmpties(g, n, r, c, n);
    assert a + (b + d) == a + b + d;
  }

  /** The blank cells of rows 0 .. rows-1, row by row. */
  function RowsEmpties(g: Grid, n: nat, rows: nat): (s: seq<Move>)
    requires Square(g, n) && rows <= n
  {
    if rows == 0 then [] else RowsEmpties(g, n, rows - 1) + RowEmpties(g, n, rows - 1, 0, n)
  }

  /** RowsEmpties lists exactly the blank cells of its rows, in row-major order. */
  lemma {:induction false} RowsEmptiesExact(g: Grid, n: nat, rows: nat)
    requires Square(g, n) && rows <= n
    ensures var s := RowsEmpties(g, n, rows);
      forall k :: 0 <= k < |s| ==> s[k].row < rows && s[k].col < n && g[s[k].row][s[k].col] == Empty
    ensures forall m :: m in RowsEmpties(g, n, rows) <==> (m.row < rows && m.col < n && g[m.row][m.col] == Empty)
    ensures RowMajor(RowsEmpties(g, n, rows))
  {
    if rows > 0 {
      RowsEmptiesExact(g, n, rows - 1);
      RowEmptiesExact(g, n, rows - 1, 0, n);
      RowEmptiesInRange(g, n, rows - 1, 0, n);
      var front, last := RowsEmpties(g, n, rows - 1), RowEmpties(g, n, rows - 1, 0, n);
      var s := front + last;
      forall i, j | 0 <= i < j < |s|
        ensures Before(s[i], s[j])
      {
        if j < |front| {
          assert s[i] == front[i] && s[j] == front[j];
        } else if i < |front| {
          assert s[i] == front[i] && s[j] == last[j - |front|];
        } else {
          assert s[i] == last[i - |front|] && s[j] == last[j - |front|];
        }
      }
      forall m
        ensures m in s <==> (m.row < rows && m.col < n && g[m.row][m.col] == Empty)
      {
        assert m in s <==> m in front || m in last;
      }
    }
  }

  /** Every blank cell of the board in row-major order: the order both searches try moves in. */
  function EmptyCells(g: Grid, n: nat): (s: seq<Move>)
    requires Square(g, n)
  {
    RowsEmpties(g, n, n)
  }

  /** EmptyCells lists every blank cell and nothing else, each once, in row-major order. */
  lemma EmptyCellsExact(g: Grid, n: nat)
    requires Square(g, n)
    ensures var s := EmptyCells(g, n);
      forall k :: 0 <= k < |s| ==> s[k].row < n && s[k].col < n && g[s[k].row][s[k].col] == Empty
    ensures forall m :: m in EmptyCells(g, n) <==> (m.row < n && m.col < n && g[m.row][m.col] == Empty)
    ensures RowMajor(EmptyCells(g, n))
  {
    RowsEmptiesExact(g, n, n);
  }

  /** The board is full exactly when there is no blank cell to try. */
  lemma FullIffNoEmptyCells(g: Grid, n: nat)
    requires Square(g, n)
    ensures IsFull(g, n) <==> EmptyCells(g, n) == []
  {
    var s := EmptyCells(g, n);
    EmptyCellsExact(g, n);
    IsFullIffNoBlank(g, n);
    if !NoBlank(g, n) {
      var r, c :| 0 <= r < n && 0 <= c < n && g[r][c] == Empty;
      assert Move(r, c) in s;
    }
    if s != [] {
      assert s[0] in s;
    }
  }

  /** The set of blank cells. */
  function EmptySet(g: Grid): (blanks: set<Move>)
  {
    set r: nat, c: nat | r < |g| && c < |g[r]| && g[r][c] == Empty :: Move(r, c)
  }

  /** The number of blank cells, the search's termination measure. */
  function EmptyCount(g: Grid): (count: nat)
  {
    |EmptySet(g)|
  }

  /** Writing a mark into a blank cell removes exactly that cell from the blank set. */
  lemma PlaceShrinksEmptySet(g: Grid, n: nat, r: nat, c: nat, p: Cell)
    requires Square(g, n) && r < n && c < n && g[r][c] == Empty && p != Empty
    ensures EmptySet(Place(g, n, r, c, p)) == EmptySet(g) - {Move(r, c)}
    ensures EmptyCount(Place(g, n, r, c, p)) == EmptyCount(g) - 1
  {
    var h := Place(g, n, r, c, p);
    assert Move(r, c) in EmptySet(g);
    forall m | m in EmptySet(h) ensures m in EmptySet(g) && m != Move(r, c) {
    }
    forall m | m in EmptySet(g) && m != Move(r, c) ensures m in EmptySet(h) {
      assert h[m.row][m.col] == g[m.row][m.col];
    }
  }
}
