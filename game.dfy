/**
 * The game engine: a board changed in place, and a memoised alpha-beta search
 * over it in which O maximises and X minimises.
 *
 * The memo is keyed on grid content only. Terminal scores depend on the depth,
 * so a memoised value can be reused at another depth, and values computed under
 * a cutoff are stored as if exact. Nothing here claims the search equals
 * minimax; the contracts say what each call does with the board and the memo.
 */
module Game {
  import opened Board
  import opened Scan

  /** The score of a finished position: X's line first, then O's, then a full board; None if play goes on. */
  function TerminalScore(g: Grid, n: nat, depth: int): (s: Option<int>)
    requires Square(g, n)
  {
    if IsWinner(g, n, X) then Some(-10 + depth)
    else if IsWinner(g, n, O) then Some(10 - depth)
    else if IsFull(g, n) then Some(0)
    else None
  }

  /**
   * The terminal score read off the board itself: a line of X's, then a line of O's, then a
   * board with no blank cell; play goes on exactly when none of the three holds.
   */
  lemma TerminalScoreByLines(g: Grid, n: nat, depth: int)
    requires Square(g, n)
    ensures var s := TerminalScore(g, n, depth);
      && (HasLine(g, n, X) ==> s == Some(-10 + depth))
      && (!HasLine(g, n, X) && HasLine(g, n, O) ==> s == Some(10 - depth))
      && (!HasLine(g, n, X) && !HasLine(g, n, O) && NoBlank(g, n) ==> s == Some(0))
      && (s.None? <==> !HasLine(g, n, X) && !HasLine(g, n, O) && !NoBlank(g, n))
  {
    IsWinnerIffHasLine(g, n, X);
    IsWinnerIffHasLine(g, n, O);
    IsFullIffNoBlank(g, n);
  }

  /** Every entry of `m1` is still in `m2` with the same value. */
  ghost predicate Grows(m1: map<Grid, int>, m2: map<Grid, int>)
  {
    forall k :: k in m1 ==> k in m2 && m2[k] == m1[k]
  }

  /** The keys `m2` adds to `m1` are square, non-terminal positions. */
  ghost predicate NewKeysLive(m1: map<Grid, int>, m2: map<Grid, int>, n: nat)
  {
    forall k :: k in m2 && k !in m1 ==> Square(k, n) && !IsTerminal(k, n)
  }

  /** `m2` extends `m1` with live keys of fewer than `bound` blank cells, keeping every old entry. */
  ghost predicate Extends(m1: map<Grid, int>, m2: map<Grid, int>, n: nat, bound: nat)
  {
    Grows(m1, m2) && NewKeysLive(m1, m2, n)
    && forall k :: k in m2 && k !in m1 ==> EmptyCount(k) < bound
  }

  /** Two extensions in a row are one extension. */
  lemma ExtendsTrans(m0: map<Grid, int>, m1: map<Grid, int>, m2: map<Grid, int>, n: nat, bound: nat)
    requires Extends(m0, m1, n, bound) && Extends(m1, m2, n, bound)
    ensures Extends(m0, m2, n, bound)
  {
  }

  /** The keys a search of `top` adds are `top` itself or positions with fewer blank cells. */
  ghost predicate NewKeysUnder(m1: map<Grid, int>, m2: map<Grid, int>, top: Grid)
  {
    forall k :: k in m2 && k !in m1 ==> k == top || EmptyCount(k) < EmptyCount(top)
  }

  /** A search of `g` at `depth` returned `v`: the memo holds `v` for `g`, or `g` is terminal with score `v`. */
  ghost predicate Scored(memo: map<Grid, int>, g: Grid, n: nat, v: int, depth: int)
    requires Square(g, n)
  {
    if g in memo then memo[g] == v else TerminalScore(g, n, depth) == Some(v)
  }

  /**
   * A call of the search on `g` with window (alpha, beta), side `maximizing` and `depth`, made
   * when the memo was `m0`, returned `v`; `memo` is the memo at some later point. The value is
   * recorded (Scored), and if `g` was neither memoised in `m0` nor terminal, the call scanned
   * `g`: from a memo `m1` between `m0` and `memo` that did not hold `g`, some trace explains `v`
   * with exactly this window, side and depth.
   */
  ghost predicate Searched(memo: map<Grid, int>, m0: map<Grid, int>, g: Grid, n: nat, v: int,
                           alpha: Bound, beta: Bound, maximizing: bool, depth: int)
    requires Square(g, n)
    decreases EmptyCount(g), 4
  {
    Scored(memo, g, n, v, depth)
    && (g !in m0 && !IsTerminal(g, n) ==>
          exists t: seq<Option<int>>, m1: map<Grid, int> ::
            Grows(m0, m1) && g !in m1 && Grows(m1, memo)
            && Explains(memo, m1, g, n, t, alpha, beta, maximizing, depth, v))
  }

  /**
   * A non-terminal search of `g` that started with memo `m0` returned `r`: `trace` says which
   * blank cells (in row-major order) the scan explored and with what child values, the cutoffs
   * follow the scan's rule, `r` is the max (O to move) or min (X to move) of the explored values,
   * and each explored child was itself searched one level deeper, with the other side to move
   * and the window the scan had reached before that cell.
   */
  ghost predicate Explains(memo: map<Grid, int>, m0: map<Grid, int>, g: Grid, n: nat, trace: seq<Option<int>>,
                           alpha: Bound, beta: Bound, maximizing: bool, depth: int, r: int)
    requires Square(g, n)
    decreases EmptyCount(g), 3
  {
    var cells, w0 := EmptyCells(g, n), Start(alpha, beta, maximizing);
    |trace| == |cells|
    && Follows(cells, trace, w0, maximizing)
    && Run(cells, trace, w0, maximizing).best == Fin(r)
    && ChildrenScored(memo, m0, g, n, cells, trace, w0, maximizing, depth)
  }

  /**
   * Every explored cell `cells[k]` of a scan of `g` at `depth` was searched with the mover's
   * mark in it, at `depth + 1`, the other side to move and the scan's window before cell k.
   */
  ghost predicate ChildrenScored(memo: map<Grid, int>, m0: map<Grid, int>, g: Grid, n: nat, cells: seq<Move>,
                                 trace: seq<Option<int>>, w0: Window, maximizing: bool, depth: int)
    requires Square(g, n) && |cells| == |trace|
    decreases EmptyCount(g), 2
  {
    forall k {:trigger ChildAt(memo, m0, g, n, cells, trace, w0, maximizing, depth, k)} ::
      0 <= k < |cells| && trace[k].Some? ==> ChildAt(memo, m0, g, n, cells, trace, w0, maximizing, depth, k)
  }

  /** The explored cell `cells[k]` was searched with the scan's window before cell k. */
  ghost predicate ChildAt(memo: map<Grid, int>, m0: map<Grid, int>, g: Grid, n: nat, cells: seq<Move>,
                          trace: seq<Option<int>>, w0: Window, maximizing: bool, depth: int, k: nat)
    requires Square(g, n) && |cells| == |trace| && k < |cells| && trace[k].Some?
    decreases EmptyCount(g), 1
  {
    var w := Run(cells[..k], trace[..k], w0, maximizing);
    ChildSearched(memo, m0, g, n, cells[k], Mover(maximizing), trace[k].value, w.alpha, w.beta, !maximizing, depth + 1)
  }

  /** The blank cell `c` of `g`, marked by `mover`, was searched with the given window, side and depth and gave `v`. */
  ghost predicate ChildSearched(memo: map<Grid, int>, m0: map<Grid, int>, g: Grid, n: nat, c: Move, mover: Cell,
                                v: int, alpha: Bound, beta: Bound, maximizing: bool, depth: int)
    requires Square(g, n) && mover != Empty
    decreases EmptyCount(g), 0
  {
    c.row < n && c.col < n && g[c.row][c.col] == Empty
    && (PlaceShrinksEmptySet(g, n, c.row, c.col, mover);
        Searched(memo, m0, Place(g, n, c.row, c.col, mover), n, v, alpha, beta, maximizing, depth))
  }

  /** Growing the memo by live positions only keeps every recorded search valid, at every level. */
  lemma SearchedStable(m1: map<Grid, int>, m2: map<Grid, int>, m0: map<Grid, int>, g: Grid, n: nat, v: int,
                       alpha: Bound, beta: Bound, maximizing: bool, depth: int)
    requires Square(g, n) && Grows(m1, m2) && NewKeysLive(m1, m2, n)
    requires Searched(m1, m0, g, n, v, alpha, beta, maximizing, depth)
    ensures Searched(m2, m0, g, n, v, alpha, beta, maximizing, depth)
    decreases EmptyCount(g), 4
  {
    if g !in m0 && !IsTerminal(g, n) {
      var t, mm :| Grows(m0, mm) && g !in mm && Grows(mm, m1) && Explains(m1, mm, g, n, t, alpha, beta, maximizing, depth, v);
      ExplainsStable(m1, m2, mm, g, n, t, alpha, beta, maximizing, depth, v);
      assert Grows(mm, m2);
    }
  }

  lemma ExplainsStable(m1: map<Grid, int>, m2: map<Grid, int>, m0: map<Grid, int>, g: Grid, n: nat,
                       trace: seq<Option<int>>, alpha: Bound, beta: Bound, maximizing: bool, depth: int, r: int)
    requires Square(g, n) && Grows(m1, m2) && NewKeysLive(m1, m2, n)
    requires Explains(m1, m0, g, n, trace, alpha, beta, maximizing, depth, r)
    ensures Explains(m2, m0, g, n, trace, alpha, beta, maximizing, depth, r)
    decreases EmptyCount(g), 3
  {
    ChildrenStable(m1, m2, m0, g, n, EmptyCells(g, n), trace, Start(alpha, beta, maximizing), maximizing, depth);
  }

  lemma ChildrenStable(m1: map<Grid, int>, m2: map<Grid, int>, m0: map<Grid, int>, g: Grid, n: nat, cells: seq<Move>,
                       trace: seq<Option<int>>, w0: Window, maximizing: bool, depth: int)
    requires Square(g, n) && |cells| == |trace| && Grows(m1, m2) && NewKeysLive(m1, m2, n)
    requires ChildrenScored(m1, m0, g, n, cells, trace, w0, maximizing, depth)
    ensures ChildrenScored(m2, m0, g, n, cells, trace, w0, maximizing, depth)
    decreases EmptyCount(g), 2
  {
    forall k | 0 <= k < |cells| && trace[k].Some?
      ensures ChildAt(m2, m0, g, n, cells, trace, w0, maximizing, depth, k)
    {
      assert ChildAt(m1, m0, g, n, cells, trace, w0, maximizing, depth, k);
      var w := Run(cells[..k], trace[..k], w0, maximizing);
      ChildStable(m1, m2, m0, g, n, cells[k], Mover(maximizing), trace[k].value, w.alpha, w.beta, !maximizing, depth + 1);
    }
  }

  lemma ChildStable(m1: map<Grid, int>, m2: map<Grid, int>, m0: map<Grid, int>, g: Grid, n: nat, c: Move, mover: Cell,
                    v: int, alpha: Bound, beta: Bound, maximizing: bool, depth: int)
    requires Square(g, n) && mover != Empty && Grows(m1, m2) && NewKeysLive(m1, m2, n)
    requires ChildSearched(m1, m0, g, n, c, mover, v, alpha, beta, maximizing, depth)
    ensures ChildSearched(m2, m0, g, n, c, mover, v, alpha, beta, maximizing, depth)
    decreases EmptyCount(g), 0
  {
    PlaceShrinksEmptySet(g, n, c.row, c.col, mover);
    SearchedStable(m1, m2, m0, Place(g, n, c.row, c.col, mover), n, v, alpha, beta, maximizing, depth);
  }

  /**
   * A search recorded against the memo `mk` of the moment it was called also holds against an
   * earlier memo `m0` of the same scan, provided the searched position was not added in between.
   */
  lemma SearchedFrom(m0: map<Grid, int>, mk: map<Grid, int>, memo: map<Grid, int>, g: Grid, n: nat, v: int,
                     alpha: Bound, beta: Bound, maximizing: bool, depth: int)
    requires Square(g, n) && Grows(m0, mk) && (g in mk ==> g in m0)
    requires Searched(memo, mk, g, n, v, alpha, beta, maximizing, depth)
    ensures Searched(memo, m0, g, n, v, alpha, beta, maximizing, depth)
  {
    if g !in m0 && !IsTerminal(g, n) {
      var t, m1 :| Grows(mk, m1) && g !in m1 && Grows(m1, memo) && Explains(memo, m1, g, n, t, alpha, beta, maximizing, depth, v);
      assert Grows(m0, m1);
    }
  }

  /**
   * The memo entry for `k` is the result of a scan of `k`: a live position, which some search
   * with some window, side and depth, begun when `k` was not yet memoised, explains.
   */
  ghost predicate KeySound(memo: map<Grid, int>, n: nat, k: Grid)
    requires k in memo
  {
    Square(k, n) && !IsTerminal(k, n)
    && exists alpha: Bound, beta: Bound, maximizing: bool, depth: int, t: seq<Option<int>>, m1: map<Grid, int> ::
         Grows(m1, memo) && k !in m1 && Explains(memo, m1, k, n, t, alpha, beta, maximizing, depth, memo[k])
  }

  /** Every memo entry was stored by a scan of its own key: the memo holds nothing else. */
  ghost predicate MemoSound(memo: map<Grid, int>, n: nat)
  {
    forall k {:trigger KeySound(memo, n, k)} :: k in memo ==> KeySound(memo, n, k)
  }

  /** Storing the explained result of a scan keeps the memo sound. */
  lemma MemoSoundStore(m1: map<Grid, int>, n: nat, key: Grid, v: int)
    requires MemoSound(m1, n) && key !in m1
    requires KeySound(m1[key := v], n, key)
    ensures MemoSound(m1[key := v], n)
  {
    var m2 := m1[key := v];
    forall k | k in m1
      ensures KeySound(m2, n, k)
    {
      assert KeySound(m1, n, k);
      var alpha: Bound, beta: Bound, maximizing: bool, depth: int, t: seq<Option<int>>, mm: map<Grid, int> :|
        Grows(mm, m1) && k !in mm && Explains(m1, mm, k, n, t, alpha, beta, maximizing, depth, m1[k]);
      ExplainsStable(m1, m2, mm, k, n, t, alpha, beta, maximizing, depth, m1[k]);
      assert Grows(mm, m2);
    }
  }

  /** `k` is `g` with `mover`'s mark in a cell before (row, col) in row-major order. */
  ghost predicate EarlierChild(g: Grid, n: nat, k: Grid, row: nat, col: nat, mover: Cell)
    requires Square(g, n)
  {
    exists r: nat, c: nat :: r < n && c < n && (r < row || (r == row && c < col)) && k == Place(g, n, r, c, mover)
  }

  /**
   * Part-way through a scan of `g` that started with memo `m0`, after the cells before
   * (row, col) were tried: `m` keeps every entry of `m0`, and each key it adds is a child
   * tried so far or a position with at least two more marks than `g`.
   */
  ghost predicate AddedSince(m0: map<Grid, int>, m: map<Grid, int>, g: Grid, n: nat, row: nat, col: nat, mover: Cell)
    requires Square(g, n)
  {
    Grows(m0, m)
    && forall k :: k in m && k !in m0 ==> EmptyCount(k) + 1 < EmptyCount(g) || EarlierChild(g, n, k, row, col, mover)
  }

  /** A later point of the scan allows more added keys. */
  lemma AddedLater(m0: map<Grid, int>, m: map<Grid, int>, g: Grid, n: nat, row: nat, col: nat, row': nat, col': nat,
                   mover: Cell)
    requires Square(g, n) && AddedSince(m0, m, g, n, row, col, mover)
    requires row < row' || (row == row' && col <= col')
    ensures AddedSince(m0, m, g, n, row', col', mover)
  {
    forall k | k in m && k !in m0 && EarlierChild(g, n, k, row, col, mover)
      ensures EarlierChild(g, n, k, row', col', mover)
    {
      var r: nat, c: nat :| r < n && c < n && (r < row || (r == row && c < col)) && k == Place(g, n, r, c, mover);
    }
  }

  /** Searching the child at the blank cell (row, col) adds only that child and positions below it. */
  lemma AddedStep(m0: map<Grid, int>, m1: map<Grid, int>, m2: map<Grid, int>, g: Grid, n: nat,
                  row: nat, col: nat, mover: Cell)
    requires Square(g, n) && row < n && col < n && g[row][col] == Empty && mover != Empty
    requires AddedSince(m0, m1, g, n, row, col, mover)
    requires Grows(m1, m2) && NewKeysUnder(m1, m2, Place(g, n, row, col, mover))
    ensures AddedSince(m0, m2, g, n, row, col + 1, mover)
  {
    PlaceShrinksEmptySet(g, n, row, col, mover);
    AddedLater(m0, m1, g, n, row, col, row, col + 1, mover);
    assert EarlierChild(g, n, Place(g, n, row, col, mover), row, col + 1, mover);
  }

  /**
   * The child at a blank cell not yet tried in the scan was not added by the searches of its
   * earlier siblings: each of those added only its own child, which already differs from this
   * one at (row, col), and positions with fewer blank cells.
   */
  lemma FreshChild(m0: map<Grid, int>, m: map<Grid, int>, g: Grid, n: nat, row: nat, col: nat, mover: Cell)
    requires Square(g, n) && row < n && col < n && g[row][col] == Empty && mover != Empty
    requires AddedSince(m0, m, g, n, row, col, mover)
    ensures Place(g, n, row, col, mover) in m ==> Place(g, n, row, col, mover) in m0
  {
    var child := Place(g, n, row, col, mover);
    PlaceShrinksEmptySet(g, n, row, col, mover);
    forall r: nat, c: nat | r < n && c < n && (r < row || (r == row && c < col))
      ensures Place(g, n, r, c, mover) != child
    {
      PlaceKeepsOthers(g, n, r, c, mover);
      assert Place(g, n, r, c, mover)[row][col] == Empty;
    }
    assert !EarlierChild(g, n, child, row, col, mover);
  }

  /** `i` is the first index holding the maximum of `s`. */
  predicate IsFirstMax(s: seq<int>, i: nat)
  {
    i < |s| && (forall j :: 0 <= j < i ==> s[j] < s[i]) && (forall j :: i < j < |s| ==> s[j] <= s[i])
  }

  /** The first index holding the maximum: strictly above everything before it, at least everything after. */
  function FirstMax(s: seq<int>): (i: nat)
    requires |s| > 0
    ensures IsFirstMax(s, i)
  {
    if |s| == 1 then 0
    else
      var i := FirstMax(s[..|s| - 1]);
      if s[|s| - 1] > s[i] then |s| - 1 else i
  }

  /** Where the first maximum moves when one more score is appended. */
  lemma FirstMaxSnoc(s: seq<int>, x: int)
    ensures FirstMax(s + [x]) == if s == [] || x > s[FirstMax(s)] then |s| else FirstMax(s)
  {
    if s != [] {
      assert (s + [x])[..|s|] == s;
    }
  }

  /**
   * The state of a scan of `g` after its first `rows` rows: the trace follows the scan's
   * rule over those rows' blank cells, the running best and window are the fold's, the
   * last break is in an earlier row, and every explored child was searched as the scan says.
   */
  ghost predicate Scanned(memo: map<Grid, int>, m0: map<Grid, int>, g: Grid, n: nat, rows: nat, trace: seq<Option<int>>,
                          w0: Window, maximizing: bool, depth: int, best: Bound, alpha: Bound, beta: Bound)
    requires Square(g, n) && rows <= n
  {
    var cells := RowsEmpties(g, n, rows);
    |trace| == |cells|
    && Follows(cells, trace, w0, maximizing)
    && Run(cells, trace, w0, maximizing) == Window(best, alpha, beta, Run(cells, trace, w0, maximizing).broken)
    && Run(cells, trace, w0, maximizing).broken < rows
    && ChildrenScored(memo, m0, g, n, cells, trace, w0, maximizing, depth)
  }

  /**
   * Each cell of `cells`, marked O, was searched from the memo `m0` with the full window at
   * depth 0, X to move, and gave `scores[k]`.
   */
  ghost predicate AllScored(memo: map<Grid, int>, m0: map<Grid, int>, g: Grid, n: nat, cells: seq<Move>, scores: seq<int>)
    requires Square(g, n)
  {
    |cells| == |scores|
    && forall k :: 0 <= k < |cells| ==> ChildSearched(memo, m0, g, n, cells[k], O, scores[k], NegInf, PosInf, false, 0)
  }

  lemma AllScoredStable(m1: map<Grid, int>, m2: map<Grid, int>, m0: map<Grid, int>, g: Grid, n: nat,
                        cells: seq<Move>, scores: seq<int>)
    requires Square(g, n) && Grows(m1, m2) && NewKeysLive(m1, m2, n)
    requires AllScored(m1, m0, g, n, cells, scores)
    ensures AllScored(m2, m0, g, n, cells, scores)
  {
    forall k | 0 <= k < |cells|
      ensures ChildSearched(m2, m0, g, n, cells[k], O, scores[k], NegInf, PosInf, false, 0)
    {
      ChildStable(m1, m2, m0, g, n, cells[k], O, scores[k], NegInf, PosInf, false, 0);
    }
  }

  lemma AllScoredSnoc(memo: map<Grid, int>, m0: map<Grid, int>, g: Grid, n: nat, cells: seq<Move>, scores: seq<int>,
                      m: Move, v: int)
    requires Square(g, n)
    requires AllScored(memo, m0, g, n, cells, scores)
    requires ChildSearched(memo, m0, g, n, m, O, v, NegInf, PosInf, false, 0)
    ensures AllScored(memo, m0, g, n, cells + [m], scores + [v])
  {
    var cs, ss := cells + [m], scores + [v];
    forall k | 0 <= k < |cs|
      ensures ChildSearched(memo, m0, g, n, cs[k], O, ss[k], NegInf, PosInf, false, 0)
    {
      if k < |cells| {
        assert cs[k] == cells[k] && ss[k] == scores[k];
      }
    }
  }

  /** The first maximum is unique, so any index with its two properties is FirstMax. */
  lemma FirstMaxUnique(s: seq<int>, i: nat)
    requires IsFirstMax(s, i)
    ensures FirstMax(s) == i
  {
  }

  /** The running choice of the AI: nothing yet, or the first cell `cells[i]` with the highest score so far. */
  predicate Leading(cells: seq<Move>, scores: seq<int>, best: Bound, m: Option<Move>, i: nat)
    requires |cells| == |scores|
  {
    if scores == [] then best == NegInf && m == None
    else IsFirstMax(scores, i) && best == Fin(scores[i]) && m == Some(cells[i])
  }

  /** A new score replaces the choice exactly when it beats the best so far. */
  lemma LeadingSnoc(cells: seq<Move>, scores: seq<int>, best: Bound, m: Option<Move>, i: nat, c: Move, v: int)
    requires |cells| == |scores| && Leading(cells, scores, best, m, i)
    ensures var better := !Le(Fin(v), best);
      Leading(cells + [c], scores + [v], if better then Fin(v) else best, if better then Some(c) else m,
              if better then |scores| else i)
  {
    var ss := scores + [v];
    if scores != [] {
      assert (cells + [c])[i] == cells[i];
      assert ss[i] == scores[i];
      if !Le(Fin(v), best) {
        forall j | 0 <= j < |scores|
          ensures ss[j] < v
        {
          assert ss[j] == scores[j];
          if j < i {
            assert scores[j] < scores[i];
          } else if i < j {
            assert scores[j] <= scores[i];
          }
        }
      } else {
        forall j | 0 <= j < i
          ensures ss[j] < ss[i]
        {
          assert ss[j] == scores[j];
        }
        forall j | i < j < |ss|
          ensures ss[j] <= ss[i]
        {
          if j < |scores| {
            assert ss[j] == scores[j];
          }
        }
      }
    }
  }

  class TicTacToe {
    const size: nat
    var board: Grid
    var memo: map<Grid, int>

    /** The board is size x size. */
    ghost predicate Valid()
      reads this
    {
      Square(board, size)
    }

    constructor (size: nat)
      ensures Valid() && this.size == size
      ensures board == EmptyGrid(size) && memo == map[] && MemoSound(memo, size)
    {
      this.size := size;
      board := EmptyGrid(size);
      memo := map[];
    }

    /** The memo key of the current position (the grid value itself). */
    function BoardToTuple(): (key: Grid)
      reads this
    {
      board
    }

    /** Writes `player` into a blank cell and reports success; an occupied cell is left alone. */
    method MakeMove(row: nat, col: nat, player: Cell) returns (ok: bool)
      requires Valid() && row < size && col < size
      modifies this`board
      ensures Valid()
      ensures ok <==> old(board)[row][col] == Empty
      ensures board == if ok then Place(old(board), size, row, col, player) else old(board)
    {
      if board[row][col] == Empty {
        board := Place(board, size, row, col, player);
        return true;
      }
      return false;
    }

    /** Clears a cell unconditionally. */
    method UndoMove(row: nat, col: nat)
      requires Valid() && row < size && col < size
      modifies this`board
      ensures Valid()
      ensures board == Place(old(board), size, row, col, Empty)
    {
      board := Place(board, size, row, col, Empty);
    }

    /**
     * Memoised alpha-beta: a memo hit is returned as is, whatever the depth; then X's line,
     * O's line and a full board score -10 + depth, 10 - depth and 0 and are not stored;
     * otherwise the scan's value is stored under the position the call started from.
     */
    method AlphaBeta(depth: int, alpha: Bound, beta: Bound, maximizing: bool) returns (r: int, ghost trace: seq<Option<int>>)
      requires Valid()
      requires MemoSound(memo, size)
      modifies this
      decreases EmptyCount(board), 3
      ensures Valid() && board == old(board)
      ensures MemoSound(memo, size)
      ensures Grows(old(memo), memo) && NewKeysLive(old(memo), memo, size)
      ensures NewKeysUnder(old(memo), memo, board)
      ensures Scored(memo, board, size, r, depth)
      ensures board in old(memo) ==> r == old(memo)[board] && memo == old(memo) && KeySound(memo, size, board)
      ensures board !in old(memo) && IsTerminal(board, size) ==>
                Some(r) == TerminalScore(board, size, depth) && memo == old(memo)
      ensures board !in old(memo) && !IsTerminal(board, size) ==>
                board in memo && memo[board] == r
                && Explains(memo, old(memo), board, size, trace, alpha, beta, maximizing, depth, r)
    {
      var key := BoardToTuple();
      if key in memo {
        return memo[key], [];
      }
      if IsWinner(board, size, X) {
        return -10 + depth, [];
      }
      if IsWinner(board, size, O) {
        return 10 - depth, [];
      }
      if IsFull(board, size) {
        return 0, [];
      }
      r, trace := ScanMoves(depth, alpha, beta, maximizing);
      ghost var m1 := memo;
      memo := memo[key := r];
      ExplainsStable(m1, memo, old(memo), board, size, trace, alpha, beta, maximizing, depth, r);
      assert Grows(old(memo), memo) && memo[key] == r;
      assert Explains(memo, old(memo), key, size, trace, alpha, beta, maximizing, depth, memo[key]);
      MemoSoundStore(m1, size, key, r);
    }

    /**
     * One candidate of a scan: `player` goes into the blank cell (row, col), the position is
     * searched with the given window, side and depth, and the cell is blanked again.
     */
    method TryMove(row: nat, col: nat, player: Cell, depth: int, alpha: Bound, beta: Bound, maximizing: bool)
      returns (v: int)
      requires Valid() && row < size && col < size && board[row][col] == Empty && player != Empty
      requires MemoSound(memo, size)
      modifies this
      decreases EmptyCount(Place(board, size, row, col, player)), 4
      ensures Valid() && board == old(board)
      ensures MemoSound(memo, size)
      ensures Grows(old(memo), memo) && NewKeysLive(old(memo), memo, size)
      ensures NewKeysUnder(old(memo), memo, Place(board, size, row, col, player))
      ensures Searched(memo, old(memo), Place(board, size, row, col, player), size, v, alpha, beta, maximizing, depth)
    {
      ghost var g0 := board;
      PlaceShrinksEmptySet(g0, size, row, col, player);
      var placed := MakeMove(row, col, player);
      ghost var trace;
      v, trace := AlphaBeta(depth, alpha, beta, maximizing);
      ghost var child := board;
      assert Grows(old(memo), old(memo));
      UndoMove(row, col);
      UndoRestores(g0, size, row, col, player);
      assert child == Place(board, size, row, col, player);
    }

    /**
     * The loops of a non-terminal alpha-beta call: each blank cell in row-major order gets
     * the mover's mark, is searched one level deeper with the other side to move, and is
     * cleared. The row loop hands each row to ScanRow, whose column loop a cutoff leaves.
     */
    method ScanMoves(depth: int, alpha0: Bound, beta0: Bound, maximizing: bool) returns (r: int, ghost trace: seq<Option<int>>)
      requires Valid() && !IsFull(board, size)
      requires MemoSound(memo, size)
      modifies this
      decreases EmptyCount(board), 2
      ensures Valid() && board == old(board)
      ensures MemoSound(memo, size)
      ensures Extends(old(memo), memo, size, EmptyCount(board))
      ensures Explains(memo, old(memo), board, size, trace, alpha0, beta0, maximizing, depth, r)
    {
      ghost var g0, m0 := board, memo;
      ghost var w0 := Start(alpha0, beta0, maximizing);
      trace := [];
      var best := if maximizing then NegInf else PosInf;
      var alpha, beta := alpha0, beta0;
      var row := 0;
      while row < size
        invariant row <= size
        invariant Valid() && board == g0
        invariant Extends(m0, memo, size, EmptyCount(g0)) && MemoSound(memo, size)
        invariant AddedSince(m0, memo, g0, size, row, 0, Mover(maximizing))
        invariant Scanned(memo, m0, g0, size, row, trace, w0, maximizing, depth, best, alpha, beta)
      {
        best, alpha, beta, trace := ScanRow(row, depth, maximizing, best, alpha, beta, w0, trace, m0);
        row := row + 1;
      }
      ghost var cells := EmptyCells(g0, size);
      FullIffNoEmptyCells(g0, size);
      assert ExploredAt(cells, trace, w0, maximizing, 0);
      RunBestIsExtreme(cells, trace, w0, maximizing);
      r := best.v;
    }

    /**
     * The column loop of one row of a scan, continuing from the state after the rows above.
     * A cutoff (`beta <= alpha`) returns at once, so the row's remaining cells are skipped.
     * `base` is the memo the whole scan started from.
     */
    method ScanRow(row: nat, depth: int, maximizing: bool, best0: Bound, alpha0: Bound, beta0: Bound,
                   ghost w0: Window, ghost trace0: seq<Option<int>>, ghost base: map<Grid, int>)
      returns (best: Bound, alpha: Bound, beta: Bound, ghost trace: seq<Option<int>>)
      requires Valid() && row < size
      requires AddedSince(base, memo, board, size, row, 0, Mover(maximizing))
      requires Scanned(memo, base, board, size, row, trace0, w0, maximizing, depth, best0, alpha0, beta0)
      requires MemoSound(memo, size)
      modifies this
      decreases EmptyCount(board), 1
      ensures Valid() && board == old(board)
      ensures MemoSound(memo, size)
      ensures Extends(old(memo), memo, size, EmptyCount(board))
      ensures AddedSince(base, memo, board, size, row + 1, 0, Mover(maximizing))
      ensures Scanned(memo, base, board, size, row + 1, trace, w0, maximizing, depth, best, alpha, beta)
    {
      ghost var g0, m0 := board, memo;
      best, alpha, beta, trace := best0, alpha0, beta0, trace0;
      RowStateStart(memo, base, g0, size, row, trace, w0, maximizing, depth, best, alpha, beta);
      var col := 0;
      while col < size
        invariant col <= size
        invariant Valid() && board == g0
        invariant Extends(m0, memo, size, EmptyCount(g0)) && MemoSound(memo, size)
        invariant AddedSince(base, memo, g0, size, row, col, Mover(maximizing))
        invariant RowState(memo, base, g0, size, row, col, trace, w0, maximizing, depth, best, alpha, beta)
      {
        ghost var m1 := memo;
        var cut;
        best, alpha, beta, trace, cut := ScanCell(row, col, depth, maximizing, best, alpha, beta, w0, trace, base);
        ExtendsTrans(m0, m1, memo, size, EmptyCount(g0));
        if cut {
          return;
        }
        col := col + 1;
      }
      RowStateEnd(memo, base, g0, size, row, trace, w0, maximizing, depth, best, alpha, beta);
      AddedLater(base, memo, g0, size, row, size, row + 1, 0, Mover(maximizing));
    }

    /**
     * One cell of a scan. A marked cell is passed over. On a blank cell the current player's
     * mark is tried, the child's value is folded into best, alpha and beta, and `cut` reports
     * a cutoff (`beta <= alpha`), after which the row's remaining cells count as skipped.
     */
    method ScanCell(row: nat, col: nat, depth: int, maximizing: bool, best0: Bound, alpha0: Bound, beta0: Bound,
                    ghost w0: Window, ghost trace0: seq<Option<int>>, ghost base: map<Grid, int>)
      returns (best: Bound, alpha: Bound, beta: Bound, ghost trace: seq<Option<int>>, cut: bool)
      requires Valid() && row < size && col < size
      requires AddedSince(base, memo, board, size, row, col, Mover(maximizing))
      requires RowState(memo, base, board, size, row, col, trace0, w0, maximizing, depth, best0, alpha0, beta0)
      requires MemoSound(memo, size)
      modifies this
      decreases EmptyCount(board), 0
      ensures Valid() && board == old(board)
      ensures MemoSound(memo, size)
      ensures Extends(old(memo), memo, size, EmptyCount(board))
      ensures cut <==> board[row][col] == Empty && Le(beta, alpha)
      ensures !cut ==> AddedSince(base, memo, board, size, row, col + 1, Mover(maximizing))
      ensures !cut ==> RowState(memo, base, board, size, row, col + 1, trace, w0, maximizing, depth, best, alpha, beta)
      ensures cut ==> AddedSince(base, memo, board, size, row + 1, 0, Mover(maximizing))
      ensures cut ==> Scanned(memo, base, board, size, row + 1, trace, w0, maximizing, depth, best, alpha, beta)
    {
      ghost var g0, m1 := board, memo;
      var mover := Mover(maximizing);
      if board[row][col] != Empty {
        RowStateOccupied(memo, base, g0, size, row, col, trace0, w0, maximizing, depth, best0, alpha0, beta0);
        AddedLater(base, memo, g0, size, row, col, row, col + 1, mover);
        return best0, alpha0, beta0, trace0, false;
      }
      PlaceShrinksEmptySet(g0, size, row, col, mover);
      FreshChild(base, m1, g0, size, row, col, mover);
      var v := TryMove(row, col, mover, depth + 1, alpha0, beta0, !maximizing);
      SearchedFrom(base, m1, memo, Place(g0, size, row, col, mover), size, v, alpha0, beta0, !maximizing, depth + 1);
      AddedStep(base, m1, memo, g0, size, row, col, mover);
      RowStateStable(m1, memo, base, g0, size, row, col, trace0, w0, maximizing, depth, best0, alpha0, beta0);
      RowStateExplore(memo, base, g0, size, row, col, trace0, w0, maximizing, depth, best0, alpha0, beta0, v);
      trace := trace0 + [Some(v)];
      best := if maximizing then Max(best0, Fin(v)) else Min(best0, Fin(v));
      alpha := if maximizing then Max(alpha0, Fin(v)) else alpha0;
      beta := if maximizing then beta0 else Min(beta0, Fin(v));
      cut := Le(beta, alpha);
      if cut {
        trace := trace + Nones(|RowEmpties(g0, size, row, col + 1, size)|);
        AddedLater(base, memo, g0, size, row, col + 1, row + 1, 0, mover);
      }
    }

    /**
     * The AI's move for O: every blank cell in row-major order is tried with a fresh full
     * window at depth 0, X to move next; the first cell with the highest score wins.
     */
    method BestMove() returns (m: Option<Move>, ghost scores: seq<int>)
      requires Valid()
      requires MemoSound(memo, size)
      modifies this
      ensures Valid() && board == old(board)
      ensures MemoSound(memo, size)
      ensures Grows(old(memo), memo)
      ensures |scores| == |EmptyCells(board, size)|
      ensures m.None? <==> EmptyCells(board, size) == []
      ensures m.Some? ==> m.value == EmptyCells(board, size)[FirstMax(scores)]
      ensures AllScored(memo, old(memo), board, size, EmptyCells(board, size), scores)
    {
      ghost var g0, base := board, memo;
      scores := [];
      var bestScore := NegInf;
      ghost var bi: nat := 0;
      m := None;
      var row := 0;
      while row < size
        invariant row <= size
        invariant Valid() && board == g0
        invariant AddedSince(base, memo, g0, size, row, 0, O) && MemoSound(memo, size)
        invariant AllScored(memo, base, g0, size, RowsEmpties(g0, size, row), scores)
        invariant Leading(RowsEmpties(g0, size, row), scores, bestScore, m, bi)
      {
        bestScore, m, scores, bi := BestInRow(row, bestScore, m, scores, bi, base);
        row := row + 1;
      }
      if scores != [] {
        FirstMaxUnique(scores, bi);
      }
    }

    /** The column loop of one row of BestMove, continuing from the choice over the rows above. */
    method BestInRow(row: nat, best0: Bound, m0: Option<Move>, ghost scores0: seq<int>, ghost bi0: nat,
                     ghost base: map<Grid, int>)
      returns (bestScore: Bound, m: Option<Move>, ghost scores: seq<int>, ghost bi: nat)
      requires Valid() && row < size
      requires AddedSince(base, memo, board, size, row, 0, O)
      requires AllScored(memo, base, board, size, RowsEmpties(board, size, row), scores0)
      requires Leading(RowsEmpties(board, size, row), scores0, best0, m0, bi0)
      requires MemoSound(memo, size)
      modifies this
      ensures Valid() && board == old(board)
      ensures MemoSound(memo, size)
      ensures AddedSince(base, memo, board, size, row + 1, 0, O)
      ensures AllScored(memo, base, board, size, RowsEmpties(board, size, row + 1), scores)
      ensures Leading(RowsEmpties(board, size, row + 1), scores, bestScore, m, bi)
    {
      ghost var g0 := board;
      ghost var done := RowsEmpties(g0, size, row);
      bestScore, m, scores, bi := best0, m0, scores0, bi0;
      var col := 0;
      assert RowEmpties(g0, size, row, 0, 0) == [];
      assert done == RowsEmpties(g0, size, row) + RowEmpties(g0, size, row, 0, 0);
      while col < size
        invariant col <= size
        invariant Valid() && board == g0
        invariant done == RowsEmpties(g0, size, row) + RowEmpties(g0, size, row, 0, col)
        invariant AddedSince(base, memo, g0, size, row, col, O) && MemoSound(memo, size)
        invariant AllScored(memo, base, g0, size, done, scores)
        invariant Leading(done, scores, bestScore, m, bi)
      {
        bestScore, m, done, scores, bi := BestInCell(row, col, bestScore, m, done, scores, bi, base);
        col := col + 1;
      }
      EmptiesNextRow(g0, size, row, col);
      AddedLater(base, memo, g0, size, row, col, row + 1, 0, O);
    }

    /**
     * One cell of BestMove. A marked cell is passed over. A blank cell is scored with O's mark
     * in it, and it becomes the choice only when its score is strictly above the best so far.
     */
    method BestInCell(row: nat, col: nat, best0: Bound, m0: Option<Move>,
                      ghost done0: seq<Move>, ghost scores0: seq<int>, ghost bi0: nat, ghost base: map<Grid, int>)
      returns (bestScore: Bound, m: Option<Move>, ghost done: seq<Move>, ghost scores: seq<int>, ghost bi: nat)
      requires Valid() && row < size && col < size
      requires done0 == RowsEmpties(board, size, row) + RowEmpties(board, size, row, 0, col)
      requires AddedSince(base, memo, board, size, row, col, O)
      requires AllScored(memo, base, board, size, done0, scores0)
      requires Leading(done0, scores0, best0, m0, bi0)
      requires MemoSound(memo, size)
      modifies this
      ensures Valid() && board == old(board)
      ensures MemoSound(memo, size)
      ensures done == RowsEmpties(board, size, row) + RowEmpties(board, size, row, 0, col + 1)
      ensures AddedSince(base, memo, board, size, row, col + 1, O)
      ensures AllScored(memo, base, board, size, done, scores)
      ensures Leading(done, scores, bestScore, m, bi)
    {
      ghost var g0 := board;
      EmptiesNextCol(g0, size, row, col);
      if board[row][col] != Empty {
        assert done0 + [] == done0;
        AddedLater(base, memo, g0, size, row, col, row, col + 1, O);
        return best0, m0, done0, scores0, bi0;
      }
      ghost var m1 := memo;
      PlaceShrinksEmptySet(g0, size, row, col, O);
      FreshChild(base, m1, g0, size, row, col, O);
      var score := TryMove(row, col, O, 0, NegInf, PosInf, false);
      SearchedFrom(base, m1, memo, Place(g0, size, row, col, O), size, score, NegInf, PosInf, false, 0);
      AddedStep(base, m1, memo, g0, size, row, col, O);
      AllScoredStable(m1, memo, base, g0, size, done0, scores0);
      AllScoredSnoc(memo, base, g0, size, done0, scores0, Move(row, col), score);
      LeadingSnoc(done0, scores0, best0, m0, bi0, Move(row, col), score);
      done, scores := done0 + [Move(row, col)], scores0 + [score];
      if !Le(Fin(score), best0) {
        bestScore, m, bi := Fin(score), Some(Move(row, col)), |scores0|;
      } else {
        bestScore, m, bi := best0, m0, bi0;
      }
    }
  }

  /** Appending an explored child searched with the scan's current window extends ChildrenScored. */
  lemma ChildrenSnoc(memo: map<Grid, int>, m0: map<Grid, int>, g: Grid, n: nat, cells: seq<Move>, trace: seq<Option<int>>,
                     w0: Window, maximizing: bool, depth: int, m: Move, v: int)
    requires Square(g, n) && |cells| == |trace|
    requires ChildrenScored(memo, m0, g, n, cells, trace, w0, maximizing, depth)
    requires var w := Run(cells, trace, w0, maximizing);
      ChildSearched(memo, m0, g, n, m, Mover(maximizing), v, w.alpha, w.beta, !maximizing, depth + 1)
    ensures ChildrenScored(memo, m0, g, n, cells + [m], trace + [Some(v)], w0, maximizing, depth)
  {
    var cs, ts := cells + [m], trace + [Some(v)];
    forall k | 0 <= k < |cs| && ts[k].Some?
      ensures ChildAt(memo, m0, g, n, cs, ts, w0, maximizing, depth, k)
    {
      if k < |cells| {
        assert ChildAt(memo, m0, g, n, cells, trace, w0, maximizing, depth, k);
        assert cs[k] == cells[k] && ts[k] == trace[k] && cs[..k] == cells[..k] && ts[..k] == trace[..k];
      } else {
        assert cs[..k] == cells && ts[..k] == trace;
      }
    }
  }

  /** Appending skipped cells keeps ChildrenScored. */
  lemma ChildrenSkip(memo: map<Grid, int>, m0: map<Grid, int>, g: Grid, n: nat, cells: seq<Move>, trace: seq<Option<int>>,
                     w0: Window, maximizing: bool, depth: int, rest: seq<Move>)
    requires Square(g, n) && |cells| == |trace|
    requires ChildrenScored(memo, m0, g, n, cells, trace, w0, maximizing, depth)
    ensures ChildrenScored(memo, m0, g, n, cells + rest, trace + Nones(|rest|), w0, maximizing, depth)
  {
    var cs, ts := cells + rest, trace + Nones(|rest|);
    forall k | 0 <= k < |cs| && ts[k].Some?
      ensures ChildAt(memo, m0, g, n, cs, ts, w0, maximizing, depth, k)
    {
      assert k < |cells|;
      assert ChildAt(memo, m0, g, n, cells, trace, w0, maximizing, depth, k);
      assert cs[k] == cells[k] && ts[k] == trace[k] && cs[..k] == cells[..k] && ts[..k] == trace[..k];
    }
  }


  // ---------------------------------------------------------------------------
  // The state of a scan part-way through a row, and how each cell moves it on
  // ---------------------------------------------------------------------------

  /** Scanned, part-way through row `row`: the cells before column `col` of that row are done too. */
  ghost predicate RowState(memo: map<Grid, int>, m0: map<Grid, int>, g: Grid, n: nat, row: nat, col: nat,
                           trace: seq<Option<int>>, w0: Window, maximizing: bool, depth: int,
                           best: Bound, alpha: Bound, beta: Bound)
    requires Square(g, n) && row < n && col <= n
  {
    var cells := RowsEmpties(g, n, row) + RowEmpties(g, n, row, 0, col);
    |trace| == |cells|
    && Follows(cells, trace, w0, maximizing)
    && Run(cells, trace, w0, maximizing) == Window(best, alpha, beta, Run(cells, trace, w0, maximizing).broken)
    && Run(cells, trace, w0, maximizing).broken < row
    && ChildrenScored(memo, m0, g, n, cells, trace, w0, maximizing, depth)
  }

  lemma RowStateStart(memo: map<Grid, int>, m0: map<Grid, int>, g: Grid, n: nat, row: nat, trace: seq<Option<int>>,
                      w0: Window, maximizing: bool, depth: int, best: Bound, alpha: Bound, beta: Bound)
    requires Square(g, n) && row < n
    requires Scanned(memo, m0, g, n, row, trace, w0, maximizing, depth, best, alpha, beta)
    ensures RowState(memo, m0, g, n, row, 0, trace, w0, maximizing, depth, best, alpha, beta)
  {
    assert RowEmpties(g, n, row, 0, 0) == [];
    assert RowsEmpties(g, n, row) + [] == RowsEmpties(g, n, row);
  }

  lemma RowStateEnd(memo: map<Grid, int>, m0: map<Grid, int>, g: Grid, n: nat, row: nat, trace: seq<Option<int>>,
                    w0: Window, maximizing: bool, depth: int, best: Bound, alpha: Bound, beta: Bound)
    requires Square(g, n) && row < n
    requires RowState(memo, m0, g, n, row, n, trace, w0, maximizing, depth, best, alpha, beta)
    ensures Scanned(memo, m0, g, n, row + 1, trace, w0, maximizing, depth, best, alpha, beta)
  {
    EmptiesNextRow(g, n, row, n);
  }

  lemma RowStateStable(m1: map<Grid, int>, m2: map<Grid, int>, m0: map<Grid, int>, g: Grid, n: nat, row: nat, col: nat,
                       trace: seq<Option<int>>, w0: Window, maximizing: bool, depth: int,
                       best: Bound, alpha: Bound, beta: Bound)
    requires Square(g, n) && row < n && col <= n && Grows(m1, m2) && NewKeysLive(m1, m2, n)
    requires RowState(m1, m0, g, n, row, col, trace, w0, maximizing, depth, best, alpha, beta)
    ensures RowState(m2, m0, g, n, row, col, trace, w0, maximizing, depth, best, alpha, beta)
  {
    var cells := RowsEmpties(g, n, row) + RowEmpties(g, n, row, 0, col);
    ChildrenStable(m1, m2, m0, g, n, cells, trace, w0, maximizing, depth);
  }

  /** An occupied cell is passed over. */
  lemma RowStateOccupied(memo: map<Grid, int>, m0: map<Grid, int>, g: Grid, n: nat, row: nat, col: nat,
                         trace: seq<Option<int>>, w0: Window, maximizing: bool, depth: int,
                         best: Bound, alpha: Bound, beta: Bound)
    requires Square(g, n) && row < n && col < n && g[row][col] != Empty
    requires RowState(memo, m0, g, n, row, col, trace, w0, maximizing, depth, best, alpha, beta)
    ensures RowState(memo, m0, g, n, row, col + 1, trace, w0, maximizing, depth, best, alpha, beta)
  {
    EmptiesNextCol(g, n, row, col);
    var cells := RowsEmpties(g, n, row) + RowEmpties(g, n, row, 0, col);
    assert cells + [] == cells;
  }

  /**
   * A blank cell is explored with the scan's current window and its child value `v` folded in;
   * on a cutoff the rest of the row is skipped and the row is finished.
   */
  lemma RowStateExplore(memo: map<Grid, int>, m0: map<Grid, int>, g: Grid, n: nat, row: nat, col: nat,
                        trace: seq<Option<int>>, w0: Window, maximizing: bool, depth: int,
                        best: Bound, alpha: Bound, beta: Bound, v: int)
    requires Square(g, n) && row < n && col < n && g[row][col] == Empty
    requires RowState(memo, m0, g, n, row, col, trace, w0, maximizing, depth, best, alpha, beta)
    requires Searched(memo, m0, Place(g, n, row, col, Mover(maximizing)), n, v, alpha, beta, !maximizing, depth + 1)
    ensures var best', alpha', beta' := if maximizing then Max(best, Fin(v)) else Min(best, Fin(v)),
                                       if maximizing then Max(alpha, Fin(v)) else alpha,
                                       if maximizing then beta else Min(beta, Fin(v));
      && (!Le(beta', alpha') ==>
            RowState(memo, m0, g, n, row, col + 1, trace + [Some(v)], w0, maximizing, depth, best', alpha', beta'))
      && (Le(beta', alpha') ==>
            Scanned(memo, m0, g, n, row + 1, trace + [Some(v)] + Nones(|RowEmpties(g, n, row, col + 1, n)|),
                    w0, maximizing, depth, best', alpha', beta'))
  {
    var done := RowsEmpties(g, n, row) + RowEmpties(g, n, row, 0, col);
    var m := Move(row, col);
    RunSnoc(done, trace, w0, maximizing, m, Some(v));
    FollowsSnoc(done, trace, w0, maximizing, m, Some(v));
    ChildrenSnoc(memo, m0, g, n, done, trace, w0, maximizing, depth, m, v);
    EmptiesNextCol(g, n, row, col);
    var done', trace' := done + [m], trace + [Some(v)];
    var w := Run(done', trace', w0, maximizing);
    if Cut(w) {
      var rest := RowEmpties(g, n, row, col + 1, n);
      RowEmptiesInRange(g, n, row, col + 1, n);
      FollowsSkip(done', trace', w0, maximizing, rest);
      ChildrenSkip(memo, m0, g, n, done', trace', w0, maximizing, depth, rest);
      EmptiesNextRow(g, n, row, col + 1);
      assert done' + rest == RowsEmpties(g, n, row + 1);
    }
  }
}
