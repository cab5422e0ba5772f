/**
 * What one non-terminal alpha-beta call does with its row-major list of blank
 * cells: which cells it explores, how it folds the child values into its running
 * best, alpha and beta, and where its cutoffs take effect.
 *
 * The search's cutoff leaves only the loop over columns, so once `beta <= alpha`
 * the rest of the current row is skipped, but every later row still explores its
 * first blank cell. `Window.broken` is the row the scan last broke out of.
 */
module Scan {
  import opened Board

  /** An integer score, or one of the two infinities the search starts its bounds with. */
  datatype Bound = NegInf | Fin(v: int) | PosInf

  predicate Le(a: Bound, b: Bound)
  {
    a == NegInf || b == PosInf || (a.Fin? && b.Fin? && a.v <= b.v)
  }

  /** The larger bound (the first one when they are equal). */
  function Max(a: Bound, b: Bound): (m: Bound)
    ensures Le(a, m) && Le(b, m) && (m == a || m == b)
  {
    if Le(b, a) then a else b
  }

  /** The smaller bound (the first one when they are equal). */
  function Min(a: Bound, b: Bound): (m: Bound)
    ensures Le(m, a) && Le(m, b) && (m == a || m == b)
  {
    if Le(a, b) then a else b
  }

  /** The running state of one scan: best value so far, the window, the row last broken out of. */
  datatype Window = Window(best: Bound, alpha: Bound, beta: Bound, broken: int)

  /** The state before the first cell: the best starts at the identity of max (or min). */
  function Start(alpha: Bound, beta: Bound, maximizing: bool): (w: Window)
  {
    Window(if maximizing then NegInf else PosInf, alpha, beta, -1)
  }

  /** The cutoff condition. */
  predicate Cut(w: Window)
  {
    Le(w.beta, w.alpha)
  }

  /** The mark the side to move writes: O maximises, X minimises. */
  function Mover(maximizing: bool): (mark: Cell)
  {
    if maximizing then O else X
  }

  /** Folds the value `v` of the child at `m` into the state; on a cutoff the scan breaks out of `m`'s row. */
  function Step(w: Window, maximizing: bool, m: Move, v: int): (next: Window)
  {
    if maximizing then
      var a := Max(w.alpha, Fin(v));
      Window(Max(w.best, Fin(v)), a, w.beta, if Le(w.beta, a) then m.row else w.broken)
    else
      var b := Min(w.beta, Fin(v));
      Window(Min(w.best, Fin(v)), w.alpha, b, if Le(b, w.alpha) then m.row else w.broken)
  }

  /** The state after the cells `cells`, where `out[k]` is the value of the child at `cells[k]` or None if it was skipped. */
  function Run(cells: seq<Move>, out: seq<Option<int>>, w0: Window, maximizing: bool): (last: Window)
    requires |cells| == |out|
    decreases |cells|
  {
    if |cells| == 0 then w0
    else
      var w := Run(cells[..|cells| - 1], out[..|out| - 1], w0, maximizing);
      match out[|out| - 1]
      case None => w
      case Some(v) => Step(w, maximizing, cells[|cells| - 1], v)
  }

  /** Cell k is explored exactly when its row is not the row the scan last broke out of. */
  ghost predicate ExploredAt(cells: seq<Move>, out: seq<Option<int>>, w0: Window, maximizing: bool, k: nat)
    requires |cells| == |out| && k < |cells|
  {
    out[k].Some? <==> cells[k].row != Run(cells[..k], out[..k], w0, maximizing).broken
  }

  /** `out` is what the scan does at every cell. */
  ghost predicate Follows(cells: seq<Move>, out: seq<Option<int>>, w0: Window, maximizing: bool)
  {
    |cells| == |out|
    && forall k: nat :: k < |cells| ==> ExploredAt(cells, out, w0, maximizing, k)
  }

  /** `k` blank entries: cells skipped by a cutoff. */
  function Nones(k: nat): (s: seq<Option<int>>)
    ensures |s| == k && forall i :: 0 <= i < k ==> s[i] == None
  {
    seq(k, _ => None)
  }

  // ---------------------------------------------------------------------------
  // Building a run one cell at a time (used by the loops of the search)
  // ---------------------------------------------------------------------------

  lemma RunSnoc(cells: seq<Move>, out: seq<Option<int>>, w0: Window, maximizing: bool, m: Move, o: Option<int>)
    requires |cells| == |out|
    ensures Run(cells + [m], out + [o], w0, maximizing)
         == match o
            case None => Run(cells, out, w0, maximizing)
            case Some(v) => Step(Run(cells, out, w0, maximizing), maximizing, m, v)
  {
    assert (cells + [m])[..|cells|] == cells;
    assert (out + [o])[..|out|] == out;
  }

  lemma FollowsSnoc(cells: seq<Move>, out: seq<Option<int>>, w0: Window, maximizing: bool, m: Move, o: Option<int>)
    requires Follows(cells, out, w0, maximizing)
    requires o.Some? <==> m.row != Run(cells, out, w0, maximizing).broken
    ensures Follows(cells + [m], out + [o], w0, maximizing)
  {
    var cs, os := cells + [m], out + [o];
    forall k: nat | k < |cs|
      ensures ExploredAt(cs, os, w0, maximizing, k)
    {
      if k < |cells| {
        assert ExploredAt(cells, out, w0, maximizing, k);
        assert cs[..k] == cells[..k];
        assert os[..k] == out[..k];
      } else {
        assert cs[..k] == cells;
        assert os[..k] == out;
      }
    }
  }

  /** Skipping cells that lie in the row last broken out of keeps the state and the scan's rule. */
  lemma {:induction false} FollowsSkip(cells: seq<Move>, out: seq<Option<int>>, w0: Window, maximizing: bool, rest: seq<Move>)
    requires Follows(cells, out, w0, maximizing)
    requires forall k :: 0 <= k < |rest| ==> rest[k].row == Run(cells, out, w0, maximizing).broken
    decreases |rest|
    ensures Follows(cells + rest, out + Nones(|rest|), w0, maximizing)
    ensures Run(cells + rest, out + Nones(|rest|), w0, maximizing) == Run(cells, out, w0, maximizing)
  {
    if rest == [] {
      assert cells + rest == cells && out + Nones(0) == out;
    } else {
      var cs, os := cells + [rest[0]], out + [None];
      RunSnoc(cells, out, w0, maximizing, rest[0], None);
      FollowsSnoc(cells, out, w0, maximizing, rest[0], None);
      FollowsSkip(cs, os, w0, maximizing, rest[1..]);
      assert cs + rest[1..] == cells + rest;
      assert os + Nones(|rest| - 1) == out + Nones(|rest|);
    }
  }

  // ---------------------------------------------------------------------------
  // What a scan computes
  // ---------------------------------------------------------------------------

  /**
   * The fold's best value is at least (maximizing) or at most (minimizing) every explored
   * child value, and is either the starting value or one of the explored values.
   */
  lemma {:induction false} RunBestIsExtreme(cells: seq<Move>, out: seq<Option<int>>, w0: Window, maximizing: bool)
    requires |cells| == |out|
    decreases |cells|
    ensures var b := Run(cells, out, w0, maximizing).best;
      forall k :: 0 <= k < |out| && out[k].Some? ==>
        if maximizing then Le(Fin(out[k].value), b) else Le(b, Fin(out[k].value))
    ensures var b := Run(cells, out, w0, maximizing).best;
      b == w0.best || exists k :: 0 <= k < |out| && out[k].Some? && b == Fin(out[k].value)
  {
    if |cells| > 0 {
      var n := |cells| - 1;
      RunBestIsExtreme(cells[..n], out[..n], w0, maximizing);
      var w := Run(cells[..n], out[..n], w0, maximizing);
      var b := Run(cells, out, w0, maximizing).best;
      forall k | 0 <= k < n && out[k].Some?
        ensures if maximizing then Le(Fin(out[k].value), b) else Le(b, Fin(out[k].value))
      {
        assert out[..n][k] == out[k];
      }
      if b != w.best {
        assert out[n].Some? && b == Fin(out[n].value);
      } else if b != w0.best {
        var k :| 0 <= k < n && out[..n][k].Some? && w.best == Fin(out[..n][k].value);
        assert out[k] == out[..n][k];
      }
    }
  }

  /** A step never undoes a cutoff: alpha only grows and beta only shrinks. */
  lemma StepKeepsCut(w: Window, maximizing: bool, m: Move, v: int)
    requires Cut(w)
    ensures Cut(Step(w, maximizing, m, v))
  {
  }

  /** Once the cutoff condition holds it holds for the rest of the scan. */
  lemma {:induction false} CutStays(cells: seq<Move>, out: seq<Option<int>>, w0: Window, maximizing: bool, k: nat)
    requires |cells| == |out| && k <= |cells|
    requires Cut(Run(cells[..k], out[..k], w0, maximizing))
    decreases |cells|
    ensures Cut(Run(cells, out, w0, maximizing))
  {
    if k < |cells| {
      var n := |cells| - 1;
      assert cells[..n][..k] == cells[..k];
      assert out[..n][..k] == out[..k];
      CutStays(cells[..n], out[..n], w0, maximizing, k);
      if out[n].Some? {
        StepKeepsCut(Run(cells[..n], out[..n], w0, maximizing), maximizing, cells[n], out[n].value);
      }
    } else {
      assert cells[..k] == cells && out[..k] == out;
    }
  }

  /** As long as no cutoff has happened the scan has not broken out of any row. */
  lemma {:induction false} UncutKeepsBroken(cells: seq<Move>, out: seq<Option<int>>, w0: Window, maximizing: bool)
    requires |cells| == |out|
    requires !Cut(Run(cells, out, w0, maximizing))
    decreases |cells|
    ensures Run(cells, out, w0, maximizing).broken == w0.broken
  {
    if |cells| > 0 {
      var n := |cells| - 1;
      var w := Run(cells[..n], out[..n], w0, maximizing);
      if Cut(w) {
        if out[n].Some? {
          StepKeepsCut(w, maximizing, cells[n], out[n].value);
        }
        assert false;
      }
      UncutKeepsBroken(cells[..n], out[..n], w0, maximizing);
    }
  }

  /** Before the first cutoff every blank cell is explored. */
  lemma ExploredBeforeCut(cells: seq<Move>, out: seq<Option<int>>, w0: Window, maximizing: bool, k: nat)
    requires Follows(cells, out, w0, maximizing) && w0.broken == -1
    requires k < |cells| && !Cut(Run(cells[..k], out[..k], w0, maximizing))
    ensures out[k].Some?
  {
    assert ExploredAt(cells, out, w0, maximizing, k);
    UncutKeepsBroken(cells[..k], out[..k], w0, maximizing);
  }

  /** A scan that never reaches the cutoff condition explores every blank cell, as plain minimax would. */
  lemma NoCutExploresAll(cells: seq<Move>, out: seq<Option<int>>, w0: Window, maximizing: bool)
    requires Follows(cells, out, w0, maximizing) && w0.broken == -1
    requires !Cut(Run(cells, out, w0, maximizing))
    ensures forall k :: 0 <= k < |out| ==> out[k].Some?
  {
    forall k | 0 <= k < |out| ensures out[k].Some? {
      if Cut(Run(cells[..k], out[..k], w0, maximizing)) {
        CutStays(cells, out, w0, maximizing, k);
        assert false;
      }
      ExploredBeforeCut(cells, out, w0, maximizing, k);
    }
  }

  /** After a cutoff at cell j the rest of j's row stays skipped, whatever lies between. */
  lemma {:induction false} BrokenRowPersists(cells: seq<Move>, out: seq<Option<int>>, w0: Window, maximizing: bool, j: nat, i: nat)
    requires Follows(cells, out, w0, maximizing)
    requires j < i <= |cells| && out[j].Some?
    requires Cut(Run(cells[..j + 1], out[..j + 1], w0, maximizing))
    requires forall t :: j < t < i ==> cells[t].row == cells[j].row
    decreases i
    ensures Run(cells[..i], out[..i], w0, maximizing).broken == cells[j].row
  {
    if i == j + 1 {
      var w := Run(cells[..j], out[..j], w0, maximizing);
      RunSnoc(cells[..j], out[..j], w0, maximizing, cells[j], out[j]);
      assert cells[..j] + [cells[j]] == cells[..j + 1];
      assert out[..j] + [out[j]] == out[..j + 1];
    } else {
      BrokenRowPersists(cells, out, w0, maximizing, j, i - 1);
      var t := i - 1;
      assert ExploredAt(cells, out, w0, maximizing, t);
      assert out[t].None?;
      RunSnoc(cells[..t], out[..t], w0, maximizing, cells[t], out[t]);
      assert cells[..t] + [cells[t]] == cells[..i];
      assert out[..t] + [out[t]] == out[..i];
    }
  }

  /**
   * Once the cutoff holds after exploring cell j, no later cell of j's row is explored;
   * later rows can still be (the cutoff does not end the whole scan).
   */
  lemma AfterCutRowSkipped(cells: seq<Move>, out: seq<Option<int>>, w0: Window, maximizing: bool, j: nat, k: nat)
    requires Follows(cells, out, w0, maximizing) && RowMajor(cells)
    requires j < k < |cells| && out[j].Some?
    requires Cut(Run(cells[..j + 1], out[..j + 1], w0, maximizing))
    requires cells[k].row == cells[j].row
    ensures out[k].None?
  {
    forall t | j < t < k ensures cells[t].row == cells[j].row {
      assert Before(cells[j], cells[t]) && Before(cells[t], cells[k]);
    }
    BrokenRowPersists(cells, out, w0, maximizing, j, k);
    assert ExploredAt(cells, out, w0, maximizing, k);
  }

  /** The row a scan has broken out of is the starting one or the row of one of its cells. */
  lemma {:induction false} BrokenIsSomeRow(cells: seq<Move>, out: seq<Option<int>>, w0: Window, maximizing: bool)
    requires |cells| == |out|
    decreases |cells|
    ensures var b := Run(cells, out, w0, maximizing).broken;
      b == w0.broken || exists j :: 0 <= j < |cells| && b == cells[j].row
  {
    if |cells| > 0 {
      var n := |cells| - 1;
      BrokenIsSomeRow(cells[..n], out[..n], w0, maximizing);
      var b := Run(cells[..n], out[..n], w0, maximizing).broken;
      if b != w0.broken {
        var j :| 0 <= j < n && b == cells[..n][j].row;
        assert cells[..n][j] == cells[j];
      }
    }
  }

  /**
   * The first blank cell of a new row is always explored, however many cutoffs came before:
   * the cutoff only leaves the row it happened in.
   */
  lemma NextRowExplored(cells: seq<Move>, out: seq<Option<int>>, w0: Window, maximizing: bool, k: nat)
    requires Follows(cells, out, w0, maximizing) && RowMajor(cells) && w0.broken == -1
    requires 0 < k < |cells| && cells[k - 1].row < cells[k].row
    ensures out[k].Some?
  {
    BrokenIsSomeRow(cells[..k], out[..k], w0, maximizing);
    var b := Run(cells[..k], out[..k], w0, maximizing).broken;
    if b != -1 {
      var j :| 0 <= j < k && b == cells[..k][j].row;
      assert cells[..k][j] == cells[j];
      if j < k - 1 {
        assert Before(cells[j], cells[k - 1]);
      }
    }
    assert ExploredAt(cells, out, w0, maximizing, k);
  }

  /** A scan that goes on past a cutoff: after (0,0) cuts, (0,1) is skipped but (1,0) is explored. */
  lemma ScanContinuesInNextRow()
    ensures Follows([Move(0, 0), Move(0, 1), Move(1, 0)], [Some(5), None, Some(3)],
                    Start(NegInf, Fin(0), true), true)
    ensures Cut(Run([Move(0, 0)], [Some(5)], Start(NegInf, Fin(0), true), true))
  {
    var cells, out, w0 := [Move(0, 0), Move(0, 1), Move(1, 0)], [Some(5), None, Some(3)], Start(NegInf, Fin(0), true);
    assert cells[..1] == [Move(0, 0)] && out[..1] == [Some(5)];
    assert cells[..2] == [Move(0, 0), Move(0, 1)] && out[..2] == [Some(5), None];
    assert Run(cells[..1], out[..1], w0, true).broken == 0;
    assert Run(cells[..2], out[..2], w0, true).broken == 0;
    assert ExploredAt(cells, out, w0, true, 0);
    assert ExploredAt(cells, out, w0, true, 1);
    assert ExploredAt(cells, out, w0, true, 2);
  }
}
