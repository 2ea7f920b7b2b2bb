/**
 The label grid of the blob analyzer as a value, and 4-connectivity over it.

 A grid holds one integer label per cell: -1 for a background cell, 0 for a
 foreground cell that no blob has claimed yet ("pending"), and a positive
 blob ID once the flood fill has reached the cell.
 */
module LabelGrid {

  /** A cell position: (row, column), both zero-based. */
  type Cell = (int, int)

  /** A snapshot of the labels, row by row. */
  type Grid = seq<seq<int>>

  const Background: int := -1
  const Pending: int := 0

  predicate IsRect(g: Grid, rows: int, cols: int)
  {
    |g| == rows && forall i :: 0 <= i < |g| ==> |g[i]| == cols
  }

  predicate InBounds(p: Cell, rows: int, cols: int)
  {
    0 <= p.0 < rows && 0 <= p.1 < cols
  }

  /** The label of cell `p`; a cell outside the grid reads as background. */
  function Label(g: Grid, p: Cell): int
  {
    if 0 <= p.0 < |g| && 0 <= p.1 < |g[p.0]| then g[p.0][p.1] else Background
  }

  /** Two cells one step apart up, down, left or right. */
  predicate Adjacent(p: Cell, q: Cell)
  {
    (p.0 == q.0 && (p.1 == q.1 + 1 || q.1 == p.1 + 1)) ||
    (p.1 == q.1 && (p.0 == q.0 + 1 || q.0 == p.0 + 1))
  }

  /** `p` comes strictly before `q` in row-major order. */
  predicate Before(p: Cell, q: Cell)
  {
    p.0 < q.0 || (p.0 == q.0 && p.1 < q.1)
  }

  /** Each cell comes strictly before the next one in row-major order. */
  predicate Ascending(cells: seq<Cell>)
    decreases |cells|
  {
    |cells| < 2 || (Before(cells[|cells| - 2], cells[|cells| - 1]) && Ascending(cells[..|cells| - 1]))
  }

  lemma AscendingSnoc(cells: seq<Cell>, c: Cell)
    requires Ascending(cells) && (cells == [] || Before(cells[|cells| - 1], c))
    ensures Ascending(cells + [c])
  {
    assert (cells + [c])[..|cells|] == cells;
  }

  /** Any two cells of an ascending sequence are in row-major order. */
  lemma {:induction false} AscendingOrdered(cells: seq<Cell>, k: int, l: int)
    requires Ascending(cells) && 0 <= k < l < |cells|
    ensures Before(cells[k], cells[l])
  {
    var n := |cells|;
    var front := cells[..n - 1];
    if l < n - 1 {
      AscendingOrdered(front, k, l);
      assert front[k] == cells[k] && front[l] == cells[l];
    } else if k < n - 2 {
      AscendingOrdered(front, k, n - 2);
      assert front[k] == cells[k] && front[n - 2] == cells[n - 2];
    }
  }

  /** The four neighbours of `s`, in the order the flood fill visits them. */
  function Neighbours(s: Cell): seq<Cell>
  {
    [(s.0 + 1, s.1), (s.0 - 1, s.1), (s.0, s.1 + 1), (s.0, s.1 - 1)]
  }

  lemma NeighboursAreAdjacent(s: Cell, q: Cell)
    ensures Adjacent(s, q) <==> q in Neighbours(s)
  {
  }

  /** The set of pending cells; the flood fill shrinks it with every cell it claims. */
  function PendingCells(g: Grid): set<Cell>
  {
    set i, j | 0 <= i < |g| && 0 <= j < |g[i]| && g[i][j] == Pending :: (i, j)
  }

  lemma PendingCellsShrink(ga: Grid, gb: Grid, s: Cell)
    requires forall p :: Label(gb, p) == Pending ==> Label(ga, p) == Pending
    ensures PendingCells(gb) <= PendingCells(ga)
    ensures Label(ga, s) == Pending && Label(gb, s) != Pending ==> PendingCells(gb) < PendingCells(ga)
  {
    forall p | p in PendingCells(gb) ensures p in PendingCells(ga) {
      assert Label(gb, p) == Pending;
    }
    if Label(ga, s) == Pending && Label(gb, s) != Pending {
      assert s in PendingCells(ga);
    }
  }

  /** The `n`-th step of `path` goes between adjacent cells. */
  predicate Step(path: seq<Cell>, n: int)
  {
    0 < n < |path| && Adjacent(path[n - 1], path[n])
  }

  /** `path` runs from `s` to `t` through adjacent pending cells of `g`. */
  ghost predicate PathFromTo(g: Grid, path: seq<Cell>, s: Cell, t: Cell)
  {
    |path| > 0 && path[0] == s && path[|path| - 1] == t &&
    (forall n :: 0 <= n < |path| ==> Label(g, path[n]) == Pending) &&
    (forall n :: 0 < n < |path| ==> Step(path, n))
  }

  /** `t` can be reached from `s` by 4-adjacent in-bounds steps through pending cells. */
  ghost predicate Reach(g: Grid, s: Cell, t: Cell)
  {
    exists path :: PathFromTo(g, path, s, t)
  }

  lemma ReachEnds(g: Grid, s: Cell, t: Cell)
    requires Reach(g, s, t)
    ensures Label(g, s) == Pending && Label(g, t) == Pending
    ensures InBounds(s, |g|, |g[s.0]|) && InBounds(t, |g|, |g[t.0]|)
  {
    var path :| PathFromTo(g, path, s, t);
    assert Label(g, path[0]) == Pending;
    assert Label(g, path[|path| - 1]) == Pending;
  }

  lemma ReachRefl(g: Grid, s: Cell)
    requires Label(g, s) == Pending
    ensures Reach(g, s, s)
  {
    assert PathFromTo(g, [s], s, s);
  }

  /** A reachable region extends by one pending neighbour. */
  lemma ReachExtend(g: Grid, s: Cell, t: Cell, u: Cell)
    requires Reach(g, s, t) && Adjacent(t, u) && Label(g, u) == Pending
    ensures Reach(g, s, u)
  {
    var path :| PathFromTo(g, path, s, t);
    var longer := path + [u];
    forall n | 0 < n < |longer| ensures Step(longer, n) {
      if n < |path| {
        assert Step(path, n);
      }
    }
    assert PathFromTo(g, longer, s, u);
  }

  /** A pending cell reaches whatever its pending neighbour reaches. */
  lemma ReachPrepend(g: Grid, s: Cell, n: Cell, t: Cell)
    requires Label(g, s) == Pending && Adjacent(s, n) && Reach(g, n, t)
    ensures Reach(g, s, t)
  {
    var path :| PathFromTo(g, path, n, t);
    var longer := [s] + path;
    forall n | 0 < n < |longer| ensures Step(longer, n) {
      assert longer[n] == path[n - 1];
      if n > 1 {
        assert Step(path, n - 1);
      }
    }
    assert PathFromTo(g, longer, s, t);
  }

  /** Reachability survives in any grid that keeps every pending cell pending. */
  lemma ReachMono(ga: Grid, gb: Grid, s: Cell, t: Cell)
    requires Reach(ga, s, t)
    requires forall p :: Label(ga, p) == Pending ==> Label(gb, p) == Pending
    ensures Reach(gb, s, t)
  {
    var path :| PathFromTo(ga, path, s, t);
    forall n | 0 <= n < |path| ensures Label(gb, path[n]) == Pending {
      assert Label(ga, path[n]) == Pending;
    }
    assert PathFromTo(gb, path, s, t);
  }

  lemma ReachSym(g: Grid, s: Cell, t: Cell)
    requires Reach(g, s, t)
    ensures Reach(g, t, s)
  {
    var path :| PathFromTo(g, path, s, t);
    var back := seq(|path|, k requires 0 <= k < |path| => path[|path| - 1 - k]);
    forall n | 0 < n < |back| ensures Step(back, n) {
      assert Step(path, |path| - n);
    }
    assert PathFromTo(g, back, t, s);
  }

  lemma ReachTrans(g: Grid, s: Cell, t: Cell, u: Cell)
    requires Reach(g, s, t) && Reach(g, t, u)
    ensures Reach(g, s, u)
  {
    var p1 :| PathFromTo(g, p1, s, t);
    var p2 :| PathFromTo(g, p2, t, u);
    var joined := p1 + p2[1..];
    forall n | 0 < n < |joined| ensures Step(joined, n) {
      if n < |p1| {
        assert joined[n - 1] == p1[n - 1] && joined[n] == p1[n];
        assert Step(p1, n);
      } else {
        assert joined[n] == p2[n - |p1| + 1];
        assert joined[n - 1] == p2[n - |p1|];
        assert Step(p2, n - |p1| + 1);
      }
    }
    forall n | 0 <= n < |joined| ensures Label(g, joined[n]) == Pending {
      if n >= |p1| {
        assert joined[n] == p2[n - |p1| + 1];
      }
    }
    assert PathFromTo(g, joined, s, u);
  }

  /** Multiplying by a non-negative factor keeps the order. */
  lemma MulMono(x: int, y: int, a: nat)
    requires x <= y
    ensures x * a <= y * a
  {
  }

  /** Two grids of one shape with the same cells are equal. */
  lemma SameCells(ga: Grid, gb: Grid, rows: int, cols: int)
    requires IsRect(ga, rows, cols) && IsRect(gb, rows, cols)
    requires forall i, j :: 0 <= i < rows && 0 <= j < cols ==> ga[i][j] == gb[i][j]
    ensures ga == gb
  {
    forall i | 0 <= i < rows ensures ga[i] == gb[i] {
      assert forall j :: 0 <= j < cols ==> ga[i][j] == gb[i][j];
    }
  }
}
