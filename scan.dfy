/**
 The row-major labelling scan: what holds between two cells of the scan,
 and what the finished labelling promises.
 */
module Labelling {
  import opened LabelGrid
  import opened FloodFill

  /** A freshly loaded grid: every cell is pending (foreground) or background. */
  ghost predicate IsLoaded(gi: Grid)
  {
    forall p :: Label(gi, p) == Pending || Label(gi, p) == Background
  }

  /** Adjacent foreground cells carry the same label. */
  ghost predicate Consistent(g: Grid)
  {
    forall p, q {:trigger Adjacent(p, q), Label(g, p), Label(g, q)} :: Adjacent(p, q) && Label(g, p) != Background && Label(g, q) != Background ==>
      Label(g, p) == Label(g, q)
  }

  /**
   The finished labelling of the loaded grid `gi` with `cc` blobs: background
   stays background, no cell is left pending, every other label is an ID in
   1..cc, and two foreground cells share an ID exactly when a path of
   foreground cells joins them.
   */
  ghost predicate IsLabelling(gi: Grid, g: Grid, cc: int)
  {
    (forall p :: (Label(g, p) == Background) == (Label(gi, p) == Background)) &&
    (forall p :: Label(g, p) == Background || 1 <= Label(g, p) <= cc) &&
    (forall p, q :: Label(gi, p) == Pending && Label(gi, q) == Pending ==>
       (Label(g, p) == Label(g, q) <==> Reach(gi, p, q)))
  }

  /**
   `seeds[k]` is the cell at which ID k+1 was handed out: it carries that ID,
   the seeds come in row-major order, and no cell with ID k+1 comes before
   its seed, so the seed is the first cell of its blob.
   */
  ghost predicate FirstCells(g: Grid, cc: int, seeds: seq<Cell>)
  {
    |seeds| == cc &&
    (forall k :: 0 <= k < cc ==> Label(g, seeds[k]) == k + 1) &&
    Ascending(seeds) &&
    (forall p :: 1 <= Label(g, p) <= cc ==> !Before(p, seeds[Label(g, p) - 1]))
  }

  /** The scan has handed out `cc` IDs and is about to look at cell `(i, j)`. */
  ghost predicate ScanInv(gi: Grid, g: Grid, rows: int, cols: int, cc: int, seeds: seq<Cell>, i: int, j: int)
  {
    IsRect(gi, rows, cols) && IsRect(g, rows, cols) && IsLoaded(gi) &&
    cc == |seeds| &&
    (forall p {:trigger Label(g, p)} :: (Label(g, p) == Background) == (Label(gi, p) == Background)) &&
    (forall p :: Label(g, p) == Background || 0 <= Label(g, p) <= cc) &&
    (forall p :: InBounds(p, rows, cols) && Before(p, (i, j)) ==> Label(g, p) != Pending) &&
    Consistent(g) &&
    (forall k :: 0 <= k < cc ==> Label(g, seeds[k]) == k + 1 && Before(seeds[k], (i, j))) &&
    Ascending(seeds) &&
    (forall p :: 1 <= Label(g, p) <= cc ==>
       Reach(gi, seeds[Label(g, p) - 1], p) && !Before(p, seeds[Label(g, p) - 1]))
  }

  lemma ScanStart(gi: Grid, rows: int, cols: int)
    requires IsRect(gi, rows, cols) && IsLoaded(gi)
    ensures ScanInv(gi, gi, rows, cols, 0, [], 0, 0)
  {
    forall p, q | Adjacent(p, q) && Label(gi, p) != Background && Label(gi, q) != Background
      ensures Label(gi, p) == Label(gi, q)
    {
      assert Label(gi, p) == Pending && Label(gi, q) == Pending;
    }
  }

  /** The scan passes over a cell that is not pending. */
  lemma ScanSkip(gi: Grid, g: Grid, rows: int, cols: int, cc: int, seeds: seq<Cell>, i: int, j: int)
    requires ScanInv(gi, g, rows, cols, cc, seeds, i, j) && Label(g, (i, j)) != Pending
    ensures ScanInv(gi, g, rows, cols, cc, seeds, i, j + 1)
  {
  }

  /** The scan moves from the end of row `i` to the start of row `i + 1`. */
  lemma ScanNextRow(gi: Grid, g: Grid, rows: int, cols: int, cc: int, seeds: seq<Cell>, i: int)
    requires ScanInv(gi, g, rows, cols, cc, seeds, i, cols)
    ensures ScanInv(gi, g, rows, cols, cc, seeds, i + 1, 0)
  {
    RowScanned(g, rows, cols, i);
  }

  lemma RowScanned(g: Grid, rows: int, cols: int, i: int)
    requires forall p :: InBounds(p, rows, cols) && Before(p, (i, cols)) ==> Label(g, p) != Pending
    ensures forall p :: InBounds(p, rows, cols) && Before(p, (i + 1, 0)) ==> Label(g, p) != Pending
  {
    forall p | InBounds(p, rows, cols) && Before(p, (i + 1, 0)) ensures Label(g, p) != Pending {
      assert Before(p, (i, cols));
    }
  }

  /** The fill started at a pending cell keeps adjacent foreground cells equally labelled. */
  lemma FillKeepsConsistent(g: Grid, g': Grid, s: Cell, c: int)
    requires Consistent(g) && Filled(g, g', s, c) && c != Pending && c != Background
    ensures Consistent(g')
  {
    FilledFrame(g, g', s, c);
    forall p, q | Adjacent(p, q) && Label(g', p) != Background && Label(g', q) != Background
      ensures Label(g', p) == Label(g', q)
    {
      if Reach(g, s, p) && !Reach(g, s, q) {
        ReachEnds(g, s, p);
        ReachExtend(g, s, p, q);
      } else if Reach(g, s, q) && !Reach(g, s, p) {
        ReachEnds(g, s, q);
        assert Adjacent(q, p);
        ReachExtend(g, s, q, p);
      }
    }
  }

  /** A fill with the next ID keeps background cells and IDs in range, and claims its seed. */
  lemma FillKeepsRange(g: Grid, g': Grid, s: Cell, cc: int)
    requires forall p :: Label(g, p) == Background || 0 <= Label(g, p) <= cc
    requires Label(g, s) == Pending && cc >= 0 && Filled(g, g', s, cc + 1)
    ensures forall p :: (Label(g', p) == Background) == (Label(g, p) == Background)
    ensures forall p :: Label(g', p) == Background || 0 <= Label(g', p) <= cc + 1
    ensures forall p :: Label(g, p) != Pending ==> Label(g', p) == Label(g, p)
    ensures forall p :: Label(g', p) == Pending ==> Label(g, p) == Pending
    ensures Label(g', s) == cc + 1
  {
    FilledFrame(g, g', s, cc + 1);
    ReachRefl(g, s);
  }

  /** Every ID-carrying cell after the fill still traces back to the seed of its ID and lies after it. */
  lemma FillTracesToSeeds(gi: Grid, g: Grid, g': Grid, s: Cell, cc: int, seeds: seq<Cell>)
    requires |seeds| == cc && IsLoaded(gi)
    requires forall p :: (Label(g, p) == Background) == (Label(gi, p) == Background)
    requires forall p :: Label(g, p) == Background || 0 <= Label(g, p) <= cc
    requires forall p :: Label(g, p) == Pending ==> !Before(p, s)
    requires forall p :: 1 <= Label(g, p) <= cc ==>
               Reach(gi, seeds[Label(g, p) - 1], p) && !Before(p, seeds[Label(g, p) - 1])
    requires Filled(g, g', s, cc + 1)
    ensures forall p :: 1 <= Label(g', p) <= cc + 1 ==>
              Reach(gi, (seeds + [s])[Label(g', p) - 1], p) && !Before(p, (seeds + [s])[Label(g', p) - 1])
  {
    var seeds' := seeds + [s];
    forall p | 1 <= Label(g', p) <= cc + 1
      ensures Reach(gi, seeds'[Label(g', p) - 1], p) && !Before(p, seeds'[Label(g', p) - 1])
    {
      if Reach(g, s, p) {
        ReachEnds(g, s, p);
        assert forall q :: Label(g, q) == Pending ==> Label(gi, q) == Pending;
        ReachMono(g, gi, s, p);
      } else {
        assert Label(g', p) == Label(g, p);
        assert seeds'[Label(g', p) - 1] == seeds[Label(g, p) - 1];
      }
    }
  }

  /** The seeds keep their IDs and order when the scan adds the cell it has just filled from. */
  lemma FillKeepsSeeds(g: Grid, g': Grid, s: Cell, cc: int, seeds: seq<Cell>, next: Cell)
    requires |seeds| == cc
    requires forall k :: 0 <= k < cc ==> Label(g, seeds[k]) == k + 1 && Before(seeds[k], s)
    requires Ascending(seeds)
    requires forall p :: Label(g, p) != Pending ==> Label(g', p) == Label(g, p)
    requires Label(g', s) == cc + 1 && Before(s, next)
    ensures forall k :: 0 <= k < cc + 1 ==> Label(g', (seeds + [s])[k]) == k + 1 && Before((seeds + [s])[k], next)
    ensures Ascending(seeds + [s])
  {
    var seeds' := seeds + [s];
    forall k | 0 <= k < cc + 1 ensures Label(g', seeds'[k]) == k + 1 && Before(seeds'[k], next) {
      if k < cc {
        assert seeds'[k] == seeds[k];
        assert Label(g, seeds[k]) == k + 1;
      }
    }
    AscendingSnoc(seeds, s);
  }

  /** Pending cells all lie at or after the cell the scan has reached. */
  lemma PendingNotBefore(g: Grid, rows: int, cols: int, s: Cell)
    requires IsRect(g, rows, cols)
    requires forall p :: InBounds(p, rows, cols) && Before(p, s) ==> Label(g, p) != Pending
    ensures forall p :: Label(g, p) == Pending ==> !Before(p, s)
  {
    forall p | Label(g, p) == Pending ensures !Before(p, s) {
      assert InBounds(p, rows, cols);
    }
  }

  /** After the fill from `s` the scan may move past `s`: nothing before the next cell is pending. */
  lemma ScannedPastSeed(g: Grid, g': Grid, rows: int, cols: int, s: Cell)
    requires forall p :: InBounds(p, rows, cols) && Before(p, s) ==> Label(g, p) != Pending
    requires forall p :: Label(g, p) != Pending ==> Label(g', p) == Label(g, p)
    requires Label(g', s) != Pending
    ensures forall p :: InBounds(p, rows, cols) && Before(p, (s.0, s.1 + 1)) ==> Label(g', p) != Pending
  {
    forall p | InBounds(p, rows, cols) && Before(p, (s.0, s.1 + 1)) ensures Label(g', p) != Pending {
      if p != s {
        assert Before(p, s);
      }
    }
  }

  /** The scan finds a pending cell, hands out ID cc+1 and fills that cell's blob. */
  lemma ScanFill(gi: Grid, g: Grid, g': Grid, rows: int, cols: int, cc: int, seeds: seq<Cell>, i: int, j: int)
    requires ScanInv(gi, g, rows, cols, cc, seeds, i, j)
    requires Label(g, (i, j)) == Pending
    requires IsRect(g', rows, cols) && Filled(g, g', (i, j), cc + 1)
    ensures ScanInv(gi, g', rows, cols, cc + 1, seeds + [(i, j)], i, j + 1)
  {
    var s := (i, j);
    FillKeepsRange(g, g', s, cc);
    FillKeepsConsistent(g, g', s, cc + 1);
    PendingNotBefore(g, rows, cols, s);
    FillTracesToSeeds(gi, g, g', s, cc, seeds);
    FillKeepsSeeds(g, g', s, cc, seeds, (i, j + 1));
    ScannedPastSeed(g, g', rows, cols, s);
    ScanInvIntro(gi, g', rows, cols, cc + 1, seeds + [s], i, j + 1);
  }

  /** Assembles the scan invariant from its parts. */
  lemma ScanInvIntro(gi: Grid, g: Grid, rows: int, cols: int, cc: int, seeds: seq<Cell>, i: int, j: int)
    requires IsRect(gi, rows, cols) && IsRect(g, rows, cols) && IsLoaded(gi)
    requires cc == |seeds|
    requires forall p :: (Label(g, p) == Background) == (Label(gi, p) == Background)
    requires forall p :: Label(g, p) == Background || 0 <= Label(g, p) <= cc
    requires forall p :: InBounds(p, rows, cols) && Before(p, (i, j)) ==> Label(g, p) != Pending
    requires Consistent(g)
    requires forall k :: 0 <= k < cc ==> Label(g, seeds[k]) == k + 1 && Before(seeds[k], (i, j))
    requires Ascending(seeds)
    requires forall p :: 1 <= Label(g, p) <= cc ==>
               Reach(gi, seeds[Label(g, p) - 1], p) && !Before(p, seeds[Label(g, p) - 1])
    ensures ScanInv(gi, g, rows, cols, cc, seeds, i, j)
  {
  }

  /** Adjacent-equal labels are constant along a foreground path of the loaded grid. */
  lemma {:induction false} ConstantAlongPath(gi: Grid, g: Grid, path: seq<Cell>, s: Cell, t: Cell, k: nat)
    requires Consistent(g) && PathFromTo(gi, path, s, t) && k < |path|
    requires forall p :: (Label(g, p) == Background) == (Label(gi, p) == Background)
    ensures Label(g, path[k]) == Label(g, s)
  {
    if k > 0 {
      ConstantAlongPath(gi, g, path, s, t, k - 1);
      assert Step(path, k);
      assert Label(gi, path[k - 1]) == Pending && Label(gi, path[k]) == Pending;
    }
  }

  /** Once every cell has been scanned, no cell is left pending. */
  lemma NothingPending(g: Grid, rows: int, cols: int, cc: int)
    requires IsRect(g, rows, cols)
    requires forall p :: InBounds(p, rows, cols) && Before(p, (rows, 0)) ==> Label(g, p) != Pending
    requires forall p :: Label(g, p) == Background || 0 <= Label(g, p) <= cc
    ensures forall p :: Label(g, p) == Background || 1 <= Label(g, p) <= cc
  {
    forall p ensures Label(g, p) == Background || 1 <= Label(g, p) <= cc {
      if 0 <= p.0 < |g| && 0 <= p.1 < |g[p.0]| {
        assert InBounds(p, rows, cols) && Before(p, (rows, 0));
      }
    }
  }

  /** Two foreground cells share an ID exactly when a foreground path joins them. */
  lemma SameIdIffConnected(gi: Grid, g: Grid, cc: int, seeds: seq<Cell>, p: Cell, q: Cell)
    requires |seeds| == cc && Consistent(g)
    requires forall p :: (Label(g, p) == Background) == (Label(gi, p) == Background)
    requires forall p :: Label(g, p) == Background || 1 <= Label(g, p) <= cc
    requires forall p :: 1 <= Label(g, p) <= cc ==> Reach(gi, seeds[Label(g, p) - 1], p)
    requires Label(gi, p) == Pending && Label(gi, q) == Pending
    ensures Label(g, p) == Label(g, q) <==> Reach(gi, p, q)
  {
    if Reach(gi, p, q) {
      SameIdIfConnected(gi, g, p, q);
    }
    if Label(g, p) == Label(g, q) {
      ConnectedIfSameId(gi, g, seeds[Label(g, p) - 1], p, q);
    }
  }

  lemma SameIdIfConnected(gi: Grid, g: Grid, p: Cell, q: Cell)
    requires Consistent(g) && Reach(gi, p, q)
    requires forall p :: (Label(g, p) == Background) == (Label(gi, p) == Background)
    ensures Label(g, p) == Label(g, q)
  {
    var path :| PathFromTo(gi, path, p, q);
    ConstantAlongPath(gi, g, path, p, q, |path| - 1);
  }

  lemma ConnectedIfSameId(gi: Grid, g: Grid, seed: Cell, p: Cell, q: Cell)
    requires Reach(gi, seed, p) && Reach(gi, seed, q)
    ensures Reach(gi, p, q)
  {
    ReachSym(gi, seed, p);
    ReachTrans(gi, p, seed, q);
  }


  /** At the end of the scan the invariant yields the labelling and its seeds. */
  lemma ScanDone(gi: Grid, g: Grid, rows: int, cols: int, cc: int, seeds: seq<Cell>)
    requires ScanInv(gi, g, rows, cols, cc, seeds, rows, 0)
    ensures IsLabelling(gi, g, cc)
    ensures FirstCells(g, cc, seeds)
  {
    NothingPending(g, rows, cols, cc);
    forall p, q | Label(gi, p) == Pending && Label(gi, q) == Pending
      ensures Label(g, p) == Label(g, q) <==> Reach(gi, p, q)
    {
      SameIdIffConnected(gi, g, cc, seeds, p, q);
    }
  }
}
