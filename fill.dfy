/**
 What one flood fill does to the label grid, and how the four recursive
 calls of a fill add up to a fill from their common seed.
 */
module FloodFill {
  import opened LabelGrid

  /**
   `g` is `g0` after a flood fill with ID `c` seeded at `s`: exactly the
   cells reachable from `s` through pending cells of `g0` now hold `c`, and
   every other cell keeps its label. When `s` is outside the grid or not
   pending, nothing is reachable and nothing changes.
   */
  ghost predicate Filled(g0: Grid, g: Grid, s: Cell, c: int)
  {
    forall p {:trigger Label(g, p)} :: Label(g, p) == if Reach(g0, s, p) then c else Label(g0, p)
  }

  /** Cell `p` went from pending to `c`. */
  ghost predicate Changed(g0: Grid, g: Grid, c: int, p: Cell)
  {
    Label(g0, p) == Pending && Label(g, p) == c
  }

  /** Every cell either kept its label or went from pending to `c`. */
  ghost predicate Grows(g0: Grid, g: Grid, c: int)
  {
    forall p :: Label(g, p) == Label(g0, p) || Changed(g0, g, c, p)
  }

  /**
   The state of a fill seeded at `s` part-way through its recursive calls:
   the seed holds `c`, every claimed cell is reachable from the seed, and
   every pending neighbour of a claimed cell has been claimed, except the
   seed's neighbours in `todo`, which are still to be visited.
   */
  ghost predicate FillInv(g0: Grid, g: Grid, s: Cell, c: int, todo: seq<Cell>)
  {
    c != Pending && Label(g0, s) == Pending && Label(g, s) == c &&
    Grows(g0, g, c) &&
    (forall p :: Changed(g0, g, c, p) ==> Reach(g0, s, p)) &&
    (forall p, q {:trigger Adjacent(p, q)} :: Changed(g0, g, c, p) && Adjacent(p, q) && Label(g0, q) == Pending ==>
       Label(g, q) == c || (p == s && q in todo))
  }

  /** A fill never turns a cell back into a pending one and never touches a non-pending cell. */
  lemma FilledFrame(g0: Grid, g: Grid, s: Cell, c: int)
    requires Filled(g0, g, s, c) && c != Pending
    ensures Grows(g0, g, c)
    ensures forall p :: Label(g, p) == Pending ==> Label(g0, p) == Pending
    ensures forall p :: Label(g0, p) != Pending ==> Label(g, p) == Label(g0, p)
  {
    forall p ensures Label(g, p) == Label(g0, p) || Changed(g0, g, c, p) {
      if Reach(g0, s, p) {
        ReachEnds(g0, s, p);
      }
    }
  }

  /** A fill from a cell that is outside the grid or not pending leaves every label as it was. */
  lemma FilledFromNonPending(g0: Grid, g: Grid, s: Cell, c: int)
    requires Filled(g0, g, s, c) && Label(g0, s) != Pending
    ensures forall p :: Label(g, p) == Label(g0, p)
  {
    forall p ensures Label(g, p) == Label(g0, p) {
      if Reach(g0, s, p) {
        ReachEnds(g0, s, p);
      }
    }
  }

  /** A fill from a cell that is not pending changes nothing. */
  lemma FilledNothing(g0: Grid, g: Grid, s: Cell, c: int)
    requires Label(g0, s) != Pending
    requires forall p :: Label(g, p) == Label(g0, p)
    ensures Filled(g0, g, s, c)
  {
    forall p ensures !Reach(g0, s, p) {
      if Reach(g0, s, p) {
        ReachEnds(g0, s, p);
      }
    }
  }

  /** Labelling the seed itself starts a fill whose four neighbours are still to be visited. */
  lemma FillSeed(g0: Grid, g1: Grid, s: Cell, c: int)
    requires Label(g0, s) == Pending && c != Pending
    requires forall p :: Label(g1, p) == if p == s then c else Label(g0, p)
    ensures FillInv(g0, g1, s, c, Neighbours(s))
  {
    ReachRefl(g0, s);
    forall p, q | Changed(g0, g1, c, p) && Adjacent(p, q) && Label(g0, q) == Pending
      ensures Label(g1, q) == c || (p == s && q in Neighbours(s))
    {
      NeighboursAreAdjacent(s, q);
    }
  }

  /** The claimed region stays reachable from the seed after one more recursive call. */
  lemma FillStepSound(g0: Grid, ga: Grid, gb: Grid, s: Cell, c: int, n: Cell, todo: seq<Cell>)
    requires FillInv(g0, ga, s, c, [n] + todo) && Adjacent(s, n) && Filled(ga, gb, n, c)
    ensures forall p :: Changed(g0, gb, c, p) ==> Reach(g0, s, p)
  {
    forall p | Changed(g0, gb, c, p) ensures Reach(g0, s, p) {
      if Reach(ga, n, p) {
        ReachMono(ga, g0, n, p);
        ReachPrepend(g0, s, n, p);
      }
    }
  }

  /** The closure part of the invariant after one more recursive call. */
  lemma FillStepClosed(g0: Grid, ga: Grid, gb: Grid, s: Cell, c: int, n: Cell, todo: seq<Cell>)
    requires FillInv(g0, ga, s, c, [n] + todo) && Filled(ga, gb, n, c)
    ensures forall p, q :: Changed(g0, gb, c, p) && Adjacent(p, q) && Label(g0, q) == Pending ==>
              Label(gb, q) == c || (p == s && q in todo)
  {
    forall p, q | Changed(g0, gb, c, p) && Adjacent(p, q) && Label(g0, q) == Pending
      ensures Label(gb, q) == c || (p == s && q in todo)
    {
      if Label(ga, q) == c {
        if Reach(ga, n, q) {
          ReachEnds(ga, n, q);
        }
      } else if Reach(ga, n, p) {
        ReachExtend(ga, n, p, q);
      } else if q == n {
        ReachRefl(ga, n);
      }
    }
  }

  /** One recursive call moves its neighbour off the to-do list and keeps the invariant. */
  lemma FillStep(g0: Grid, ga: Grid, gb: Grid, s: Cell, c: int, n: Cell, todo: seq<Cell>)
    requires FillInv(g0, ga, s, c, [n] + todo) && Adjacent(s, n) && Filled(ga, gb, n, c)
    ensures FillInv(g0, gb, s, c, todo)
  {
    FilledFrame(ga, gb, n, c);
    assert Grows(g0, gb, c) by {
      forall p ensures Label(gb, p) == Label(g0, p) || Changed(g0, gb, c, p) {
        assert Label(ga, p) == Label(g0, p) || Changed(g0, ga, c, p);
        assert Label(gb, p) == Label(ga, p) || Changed(ga, gb, c, p);
      }
    }
    FillStepSound(g0, ga, gb, s, c, n, todo);
    FillStepClosed(g0, ga, gb, s, c, n, todo);
  }

  /** Every cell of a pending path out of the seed has been claimed once nothing is left to visit. */
  lemma {:induction false} ClaimedAlongPath(g0: Grid, g: Grid, s: Cell, c: int, path: seq<Cell>, t: Cell, k: nat)
    requires FillInv(g0, g, s, c, []) && PathFromTo(g0, path, s, t) && k < |path|
    ensures Label(g, path[k]) == c
  {
    if k > 0 {
      ClaimedAlongPath(g0, g, s, c, path, t, k - 1);
      assert Step(path, k);
      assert Changed(g0, g, c, path[k - 1]);
    }
  }

  /** With no neighbour left to visit, the invariant is exactly the specification of a fill. */
  lemma FillDone(g0: Grid, g: Grid, s: Cell, c: int)
    requires FillInv(g0, g, s, c, [])
    ensures Filled(g0, g, s, c)
  {
    forall p ensures Label(g, p) == if Reach(g0, s, p) then c else Label(g0, p) {
      if Reach(g0, s, p) {
        var path :| PathFromTo(g0, path, s, p);
        ClaimedAlongPath(g0, g, s, c, path, p, |path| - 1);
      } else {
        assert !Changed(g0, g, c, p);
      }
    }
  }

  /** A fill never adds pending cells, so a measure that has dropped below `g0`'s stays below it. */
  lemma FillStepPending(g0: Grid, ga: Grid, gb: Grid, n: Cell, c: int)
    requires Filled(ga, gb, n, c) && c != Pending
    requires PendingCells(ga) < PendingCells(g0)
    ensures PendingCells(gb) < PendingCells(g0)
  {
    FilledFrame(ga, gb, n, c);
    PendingCellsShrink(ga, gb, n);
  }

  /**
   Labelling the seed and then filling from its four neighbours in turn,
   down, up, right, left, is a fill from the seed.
   */
  lemma FillFour(g0: Grid, g1: Grid, g2: Grid, g3: Grid, g4: Grid, g5: Grid, x: int, y: int, c: int)
    requires Label(g0, (x, y)) == Pending && c != Pending
    requires forall p :: Label(g1, p) == if p == (x, y) then c else Label(g0, p)
    requires Filled(g1, g2, (x + 1, y), c) && Filled(g2, g3, (x - 1, y), c)
    requires Filled(g3, g4, (x, y + 1), c) && Filled(g4, g5, (x, y - 1), c)
    ensures Filled(g0, g5, (x, y), c)
  {
    var s := (x, y);
    FillSeed(g0, g1, s, c);
    assert Neighbours(s) == [(s.0 + 1, s.1)] + [(s.0 - 1, s.1), (s.0, s.1 + 1), (s.0, s.1 - 1)];
    FillStep(g0, g1, g2, s, c, (s.0 + 1, s.1), [(s.0 - 1, s.1), (s.0, s.1 + 1), (s.0, s.1 - 1)]);
    FillStep(g0, g2, g3, s, c, (s.0 - 1, s.1), [(s.0, s.1 + 1), (s.0, s.1 - 1)]);
    FillStep(g0, g3, g4, s, c, (s.0, s.1 + 1), [(s.0, s.1 - 1)]);
    FillStep(g0, g4, g5, s, c, (s.0, s.1 - 1), []);
    FillDone(g0, g5, s, c);
  }
}
