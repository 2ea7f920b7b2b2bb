/**
 Per-blob statistics over a labelled grid: pixel count, and the sums of the
 row and column indices of a blob's cells, from which the centre of mass is
 the sum divided by the count.
 */
module BlobStats {
  import opened LabelGrid
  import opened Labelling

  /**
   One line of the statistics table. The centre of mass is kept as the
   integer sums it is divided from: row sum / pixels and column sum / pixels.
   */
  datatype BlobRow = BlobRow(blob: int, pixels: nat, rowSum: nat, colSum: nat)

  function BlobRowOf(g: Grid, k: int): BlobRow
  {
    BlobRow(k, Size(g, k), RowSum(g, k), ColSum(g, k))
  }

  /** The table lines for blobs 1..n, in order. */
  function Table(g: Grid, n: nat): seq<BlobRow>
  {
    seq(n, k => BlobRowOf(g, k + 1))
  }

  lemma TableSnoc(g: Grid, n: nat)
    ensures Table(g, n + 1) == Table(g, n) + [BlobRowOf(g, n + 1)]
  {
  }

  /** What the statistics loops add when they pass entry `j` of a row. */
  lemma RowPrefixStep(row: seq<int>, j: int, k: int)
    requires 0 <= j < |row|
    ensures RowCount(row[..j + 1], k) == RowCount(row[..j], k) + (if row[j] == k then 1 else 0)
    ensures RowColumnSum(row[..j + 1], k) == RowColumnSum(row[..j], k) + (if row[j] == k then j else 0)
  {
    assert row[..j + 1][..j] == row[..j];
  }

  /** What the statistics loops add when they finish row `i`. */
  lemma GridPrefixStep(g: Grid, i: int, k: int)
    requires 0 <= i < |g|
    ensures Size(g[..i + 1], k) == Size(g[..i], k) + RowCount(g[i], k)
    ensures RowSum(g[..i + 1], k) == RowSum(g[..i], k) + i * RowCount(g[i], k)
    ensures ColSum(g[..i + 1], k) == ColSum(g[..i], k) + RowColumnSum(g[i], k)
  {
    assert g[..i + 1][..i] == g[..i];
  }

  /** The pixels column of a table, added up. */
  function TotalPixels(t: seq<BlobRow>): nat
  {
    if t == [] then 0 else TotalPixels(t[..|t| - 1]) + t[|t| - 1].pixels
  }

  /** Number of entries of `row` equal to `k`. */
  function RowCount(row: seq<int>, k: int): nat
  {
    if row == [] then 0 else RowCount(row[..|row| - 1], k) + (if row[|row| - 1] == k then 1 else 0)
  }

  /** Sum of the column indices `j` with `row[j] == k`. */
  function RowColumnSum(row: seq<int>, k: int): nat
  {
    if row == [] then 0 else RowColumnSum(row[..|row| - 1], k) + (if row[|row| - 1] == k then |row| - 1 else 0)
  }

  /** Number of cells of `g` labelled `k`. */
  function Size(g: Grid, k: int): nat
  {
    if g == [] then 0 else Size(g[..|g| - 1], k) + RowCount(g[|g| - 1], k)
  }

  /** Sum of the row indices of the cells labelled `k`. */
  function RowSum(g: Grid, k: int): nat
  {
    if g == [] then 0 else RowSum(g[..|g| - 1], k) + (|g| - 1) * RowCount(g[|g| - 1], k)
  }

  /** Sum of the column indices of the cells labelled `k`. */
  function ColSum(g: Grid, k: int): nat
  {
    if g == [] then 0 else ColSum(g[..|g| - 1], k) + RowColumnSum(g[|g| - 1], k)
  }

  /** Number of entries of `row` that are not background. */
  function RowForeground(row: seq<int>): nat
  {
    if row == [] then 0 else RowForeground(row[..|row| - 1]) + (if row[|row| - 1] != Background then 1 else 0)
  }

  /** Number of cells of `g` that are not background. */
  function ForegroundCount(g: Grid): nat
  {
    if g == [] then 0 else ForegroundCount(g[..|g| - 1]) + RowForeground(g[|g| - 1])
  }

  /** Number of entries of `row` holding an ID in 1..n. */
  function RowInRange(row: seq<int>, n: int): nat
  {
    if row == [] then 0 else RowInRange(row[..|row| - 1], n) + (if 1 <= row[|row| - 1] <= n then 1 else 0)
  }

  /** RowCount(row, 1) + ... + RowCount(row, n). */
  function RowCountsUpTo(row: seq<int>, n: nat): nat
  {
    if n == 0 then 0 else RowCountsUpTo(row, n - 1) + RowCount(row, n)
  }

  /** Size(g, 1) + ... + Size(g, n): the pixel counts of blobs 1..n together. */
  function SizesUpTo(g: Grid, n: nat): nat
  {
    if n == 0 then 0 else SizesUpTo(g, n - 1) + Size(g, n)
  }

  /** The centre of mass along one axis: the mean index of a blob's cells. */
  function CenterOfMass(sum: int, size: int): real
    requires size > 0
  {
    sum as real / size as real
  }

  lemma {:induction false} RowCountPositive(row: seq<int>, k: int, j: int)
    requires 0 <= j < |row| && row[j] == k
    ensures RowCount(row, k) >= 1
  {
    if j < |row| - 1 {
      assert row[..|row| - 1][j] == k;
      RowCountPositive(row[..|row| - 1], k, j);
    }
  }

  /** A blob that owns a cell has at least one pixel. */
  lemma {:induction false} SizePositive(g: Grid, k: int, p: Cell)
    requires k != Background && Label(g, p) == k
    ensures Size(g, k) >= 1
  {
    if p.0 == |g| - 1 {
      RowCountPositive(g[|g| - 1], k, p.1);
    } else {
      assert Label(g[..|g| - 1], p) == k;
      SizePositive(g[..|g| - 1], k, p);
    }
  }

  lemma {:induction false} RowColumnSumBound(row: seq<int>, k: int)
    ensures RowColumnSum(row, k) <= (|row| - 1) * RowCount(row, k)
  {
    if row != [] {
      var init := row[..|row| - 1];
      RowColumnSumBound(init, k);
      MulMono(|init| - 1, |init|, RowCount(init, k));
      MulDistrib(|init|, RowCount(init, k), if row[|row| - 1] == k then 1 else 0);
    }
  }

  lemma MulDistrib(x: int, a: int, b: int)
    ensures x * (a + b) == x * a + x * b
  {
  }

  /** The column sum of a blob is at most (cols - 1) times its size. */
  lemma {:induction false} ColSumBound(g: Grid, k: int, cols: int)
    requires IsRect(g, |g|, cols)
    ensures ColSum(g, k) <= (cols - 1) * Size(g, k)
  {
    if g != [] {
      var init, last := g[..|g| - 1], g[|g| - 1];
      assert IsRect(init, |init|, cols);
      ColSumBound(init, k, cols);
      RowColumnSumBound(last, k);
      MulDistrib(cols - 1, Size(init, k), RowCount(last, k));
    }
  }

  /** The row sum of a blob is at most (rows - 1) times its size. */
  lemma {:induction false} RowSumBound(g: Grid, k: int)
    ensures RowSum(g, k) <= (|g| - 1) * Size(g, k)
  {
    if g != [] {
      var init, last := g[..|g| - 1], g[|g| - 1];
      RowSumBound(init, k);
      MulMono(|init| - 1, |init|, Size(init, k));
      MulDistrib(|init|, Size(init, k), RowCount(last, k));
    }
  }

  /** The centre of mass of a non-empty blob lies on the grid. */
  lemma CenterOfMassInRange(sum: int, size: int, n: int)
    requires size > 0 && 0 <= sum <= (n - 1) * size
    ensures 0.0 <= CenterOfMass(sum, size) <= (n - 1) as real
  {
    assert sum as real <= (n - 1) as real * size as real;
  }

  lemma {:induction false} RowInRangeStep(row: seq<int>, n: nat)
    requires n >= 1
    ensures RowInRange(row, n) == RowInRange(row, n - 1) + RowCount(row, n)
  {
    if row != [] {
      RowInRangeStep(row[..|row| - 1], n);
    }
  }

  lemma {:induction false} RowCountsUpToInRange(row: seq<int>, n: nat)
    ensures RowCountsUpTo(row, n) == RowInRange(row, n)
  {
    if n == 0 {
      RowInRangeNone(row);
    } else {
      RowCountsUpToInRange(row, n - 1);
      RowInRangeStep(row, n);
    }
  }

  lemma {:induction false} RowInRangeNone(row: seq<int>)
    ensures RowInRange(row, 0) == 0
  {
    if row != [] {
      RowInRangeNone(row[..|row| - 1]);
    }
  }

  lemma {:induction false} RowInRangeAll(row: seq<int>, n: int)
    requires forall j :: 0 <= j < |row| ==> row[j] == Background || 1 <= row[j] <= n
    ensures RowInRange(row, n) == RowForeground(row)
  {
    if row != [] {
      var init := row[..|row| - 1];
      assert forall j :: 0 <= j < |init| ==> init[j] == row[j];
      RowInRangeAll(init, n);
    }
  }

  lemma {:induction false} SizesUpToSplit(g: Grid, n: nat)
    requires g != []
    ensures SizesUpTo(g, n) == SizesUpTo(g[..|g| - 1], n) + RowCountsUpTo(g[|g| - 1], n)
  {
    if n > 0 {
      SizesUpToSplit(g, n - 1);
    }
  }

  lemma {:induction false} SizesUpToEmpty(g: Grid, n: nat)
    requires g == []
    ensures SizesUpTo(g, n) == 0
  {
    if n > 0 {
      SizesUpToEmpty(g, n - 1);
    }
  }

  /**
   When every cell is background or carries an ID in 1..n, the pixel counts
   of blobs 1..n add up to the number of foreground cells.
   */
  lemma {:induction false} Conservation(g: Grid, n: nat)
    requires forall p :: Label(g, p) == Background || 1 <= Label(g, p) <= n
    ensures SizesUpTo(g, n) == ForegroundCount(g)
  {
    if g != [] {
      var init := g[..|g| - 1];
      var last := g[|g| - 1];
      forall p ensures Label(init, p) == Background || 1 <= Label(init, p) <= n {
        assert Label(init, p) == Background || Label(init, p) == Label(g, p);
      }
      Conservation(init, n);
      SizesUpToSplit(g, n);
      forall j | 0 <= j < |last| ensures last[j] == Background || 1 <= last[j] <= n {
        assert last[j] == Label(g, (|g| - 1, j));
      }
      RowCountsUpToInRange(last, n);
      RowInRangeAll(last, n);
    } else {
      SizesUpToEmpty(g, n);
    }
  }

  lemma {:induction false} RowForegroundSame(r1: seq<int>, r2: seq<int>)
    requires |r1| == |r2|
    requires forall j :: 0 <= j < |r1| ==> (r1[j] == Background <==> r2[j] == Background)
    ensures RowForeground(r1) == RowForeground(r2)
  {
    if r1 != [] {
      var i1, i2 := r1[..|r1| - 1], r2[..|r2| - 1];
      assert forall j :: 0 <= j < |i1| ==> i1[j] == r1[j] && i2[j] == r2[j];
      RowForegroundSame(i1, i2);
    }
  }

  /** Two grids of one shape with the same background cells have the same number of foreground cells. */
  lemma {:induction false} ForegroundSame(g1: Grid, g2: Grid, rows: int, cols: int)
    requires IsRect(g1, rows, cols) && IsRect(g2, rows, cols)
    requires forall p :: (Label(g1, p) == Background) == (Label(g2, p) == Background)
    ensures ForegroundCount(g1) == ForegroundCount(g2)
  {
    if g1 != [] {
      var last := |g1| - 1;
      var i1, i2 := g1[..last], g2[..last];
      forall p ensures (Label(i1, p) == Background) == (Label(i2, p) == Background) {
        if 0 <= p.0 < last {
          assert Label(i1, p) == Label(g1, p) && Label(i2, p) == Label(g2, p);
        }
      }
      ForegroundSame(i1, i2, rows - 1, cols);
      forall j | 0 <= j < |g1[last]| ensures (g1[last][j] == Background <==> g2[last][j] == Background) {
        assert Label(g1, (last, j)) == g1[last][j] && Label(g2, (last, j)) == g2[last][j];
      }
      RowForegroundSame(g1[last], g2[last]);
    }
  }

  lemma {:induction false} TotalPixelsTable(g: Grid, n: nat)
    ensures TotalPixels(Table(g, n)) == SizesUpTo(g, n)
  {
    if n > 0 {
      assert Table(g, n)[..n - 1] == Table(g, n - 1);
      TotalPixelsTable(g, n - 1);
    }
  }

  /** The table line of a blob that owns cell `p`. */
  lemma BlobRowFacts(g: Grid, rows: int, cols: int, k: int, p: Cell)
    requires IsRect(g, rows, cols) && k != Background && Label(g, p) == k
    ensures var row := BlobRowOf(g, k);
      row.pixels >= 1 &&
      row.rowSum <= (rows - 1) * row.pixels && row.colSum <= (cols - 1) * row.pixels &&
      0.0 <= CenterOfMass(row.rowSum, row.pixels) <= (rows - 1) as real &&
      0.0 <= CenterOfMass(row.colSum, row.pixels) <= (cols - 1) as real
  {
    SizePositive(g, k, p);
    RowSumBound(g, k);
    ColSumBound(g, k, cols);
    CenterOfMassInRange(RowSum(g, k), Size(g, k), rows);
    CenterOfMassInRange(ColSum(g, k), Size(g, k), cols);
  }

  /**
   The table of a finished labelling in which every ID 1..cc labels some
   cell, `seeds[k]` being one with ID k+1, whatever the order of the IDs: every blob has at least one pixel, its
   centre of mass lies on the grid, and the pixel counts add up to the number
   of foreground cells of the loaded image.
   */
  lemma TableFacts(gi: Grid, g: Grid, rows: int, cols: int, cc: nat, seeds: seq<Cell>)
    requires IsRect(gi, rows, cols) && IsRect(g, rows, cols)
    requires IsLabelling(gi, g, cc)
    requires |seeds| == cc && forall k :: 0 <= k < cc ==> Label(g, seeds[k]) == k + 1
    ensures |Table(g, cc)| == cc
    ensures forall k :: 0 <= k < cc ==>
      var row := Table(g, cc)[k];
      row.blob == k + 1 && row.pixels >= 1 &&
      row.rowSum <= (rows - 1) * row.pixels && row.colSum <= (cols - 1) * row.pixels &&
      0.0 <= CenterOfMass(row.rowSum, row.pixels) <= (rows - 1) as real &&
      0.0 <= CenterOfMass(row.colSum, row.pixels) <= (cols - 1) as real
    ensures TotalPixels(Table(g, cc)) == ForegroundCount(gi)
  {
    forall k | 0 <= k < cc
      ensures var row := Table(g, cc)[k];
        row.blob == k + 1 && row.pixels >= 1 &&
        row.rowSum <= (rows - 1) * row.pixels && row.colSum <= (cols - 1) * row.pixels &&
        0.0 <= CenterOfMass(row.rowSum, row.pixels) <= (rows - 1) as real &&
        0.0 <= CenterOfMass(row.colSum, row.pixels) <= (cols - 1) as real
    {
      assert Label(g, seeds[k]) == k + 1;
      BlobRowFacts(g, rows, cols, k + 1, seeds[k]);
    }
    TotalPixelsTable(g, cc);
    Conservation(g, cc);
    ForegroundSame(g, gi, rows, cols);
  }
}
