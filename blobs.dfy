/**
 The blob analyzer itself: an object that holds the label array of one
 image, loads it from the file body, labels its 4-connected blobs with a
 row-major scan and a recursive flood fill, and reports the image and the
 per-blob statistics.
 */
module Blobs {
  import opened LabelGrid
  import opened FloodFill
  import opened Labelling
  import opened BlobStats
  import opened Loader
  import opened Render

  /** The first `n` cells of row `i` of `a`. */
  ghost function RowOf(a: array2<int>, i: int, n: int): (r: seq<int>)
    reads a
    requires 0 <= i < a.Length0 && 0 <= n <= a.Length1
    ensures |r| == n && forall j :: 0 <= j < n ==> r[j] == a[i, j]
  {
    if n == 0 then [] else RowOf(a, i, n - 1) + [a[i, n - 1]]
  }

  /** The first `m` rows of `a`. */
  ghost function GridOf(a: array2<int>, m: int): (g: Grid)
    reads a
    requires 0 <= m <= a.Length0
    ensures IsRect(g, m, a.Length1)
    ensures forall i, j :: 0 <= i < m && 0 <= j < a.Length1 ==> g[i][j] == a[i, j]
  {
    if m == 0 then [] else GridOf(a, m - 1) + [RowOf(a, m - 1, a.Length1)]
  }

  class BlobAnalyzer {
    const inputFileName: string
    var numRows: int
    var numCols: int
    /** The `connected` label of every pixel: -1 background, 0 pending, k > 0 blob k. */
    var pixels: array2<int>
    var connectedComponents: int

    /** The label array has the shape the header announced, and the blob counter is not negative. */
    ghost predicate Valid()
      reads this
    {
      pixels.Length0 == numRows && pixels.Length1 == numCols && connectedComponents >= 0
    }

    /** The current labels as a grid value. */
    ghost function Labels(): (g: Grid)
      reads this`pixels, pixels
      ensures IsRect(g, pixels.Length0, pixels.Length1)
      ensures forall i, j :: 0 <= i < pixels.Length0 && 0 <= j < pixels.Length1 ==> g[i][j] == pixels[i, j]
    {
      GridOf(pixels, pixels.Length0)
    }

    /** A new analyzer for file `fileName`, with no pixels yet. */
    constructor (fileName: string)
      ensures inputFileName == fileName
      ensures Valid() && fresh(pixels) && pixels.Length0 == 0 && pixels.Length1 == 0
    {
      inputFileName := fileName;
      numRows := 0;
      numCols := 0;
      pixels := new int[0, 0];
      connectedComponents := 0;
    }

    /**
     The recursive flood fill: claims for the current blob ID every cell
     reachable from (x, y) through pending cells, and touches nothing else.
     */
    method FindBlobs(x: int, y: int)
      requires Valid() && connectedComponents >= 1
      modifies pixels
      ensures Filled(old(Labels()), Labels(), (x, y), connectedComponents)
      decreases PendingCells(Labels())
    {
      if x < 0 || y < 0 || x >= numRows || y >= numCols || pixels[x, y] != Pending {
        FilledNothing(Labels(), Labels(), (x, y), connectedComponents);
        return;
      }
      ghost var c := connectedComponents;
      ghost var g0 := Labels();
      pixels[x, y] := connectedComponents;
      ghost var g1 := Labels();
      forall p ensures Label(g1, p) == if p == (x, y) then c else Label(g0, p) {
      }
      PendingCellsShrink(g0, g1, (x, y));
      FindBlobs(x + 1, y);
      assert connectedComponents == c;
      ghost var g2 := Labels();
      FillStepPending(g0, g1, g2, (x + 1, y), c);
      FindBlobs(x - 1, y);
      assert connectedComponents == c;
      ghost var g3 := Labels();
      FillStepPending(g0, g2, g3, (x - 1, y), c);
      FindBlobs(x, y + 1);
      assert connectedComponents == c;
      ghost var g4 := Labels();
      FillStepPending(g0, g3, g4, (x, y + 1), c);
      FindBlobs(x, y - 1);
      assert connectedComponents == c;
      FillFour(g0, g1, g2, g3, g4, Labels(), x, y, c);
    }

    /**
     The pixel loop of processFile: reads `numCols` characters per row into
     a new label array, pending for an `'x'` and background otherwise, and
     drops the terminator character after every row.
     */
    method LoadPixels(body: seq<char>)
      requires BodyFits(body, numRows, numCols)
      modifies this`pixels
      ensures fresh(pixels) && pixels.Length0 == numRows && pixels.Length1 == numCols
      ensures Labels() == LoadedGrid(body, numRows, numCols)
    {
      var rows, cols := numRows, numCols;
      var a := new int[rows, cols];
      var i := 0;
      var pos := 0;
      while i < rows
        invariant 0 <= i <= rows && pos == i * (cols + 1)
        invariant forall r, k :: 0 <= r < i && 0 <= k < cols ==> a[r, k] == PixelAt(body, cols, r, k)
      {
        var j := 0;
        while j < cols
          invariant 0 <= j <= cols && pos == i * (cols + 1) + j
          invariant forall r, k :: 0 <= r < i && 0 <= k < cols ==> a[r, k] == PixelAt(body, cols, r, k)
          invariant forall k :: 0 <= k < j ==> a[i, k] == PixelAt(body, cols, i, k)
        {
          IndexInBody(body, rows, cols, i, j);
          if body[pos] == 'x' {
            a[i, j] := Pending;
          } else {
            a[i, j] := Background;
          }
          j := j + 1;
          pos := pos + 1;
        }
        // the row terminator
        assert (i + 1) * (cols + 1) == i * (cols + 1) + cols + 1;
        pos := pos + 1;
        i := i + 1;
      }
      pixels := a;
      SameCells(Labels(), LoadedGrid(body, numRows, numCols), numRows, numCols);
    }

    /**
     The labelling scan of processFile: visits the cells in row-major order
     and starts a new blob, with the next ID, at every cell still pending.
     The ghost `seeds` are those cells, in order.
     */
    method LabelBlobs() returns (ghost seeds: seq<Cell>)
      requires Valid() && connectedComponents == 0 && IsLoaded(Labels())
      modifies this`connectedComponents, pixels
      ensures Valid()
      ensures IsLabelling(old(Labels()), Labels(), connectedComponents)
      ensures FirstCells(Labels(), connectedComponents, seeds)
    {
      ghost var gi := Labels();
      ScanStart(gi, numRows, numCols);
      seeds := [];
      var i := 0;
      while i < numRows
        invariant 0 <= i <= numRows && Valid()
        invariant ScanInv(gi, Labels(), numRows, numCols, connectedComponents, seeds, i, 0)
      {
        seeds := ScanRow(gi, seeds, i);
        ScanNextRow(gi, Labels(), numRows, numCols, connectedComponents, seeds, i);
        i := i + 1;
      }
      ScanDone(gi, Labels(), numRows, numCols, connectedComponents, seeds);
    }

    /**
     One pass of the inner loop of the labelling scan over row `i`: every pending
     cell met starts a new blob, flooded from that cell.
     */
    method ScanRow(ghost gi: Grid, ghost seeds: seq<Cell>, i: int) returns (ghost seeds': seq<Cell>)
      requires Valid() && 0 <= i < numRows
      requires ScanInv(gi, Labels(), numRows, numCols, connectedComponents, seeds, i, 0)
      modifies this`connectedComponents, pixels
      ensures Valid()
      ensures ScanInv(gi, Labels(), numRows, numCols, connectedComponents, seeds', i, numCols)
    {
      seeds' := seeds;
      var j := 0;
      while j < numCols
        invariant 0 <= j <= numCols && Valid()
        invariant ScanInv(gi, Labels(), numRows, numCols, connectedComponents, seeds', i, j)
      {
        if pixels[i, j] == Pending {
          seeds' := StartBlob(gi, seeds', i, j);
        } else {
          ScanSkip(gi, Labels(), numRows, numCols, connectedComponents, seeds', i, j);
        }
        j := j + 1;
      }
    }

    /** A pending cell met by the scan: count one more blob and flood it from that cell. */
    method StartBlob(ghost gi: Grid, ghost seeds: seq<Cell>, i: int, j: int) returns (ghost seeds': seq<Cell>)
      requires Valid() && 0 <= i < numRows && 0 <= j < numCols && pixels[i, j] == Pending
      requires ScanInv(gi, Labels(), numRows, numCols, connectedComponents, seeds, i, j)
      modifies this`connectedComponents, pixels
      ensures Valid()
      ensures ScanInv(gi, Labels(), numRows, numCols, connectedComponents, seeds', i, j + 1)
      ensures connectedComponents == old(connectedComponents) + 1 && seeds' == seeds + [(i, j)]
      ensures Filled(old(Labels()), Labels(), (i, j), connectedComponents)
    {
      ghost var g, rows, cols, cc := Labels(), numRows, numCols, connectedComponents;
      connectedComponents := connectedComponents + 1;
      assert Labels() == g;
      FindBlobs(i, j);
      assert numRows == rows && numCols == cols && connectedComponents == cc + 1;
      ScanFill(gi, g, Labels(), rows, cols, cc, seeds, i, j);
      seeds' := seeds + [(i, j)];
    }

    /**
     processFile once the header numbers `rows` and `cols` have been read:
     skips the rest of the header line, loads the pixels and labels the blobs.
     */
    method ProcessFile(rows: int, cols: int, rest: seq<char>) returns (ghost seeds: seq<Cell>)
      requires BodyFits(SkipLine(rest, cols), rows, cols)
      modifies this
      ensures numRows == rows && numCols == cols && Valid() && fresh(pixels)
      ensures IsLabelling(LoadedGrid(SkipLine(rest, cols), rows, cols), Labels(), connectedComponents)
      ensures FirstCells(Labels(), connectedComponents, seeds)
    {
      numRows := rows;
      numCols := cols;
      var body := SkipLine(rest, cols);
      connectedComponents := 0;
      LoadPixels(body);
      LoadedGridIsLoaded(body, rows, cols);
      seeds := LabelBlobs();
    }

    /** calculateBlobSize: the number of cells carrying `component`. */
    method CalculateBlobSize(component: int) returns (size: int)
      requires Valid()
      ensures size == Size(Labels(), component)
    {
      ghost var g := Labels();
      size := 0;
      var i := 0;
      while i < numRows
        invariant 0 <= i <= numRows
        invariant size == Size(g[..i], component)
      {
        var j := 0;
        while j < numCols
          invariant 0 <= j <= numCols
          invariant size == Size(g[..i], component) + RowCount(g[i][..j], component)
        {
          RowPrefixStep(g[i], j, component);
          if pixels[i, j] == component {
            size := size + 1;
          }
          j := j + 1;
        }
        assert g[i][..numCols] == g[i];
        GridPrefixStep(g, i, component);
        i := i + 1;
      }
      assert g[..numRows] == g;
    }

    /** calculateCenterOfMassRow before its division: the row-index sum and the size of `component`. */
    method CalculateCenterOfMassRow(component: int) returns (sumX: int, size: int)
      requires Valid()
      ensures sumX == RowSum(Labels(), component) && size == Size(Labels(), component)
    {
      ghost var g := Labels();
      sumX, size := 0, 0;
      var i := 0;
      while i < numRows
        invariant 0 <= i <= numRows
        invariant sumX == RowSum(g[..i], component) && size == Size(g[..i], component)
      {
        var j := 0;
        while j < numCols
          invariant 0 <= j <= numCols
          invariant sumX == RowSum(g[..i], component) + i * RowCount(g[i][..j], component)
          invariant size == Size(g[..i], component) + RowCount(g[i][..j], component)
        {
          RowPrefixStep(g[i], j, component);
          MulDistrib(i, RowCount(g[i][..j], component), if g[i][j] == component then 1 else 0);
          if pixels[i, j] == component {
            sumX := sumX + i;
            size := size + 1;
          }
          j := j + 1;
        }
        assert g[i][..numCols] == g[i];
        GridPrefixStep(g, i, component);
        i := i + 1;
      }
      assert g[..numRows] == g;
    }

    /** calculateCenterOfMassCol before its division: the column-index sum and the size of `component`. */
    method CalculateCenterOfMassCol(component: int) returns (sumY: int, size: int)
      requires Valid()
      ensures sumY == ColSum(Labels(), component) && size == Size(Labels(), component)
    {
      ghost var g := Labels();
      sumY, size := 0, 0;
      var i := 0;
      while i < numRows
        invariant 0 <= i <= numRows
        invariant sumY == ColSum(g[..i], component) && size == Size(g[..i], component)
      {
        var j := 0;
        while j < numCols
          invariant 0 <= j <= numCols
          invariant sumY == ColSum(g[..i], component) + RowColumnSum(g[i][..j], component)
          invariant size == Size(g[..i], component) + RowCount(g[i][..j], component)
        {
          RowPrefixStep(g[i], j, component);
          if pixels[i, j] == component {
            sumY := sumY + j;
            size := size + 1;
          }
          j := j + 1;
        }
        assert g[i][..numCols] == g[i];
        GridPrefixStep(g, i, component);
        i := i + 1;
      }
      assert g[..numRows] == g;
    }

    /** One framed row line of printImage. */
    method BuildRow(i: int) returns (line: string)
      requires Valid() && 0 <= i < numRows
      ensures line == RowLine(Labels()[i], i)
    {
      ghost var row := Labels()[i];
      var cells := "";
      var j := 0;
      while j < numCols
        invariant 0 <= j <= numCols
        invariant cells == Cells(row[..j])
      {
        CellsSnoc(row, j);
        cells := cells + [if pixels[i, j] == Background then ' ' else 'x'];
        j := j + 1;
      }
      assert row[..numCols] == row;
      line := [Digit(i)] + "|" + cells + "|" + [Digit(i)];
    }

    /** printImage, with the printed lines returned in order. */
    method PrintImage() returns (lines: seq<string>)
      requires Valid()
      ensures lines == Image(inputFileName, Labels(), numCols)
    {
      ghost var g := Labels();
      var header := BuildHeader(numCols);
      var rule := BuildRule(numCols);
      var rows: seq<string> := [];
      var i := 0;
      while i < numRows
        invariant 0 <= i <= numRows
        invariant rows == RowLines(g[..i])
      {
        var line := BuildRow(i);
        assert Labels() == g;
        RowLinesSnoc(g, i);
        rows := rows + [line];
        i := i + 1;
      }
      assert g[..numRows] == g;
      lines := [" " + inputFileName, header, rule] + rows + [rule, header, ""];
    }

    /** printBlobProperties, with the table lines returned as integers. */
    method PrintBlobProperties() returns (table: seq<BlobRow>)
      requires Valid()
      ensures table == Table(Labels(), connectedComponents)
    {
      table := [];
      var k := 1;
      while k <= connectedComponents
        invariant 1 <= k <= connectedComponents + 1
        invariant table == Table(Labels(), k - 1)
      {
        var size := CalculateBlobSize(k);
        var sumX, sizeX := CalculateCenterOfMassRow(k);
        var sumY, sizeY := CalculateCenterOfMassCol(k);
        TableSnoc(Labels(), k - 1);
        table := table + [BlobRow(k, size, sumX, sumY)];
        k := k + 1;
      }
    }

    /** printResults: the image, then the statistics table. */
    method PrintResults() returns (image: seq<string>, table: seq<BlobRow>)
      requires Valid()
      ensures image == Image(inputFileName, Labels(), numCols)
      ensures table == Table(Labels(), connectedComponents)
    {
      image := PrintImage();
      table := PrintBlobProperties();
    }
  }

  /**
   Each cell of the printed image shows an `'x'` exactly where the body had
   one, whatever IDs the blobs received.
   */
  lemma ImageEchoesBody(name: string, body: seq<char>, g: Grid, rows: int, cols: int)
    requires BodyFits(body, rows, cols) && IsRect(g, rows, cols)
    requires forall p :: (Label(g, p) == Background) == (Label(LoadedGrid(body, rows, cols), p) == Background)
    ensures |Image(name, g, cols)| == rows + 6
    ensures forall k :: 3 <= k < rows + 3 ==> |Image(name, g, cols)[k]| == cols + 4
    ensures forall i, j :: 0 <= i < rows && 0 <= j < cols ==>
      0 <= BodyIndex(cols, i, j) < |body| &&
      (Image(name, g, cols)[i + 3][j + 2] == 'x' <==> body[BodyIndex(cols, i, j)] == 'x')
  {
    ImageLayout(name, g, cols);
    forall i, j | 0 <= i < rows && 0 <= j < cols
      ensures 0 <= BodyIndex(cols, i, j) < |body| &&
        (Image(name, g, cols)[i + 3][j + 2] == 'x' <==> body[BodyIndex(cols, i, j)] == 'x')
    {
      CellEchoesBody(name, body, g, rows, cols, i, j);
    }
  }

  lemma CellEchoesBody(name: string, body: seq<char>, g: Grid, rows: int, cols: int, i: int, j: int)
    requires BodyFits(body, rows, cols) && IsRect(g, rows, cols) && 0 <= i < rows && 0 <= j < cols
    requires (Label(g, (i, j)) == Background) == (Label(LoadedGrid(body, rows, cols), (i, j)) == Background)
    ensures |Image(name, g, cols)| == rows + 6 && |Image(name, g, cols)[i + 3]| == cols + 4
    ensures 0 <= BodyIndex(cols, i, j) < |body|
    ensures Image(name, g, cols)[i + 3][j + 2] == 'x' <==> body[BodyIndex(cols, i, j)] == 'x'
  {
    ImageLayout(name, g, cols);
    LoadedGridClassifies(body, rows, cols, i, j);
    var line := RowLine(g[i], i);
    assert line[j + 2] == 'x' <==> g[i][j] != Background;
  }

  /**
   The analyzer run on one file, without the prompt for its name: the
   header numbers `rows` and `cols` and the characters `rest` after them
   go in; the image lines and the statistics table come out. The ghost
   results are the final labels and the first cell of every blob.
   */
  method Analyze(fileName: string, rows: int, cols: int, rest: seq<char>)
    returns (image: seq<string>, table: seq<BlobRow>, ghost labels: Grid, ghost seeds: seq<Cell>)
    requires BodyFits(SkipLine(rest, cols), rows, cols)
    ensures IsRect(labels, rows, cols)
    ensures IsLabelling(LoadedGrid(SkipLine(rest, cols), rows, cols), labels, |table|)
    ensures FirstCells(labels, |table|, seeds)
    ensures image == Image(fileName, labels, cols) && table == Table(labels, |table|)
    ensures ImageShowsBody(image, fileName, SkipLine(rest, cols), rows, cols)
    ensures TableSummarisesBody(table, SkipLine(rest, cols), rows, cols)
  {
    var analyzer := new BlobAnalyzer(fileName);
    seeds := analyzer.ProcessFile(rows, cols, rest);
    labels := analyzer.Labels();
    ghost var count := analyzer.connectedComponents;
    image, table := analyzer.PrintResults();
    assert analyzer.Labels() == labels && analyzer.connectedComponents == count;
    assert |table| == count;
    OutputFacts(fileName, SkipLine(rest, cols), rows, cols, labels, seeds, image, table);
  }

  /**
   The printed image of file `name` has its name line, one line of
   `cols + 4` characters per row, and an `'x'` at the place of cell (i, j)
   exactly when body character `i*(cols+1)+j` is `'x'`.
   */
  predicate ImageShowsBody(image: seq<string>, name: string, body: seq<char>, rows: int, cols: int)
    requires rows >= 0 && cols >= 0
  {
    |image| == rows + 6 && image[0] == " " + name &&
    forall i, j :: 0 <= i < rows && 0 <= j < cols ==>
      |image[i + 3]| == cols + 4 && 0 <= BodyIndex(cols, i, j) < |body| &&
      (image[i + 3][j + 2] == 'x' <==> body[BodyIndex(cols, i, j)] == 'x')
  }

  /**
   The table has one line per blob, in ID order; every blob has a pixel and
   index sums that put its centre of mass on the grid; and the pixel counts
   add up to the number of foreground pixels of the body.
   */
  predicate TableSummarisesBody(table: seq<BlobRow>, body: seq<char>, rows: int, cols: int)
    requires rows >= 0 && cols >= 0
  {
    (forall k :: 0 <= k < |table| ==>
      table[k].blob == k + 1 && table[k].pixels >= 1 &&
      table[k].rowSum <= (rows - 1) * table[k].pixels && table[k].colSum <= (cols - 1) * table[k].pixels) &&
    TotalPixels(table) == ForegroundCount(LoadedGrid(body, rows, cols))
  }

  /**
   What the printed output says about the file, for any labelling of the
   body in which every ID 1..n labels some cell (`seeds[k]` carries ID k+1),
   in whichever order the IDs were handed out: the image shows an `'x'` exactly where the body has one, and
   the table has a line for each blob, in ID order, with at least one pixel
   and a centre of mass on the grid, and pixel counts that add up to the
   number of foreground pixels.
   */
  lemma OutputFacts(name: string, body: seq<char>, rows: int, cols: int, labels: Grid, seeds: seq<Cell>,
                    image: seq<string>, table: seq<BlobRow>)
    requires BodyFits(body, rows, cols) && IsRect(labels, rows, cols)
    requires IsLabelling(LoadedGrid(body, rows, cols), labels, |table|)
    requires |seeds| == |table| && forall k :: 0 <= k < |table| ==> Label(labels, seeds[k]) == k + 1
    requires image == Image(name, labels, cols) && table == Table(labels, |table|)
    ensures ImageShowsBody(image, name, body, rows, cols)
    ensures TableSummarisesBody(table, body, rows, cols)
  {
    LoadedGridIsLoaded(body, rows, cols);
    ImageLayout(name, labels, cols);
    ImageEchoesBody(name, body, labels, rows, cols);
    TableFacts(LoadedGrid(body, rows, cols), labels, rows, cols, |table|, seeds);
  }
}
