/**
 How the analyzer reads an image file: the rest of the header line is
 skipped with `ignore(numCols, '\n')`, then every row is `numCols` pixel
 characters followed by one terminator character that is read and dropped.
 An `'x'` is a foreground pixel (pending, 0); any other character is
 background (-1).
 */
module Loader {
  import opened LabelGrid

  /**
   What `ignore(n, '\n')` leaves of the stream `s`: it drops characters
   until it has dropped `n` of them, has dropped a newline, or the stream
   ends. A count of zero or less drops nothing.
   */
  function SkipLine(s: seq<char>, n: int): (r: seq<char>)
    ensures |r| <= |s| && forall k :: 0 <= k < |r| ==> r[k] == s[|s| - |r| + k]
    ensures n <= 0 ==> |r| == |s|
    ensures n > 0 ==> |s| - |r| <= n
    ensures forall k :: 0 <= k < |s| - |r| - 1 ==> s[k] != '\n'
    ensures n > 0 && |s| > 0 ==> 0 < |s| - |r| && (|s| - |r| == n || |r| == 0 || s[|s| - |r| - 1] == '\n')
    decreases |s|
  {
    if n <= 0 || |s| == 0 then s
    else if s[0] == '\n' then s[1..]
    else SkipLine(s[1..], n - 1)
  }

  /** The label a pixel character loads as. */
  function Classify(ch: char): (r: int)
    ensures r == Pending <==> ch == 'x'
    ensures r == Pending || r == Background
  {
    if ch == 'x' then Pending else Background
  }

  /** Position in the body of the character for cell (i, j): each row is `cols` pixels and one terminator. */
  function BodyIndex(cols: int, i: int, j: int): int
  {
    i * (cols + 1) + j
  }

  /** The body holds every pixel character of a `rows` by `cols` image. */
  predicate BodyFits(body: seq<char>, rows: int, cols: int)
  {
    rows >= 0 && cols >= 0 && (rows == 0 || cols == 0 || rows * (cols + 1) <= |body| + 1)
  }

  lemma IndexInBody(body: seq<char>, rows: int, cols: int, i: int, j: int)
    requires BodyFits(body, rows, cols) && 0 <= i < rows && 0 <= j < cols
    ensures 0 <= BodyIndex(cols, i, j) < |body|
  {
    assert i * (cols + 1) <= (rows - 1) * (cols + 1) by {
      MulMono(i, rows - 1, cols + 1);
    }
  }

  /** The label of cell (i, j) as loaded from `body`. */
  function PixelAt(body: seq<char>, cols: int, i: int, j: int): int
  {
    var k := BodyIndex(cols, i, j);
    if 0 <= k < |body| then Classify(body[k]) else Background
  }

  /** The grid the loader builds from `body`. */
  function LoadedGrid(body: seq<char>, rows: int, cols: int): Grid
    requires rows >= 0 && cols >= 0
  {
    seq(rows, i => seq(cols, j => PixelAt(body, cols, i, j)))
  }

  /**
   After loading, cell (i, j) is pending exactly when its character is an
   `'x'` and background otherwise; no other label occurs.
   */
  lemma LoadedGridClassifies(body: seq<char>, rows: int, cols: int, i: int, j: int)
    requires BodyFits(body, rows, cols) && 0 <= i < rows && 0 <= j < cols
    ensures IsRect(LoadedGrid(body, rows, cols), rows, cols)
    ensures 0 <= BodyIndex(cols, i, j) < |body|
    ensures var k := BodyIndex(cols, i, j);
      0 <= k < |body| && (Label(LoadedGrid(body, rows, cols), (i, j)) == Pending <==> body[k] == 'x')
    ensures var k := BodyIndex(cols, i, j);
      0 <= k < |body| && (Label(LoadedGrid(body, rows, cols), (i, j)) == Background <==> body[k] != 'x')
  {
    IndexInBody(body, rows, cols, i, j);
    var g := LoadedGrid(body, rows, cols);
    assert g[i][j] == PixelAt(body, cols, i, j);
  }

  /** Every cell of a loaded grid is pending or background. */
  lemma LoadedGridIsLoaded(body: seq<char>, rows: int, cols: int)
    requires rows >= 0 && cols >= 0
    ensures IsRect(LoadedGrid(body, rows, cols), rows, cols)
    ensures forall p :: Label(LoadedGrid(body, rows, cols), p) == Pending || Label(LoadedGrid(body, rows, cols), p) == Background
  {
  }
}
