/**
 The text image the analyzer prints: the file name, a header of column
 digits, a rule, one framed line per row with an `'x'` for every foreground
 cell, the rule and the digit header again, and an empty line.
 */
module Render {
  import opened LabelGrid

  /** The digit printed for `n % 10`. */
  function Digit(n: int): (c: char)
    ensures '0' <= c <= '9'
    ensures c as int - '0' as int == n % 10
  {
    ('0' as int + n % 10) as char
  }

  /** The column digits `0 % 10, 1 % 10, ..., (cols - 1) % 10`. */
  function DigitRow(cols: nat): string
  {
    seq(cols, j => Digit(j))
  }

  function Dashes(cols: nat): string
  {
    seq(cols, j => '-')
  }

  /** The picture of one row of labels: a blank for background, an `'x'` for anything else. */
  function Cells(row: seq<int>): string
  {
    seq(|row|, j requires 0 <= j < |row| => if row[j] == Background then ' ' else 'x')
  }

  /** The column-digit header, printed above and below the image. */
  function HeaderLine(cols: nat): (h: string)
    ensures |h| == cols + 2 && h[0] == ' ' && h[1] == ' '
    ensures forall j :: 0 <= j < cols ==> h[j + 2] == Digit(j)
  {
    "  " + DigitRow(cols)
  }

  /** The frame rule, printed above and below the rows. */
  function RuleLine(cols: nat): (r: string)
    ensures |r| == cols + 3 && r[0] == ' ' && r[1] == '+' && r[cols + 2] == '+'
    ensures forall k :: 2 <= k < cols + 2 ==> r[k] == '-'
  {
    " +" + Dashes(cols) + "+"
  }

  /**
   Row `i` of the image: its digit, a bar, one character per cell (an `'x'`
   exactly for the foreground cells), a bar and the digit again.
   */
  function RowLine(row: seq<int>, i: int): (line: string)
    ensures |line| == |row| + 4
    ensures line[0] == Digit(i) && line[1] == '|' && line[|row| + 2] == '|' && line[|row| + 3] == Digit(i)
    ensures forall j :: 0 <= j < |row| ==>
      (line[j + 2] == 'x' <==> row[j] != Background) && (line[j + 2] == ' ' <==> row[j] == Background)
  {
    [Digit(i)] + "|" + Cells(row) + "|" + [Digit(i)]
  }

  function RowLines(g: Grid): seq<string>
  {
    seq(|g|, i requires 0 <= i < |g| => RowLine(g[i], i))
  }

  lemma CellsSnoc(row: seq<int>, j: int)
    requires 0 <= j < |row|
    ensures Cells(row[..j + 1]) == Cells(row[..j]) + [if row[j] == Background then ' ' else 'x']
  {
    assert row[..j + 1][..j] == row[..j];
  }

  lemma RowLinesSnoc(g: Grid, i: int)
    requires 0 <= i < |g|
    ensures RowLines(g[..i + 1]) == RowLines(g[..i]) + [RowLine(g[i], i)]
  {
    assert g[..i + 1][..i] == g[..i];
  }

  /** All lines of the printed image of grid `g` read from file `name`. */
  function Image(name: string, g: Grid, cols: nat): seq<string>
  {
    [" " + name, HeaderLine(cols), RuleLine(cols)] + RowLines(g) + [RuleLine(cols), HeaderLine(cols), ""]
  }

  /**
   The order of the image lines: the name, the digit header, the rule, one
   line per row, the rule, the digit header and an empty line.
   */
  lemma ImageLayout(name: string, g: Grid, cols: nat)
    ensures var img := Image(name, g, cols);
      |img| == |g| + 6 && img[0] == " " + name &&
      img[1] == HeaderLine(cols) && img[2] == RuleLine(cols) &&
      img[|g| + 3] == RuleLine(cols) && img[|g| + 4] == HeaderLine(cols) && img[|g| + 5] == ""
    ensures forall k :: 3 <= k < |g| + 3 ==> Image(name, g, cols)[k] == RowLine(g[k - 3], k - 3)
  {
  }

  method BuildHeader(cols: nat) returns (line: string)
    ensures line == HeaderLine(cols)
  {
    line := "  ";
    var j := 0;
    while j < cols
      invariant 0 <= j <= cols
      invariant line == "  " + DigitRow(j)
    {
      line := line + [Digit(j)];
      j := j + 1;
      assert DigitRow(j) == DigitRow(j - 1) + [Digit(j - 1)];
    }
  }

  method BuildRule(cols: nat) returns (line: string)
    ensures line == RuleLine(cols)
  {
    line := " +";
    var j := 0;
    while j < cols
      invariant 0 <= j <= cols
      invariant line == " +" + Dashes(j)
    {
      line := line + "-";
      j := j + 1;
      assert Dashes(j) == Dashes(j - 1) + "-";
    }
    line := line + "+";
  }
}
