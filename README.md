# BlobsAnalyzer in Dafny

A model of the `BlobAnalyzer` class of BlobsAnalyzer, with proofs about it.
The program reads a text image in which `'x'` marks a foreground pixel. It
labels the 4-connected groups of foreground pixels ("blobs") with the IDs
1, 2, 3, ... and prints two things: the image in a digit-framed box, and a
table that gives, for every blob, its pixel count and its centre of mass.

The model keeps the program's imperative form. `Blobs.BlobAnalyzer` is a
class with the fields of the C++ class:

- the file name;
- `numRows` and `numCols`;
- the label array, as an `array2<int>` holding the `connected` value of each pixel;
- the counter `connectedComponents`.

Its methods mirror the C++ members:

- `LoadPixels` fills the array with nested loops;
- `LabelBlobs` is the row-major labelling scan of `processFile`;
- `FindBlobs` is the recursive flood fill;
- `CalculateBlobSize` and the two `CalculateCenterOfMass*` methods are the counting loops;
- `PrintImage` and `PrintBlobProperties` build the printed output, returned as values.

Labels follow the program: -1 is background, 0 is a foreground pixel that
has no blob yet ("pending"), and k > 0 is blob k.

The methods are proved against specification functions on a grid value
(`seq<seq<int>>`), and the meaning is proved about those functions. The
modules are:

- `LabelGrid` (grid.dfy): cells, adjacency, the row-major order, and 4-connected reachability through pending cells.
- `FloodFill` (fill.dfy): `Filled`, which says what one fill does, and the proof that the four recursive calls add up to a fill from their seed.
- `Labelling` (scan.dfy): the scan invariant, and `IsLabelling` / `FirstCells`, which say what the finished labelling is.
- `BlobStats` (stats.dfy): sizes and index sums per blob, their bounds, and conservation of pixels.
- `Loader` (loader.dfy): `ignore(numCols, '\n')`, and the layout of the body with one terminator character after every row.
- `Render` (render.dfy): the lines of the printed image.
- `Blobs` (blobs.dfy): the class, plus `Analyze`, which runs `processFile` and then `printResults` on one file.

## Model

| member | source | states |
|---|---|---|
| Loader.SkipLine | main.cpp:33 | `ignore(n, '\n')` drops a prefix of the stream. The rest is a suffix of the input. A count of zero or less drops nothing, and otherwise at most `n` characters are dropped. No newline is dropped before the last dropped character. The drop stops after exactly `n` characters, after a newline, or at the end of the stream. |
| Loader.Classify | main.cpp:46-51 | A pixel character loads as pending exactly when it is `'x'`, and as background otherwise. |
| Loader.IndexInBody | main.cpp:41-54 | When the body holds `rows` rows of `cols` characters plus a terminator each, the character of cell (i, j) lies at `i*(cols+1)+j`, inside the body. |
| Loader.LoadedGridClassifies | main.cpp:41-54 | The loaded grid is `rows` by `cols`. Cell (i, j) is pending (0) exactly when body character `i*(cols+1)+j` is `'x'`, and background (-1) exactly when it is not. |
| Loader.LoadedGridIsLoaded | main.cpp:41-54 | Every cell of a loaded grid is pending or background. |
| Blobs.BlobAnalyzer.LoadPixels | main.cpp:36-54 | A fresh `numRows` by `numCols` label array whose contents equal the loaded grid of the body. A loop position walks the body, one character per pixel plus one per row terminator. |
| Blobs.BlobAnalyzer.constructor | main.cpp:20 | A new analyzer keeps the given file name and starts with no pixels: an empty 0 by 0 label array, a consistent state. |
| Blobs.BlobAnalyzer.FindBlobs | main.cpp:85-101 | After `findBlobs(x, y)`, exactly the cells reachable from (x, y) through 4-adjacent in-bounds pending cells hold the current ID. Every other cell keeps its label. The fill terminates because the set of pending cells shrinks. |
| FloodFill.FilledFrame | main.cpp:86-100 | A fill writes the ID only into cells that were pending. It never creates a pending cell and never changes a background cell or a cell with another ID. |
| FloodFill.FilledFromNonPending | main.cpp:86-90 | A call on a cell that is out of bounds or not pending leaves every label as it was. |
| FloodFill.FilledNothing | main.cpp:86-90 | Leaving the grid unchanged is a correct fill from a cell that is not pending (the early return). |
| FloodFill.FillFour | main.cpp:93-100 | Marking the seed and then filling from its down, up, right and left neighbours, in that order, is a fill from the seed. |
| FloodFill.FillDone | main.cpp:96-100 | When no neighbour is left to visit, the fill invariant implies the fill specification. |
| FloodFill.FillStepPending | main.cpp:97-100 | A nested fill never adds pending cells, so the termination measure stays below the caller's. |
| LabelGrid.ReachSym | main.cpp:85-101 | Reachability through pending cells is symmetric. |
| LabelGrid.ReachTrans | main.cpp:85-101 | Reachability through pending cells is transitive. |
| LabelGrid.ReachExtend | main.cpp:97-100 | A reachable cell extends its path by one adjacent pending step. |
| LabelGrid.ReachEnds | main.cpp:86 | Both ends of a reach are pending cells inside the grid. |
| LabelGrid.AscendingOrdered | main.cpp:57-58 | In a sequence that is ascending pair by pair, every earlier cell comes before every later one in row-major order. |
| Blobs.BlobAnalyzer.LabelBlobs | main.cpp:57-64 | Starting from a loaded grid with the counter at 0, the scan yields a labelling of the loaded grid with `connectedComponents` blobs. It also yields the seed cells at which each ID was handed out. |
| Blobs.BlobAnalyzer.ScanRow | main.cpp:58-63 | One row of the scan preserves the scan invariant and moves it from the row's first cell to past its last. |
| Blobs.BlobAnalyzer.StartBlob | main.cpp:59-62 | At a pending cell the scan increments the counter by one and floods from that cell: the new labels are the old ones after a fill with the new ID from (i, j). That cell is appended to the seeds, and the scan invariant then holds one cell further on. |
| Labelling.ScanFill | main.cpp:59-62 | A flood with ID cc+1 from the pending cell the scan has reached preserves the invariant. The invariant covers: labels stay in range, adjacent foreground cells agree, every labelled cell is reachable from its seed and not before it, and the seeds stay ascending. |
| Labelling.ScanDone | main.cpp:57-64 | When the scan ends, no cell is pending. Each cell is background exactly when it was background after loading, and every other label lies in 1..connectedComponents. Two foreground cells share an ID exactly when a foreground path joins them. Seed k holds ID k+1, the seeds are in row-major order, and no cell of blob k+1 comes before seed k. All IDs are therefore used, each is first met at its seed, and the seeds of successive IDs come in order. |
| Labelling.SameIdIffConnected | main.cpp:57-64 | If adjacent foreground cells share labels and every label is reachable from its seed, two foreground cells share an ID exactly when a foreground path joins them. |
| Labelling.NothingPending | main.cpp:57-64 | Once every cell has been scanned, every label is background or an ID in 1..cc. |
| Blobs.BlobAnalyzer.ProcessFile | main.cpp:32-64 | After the header numbers are read, the result has dimensions `rows` by `cols`. The labels are a labelling of the grid loaded from the body that follows `ignore(cols, '\n')`, with first-cell seeds for every ID. |
| Blobs.BlobAnalyzer.CalculateBlobSize | main.cpp:143-155 | The returned size is the number of cells carrying `component`. |
| Blobs.BlobAnalyzer.CalculateCenterOfMassRow | main.cpp:158-170 | `sumX` is the sum of the row indices of the cells of `component`, and `size` is their number. |
| Blobs.BlobAnalyzer.CalculateCenterOfMassCol | main.cpp:175-187 | `sumY` is the sum of the column indices of the cells of `component`, and `size` is their number. |
| BlobStats.SizePositive | main.cpp:143-155 | A blob that owns a cell has size at least 1. |
| BlobStats.RowSumBound | main.cpp:158-172 | The row-index sum of a blob is at most (rows-1) times its size. |
| BlobStats.ColSumBound | main.cpp:175-189 | The column-index sum of a blob is at most (cols-1) times its size. |
| BlobStats.CenterOfMassInRange | main.cpp:158-189 | If 0 <= sum <= (n-1)*size and size > 0, the quotient sum/size lies in [0, n-1]. |
| BlobStats.Conservation | main.cpp:143-155 | When every label is background or in 1..n, the sizes of blobs 1..n add up to the number of foreground cells. |
| BlobStats.ForegroundSame | main.cpp:57-64 | Two grids of one shape with the same background cells have the same number of foreground cells. |
| BlobStats.TableFacts | main.cpp:143-202 | For a finished labelling in which every ID 1..cc labels some cell, the table has one line per ID 1..cc, in order. Every blob has at least one pixel. Its centre of mass, row sum / size and column sum / size, lies on the grid. The pixel counts add up to the number of `'x'` pixels of the loaded image. |
| Blobs.BlobAnalyzer.PrintBlobProperties | main.cpp:192-209 | The table has one line for each `i` in `1..connectedComponents`, in order: `i`, `calculateBlobSize(i)`, and the two centre-of-mass sums with the size they are divided by. |
| Render.Digit | main.cpp:110 | The digit printed for `n % 10`. |
| Render.HeaderLine | main.cpp:108-112 | The header is two blanks, then the digit `j % 10` for each column `j`. It has length `numCols + 2`. |
| Render.RuleLine | main.cpp:114-118 | The rule is `" +"`, then one `'-'` per column, then `"+"`. It has length `numCols + 3`. |
| Render.RowLine | main.cpp:121-127 | Row line `i` has length `numCols + 4` and is framed as `i%10`, `|`, ..., `|`, `i%10`. Inside the frame each position is `'x'` exactly when the label is not -1, and a blank exactly when it is -1. |
| Render.ImageLayout | main.cpp:104-140 | The image lines, in order: the name line, the header, the rule, one line per row, the rule, the header and an empty line. |
| Render.BuildHeader | main.cpp:108-112 | The header loop builds exactly the header line. |
| Render.BuildRule | main.cpp:114-118 | The rule loop builds exactly the rule line. |
| Blobs.BlobAnalyzer.BuildRow | main.cpp:122-126 | The row loop builds exactly row line `i` of the current labels. |
| Blobs.BlobAnalyzer.PrintImage | main.cpp:104-140 | The printed lines are exactly the image of the current labels under the file name. |
| Blobs.BlobAnalyzer.PrintResults | main.cpp:70-73 | The image, then the statistics table, of the current state. |
| Blobs.CellEchoesBody | main.cpp:121-127 | Cell (i, j) of the printed image shows `'x'` exactly when body character `i*(cols+1)+j` is `'x'`, for any labelling that keeps the background of the loaded grid. |
| Blobs.ImageEchoesBody | main.cpp:104-140 | The image has `rows + 6` lines, and each row line has length `cols + 4`. Every pixel of the image shows `'x'` exactly where the body has one. |
| Blobs.OutputFacts | main.cpp:104-209 | For any labelling of the loaded body in which every ID 1..n labels some cell, whatever order the IDs were handed out in, the output says the following. The image has the name line and `rows + 6` lines, each row line has `cols + 4` characters, and its pixel at cell (i, j) is `'x'` exactly when body character `i*(cols+1)+j` is. The table holds blobs 1..n in order. Each blob has at least one pixel, and its row and column sums are at most (rows-1) and (cols-1) times its size. The pixel counts add up to the number of `'x'` cells of the body. |
| Blobs.Analyze | main.cpp:212-222 | One run on a file with header `rows cols` returns a `rows` by `cols` labelling of the loaded body, with as many blobs as table lines and first-cell seeds for the blobs. The image and the table are those of that labelling. The image reproduces every `'x'` of the body, and the table's pixel counts add up to the body's foreground count, with every centre of mass on the grid. |

## Left out

- Opening the file and the "File cannot be opened." early return (main.cpp:26-30). This is file I/O, so the model starts from the characters of the file.
- The filename prompt and the reading from `cin` in `main` (main.cpp:212-216). This is interactive I/O, so `Analyze` takes the name as a parameter.
- Parsing the header with `>>` (main.cpp:32). The model takes the two numbers as given integers and the characters after them as `rest`.
- Behaviour on a malformed header, a negative size, or a body too short for the announced size (main.cpp:32, 44). `get` at end of file and `>>` failure are unspecified behaviour. `ProcessFile`, `LoadPixels` and `Analyze` require non-negative sizes and a body that holds every pixel character; only the final row terminator may be missing.
- The `double` division, `fixed`, `setprecision(2)` and `setw` in the table (main.cpp:171, 188, 200-202). This is floating point and formatting. The table holds the integer sums and the size they are divided by, and the range facts are stated for the exact quotient.
- The fixed table header and footer strings of `printBlobProperties` (main.cpp:193-196, 208). They are constant text that carries no data.
- 32-bit `int` overflow of the counter and the sums. The model uses unbounded integers, which matches the program as long as no count or index sum exceeds 2^31 - 1.
- The `x` and `y` fields of `Pixel` (main.cpp:11-15, 47, 50). The program stores them and never reads them, so the array element is the `connected` value alone.
- The C++ constructor leaves `numRows`, `numCols` and `connectedComponents` uninitialized (main.cpp:20). The model's constructor sets them to 0 and allocates an empty array.
- Calling `processFile` twice on one object. On a second call `resize` would keep old rows of the previous width. The model allocates a fresh array, as in the program's single call from `main`.
- The call-stack depth of the recursive `findBlobs`. This is a runtime resource, not behaviour.
- Blobs.BlobAnalyzer.FindBlobs requires `connectedComponents >= 1`. With 0, the cell it writes stays pending and the recursion never ends. The program only calls `findBlobs` right after incrementing the counter (main.cpp:60-61).
