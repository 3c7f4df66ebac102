# Maze lab: union-find, the maze grid and its file format, the display state

This project models the sequential core of a Java teaching project. In that project a maze is generated or loaded, then drawn, then explored by a solver. Three pieces are modelled:

- **`DisjointSets`** (`union_find.dfy`, module `UnionFind`): weighted union-by-size with full path compression, stored in one integer array. A negative entry marks a root and holds minus the size of its set. A non-negative entry is a parent pointer.
  - The array is an `array<int>` field of a class.
  - A ghost rank grows strictly along every parent pointer. It shows that the pointers are acyclic, and it is the termination measure of the recursive `find`.
  - `Find` is stated against `Compressed`, the array with x's path pointing at its root. `Union` is stated against `UnionSpec`.
  - Lemmas show that both keep the partition invariant, and that `count()` is the number of distinct sets.
- **`Maze`** (`maze.dfy`, module `MazeGrid`): the grid of cell codes 0..3, where the 2 bit is the right wall and the 1 bit the bottom wall.
  - Its getters and its in-place setters.
  - The file-loading constructor, as a parser over the lines of the file.
  - `save`, as the lines it writes.
  - The class holds an `array2<int>`. The text format is stated on values: `Parse` and `Serialise` over a `Grid`, with the round trip `Parse(Serialise(g)) == Ok(g)`. `Load` and `Save` are the imperative loops, proved against those functions.
- **`MazePlay`** (`maze_play.dfy`, module `MazeDisplay`): the grid logic inside the GUI class.
  - Cell-number conversions.
  - `fixCellBorders` on the flat `right`/`bot` arrays.
  - The array getters and setters.
  - The traversal-state machine `setState`/`getState`/`visited`, with its forward and backward step counters.

Two helper modules support these. `Text` models Java's `split("\\s+")`, `Integer.parseInt` and `%d`, with their round-trip lemmas. `RowMajor` holds the division and remainder facts of row-major numbering. `Results` holds the `Result`/`Option` wrappers.

Java exceptions become `Err` results. Each error is a structured value: `IndexOutOfBounds`, or a `LoadError` giving the category and the `[row, col]` of the offending cell, in place of the message text.

One choice follows the code where it may look arbitrary, and one departs from it:

- On equal set sizes, `union(x, y)` hangs x's root under y's root, because `l` at DisjointSets.java:142 is 1 unless `s[r[0]] < s[r[1]]`.
- The main model allocates the grid that `Maze(String)` leaves unallocated, as an H×W array of zeros before the fill loop. The constructor as written is modelled separately; see "## Findings".

## Model

| member | source | states |
|---|---|---|
| UnionFind.DisjointSets.constructor | DisjointSets.java:63-69 | every entry is -1, the invariant holds, each element is its own root, `Size() == n` and there are `n` sets |
| UnionFind.Singletons | DisjointSets.java:63-69 | an all -1 array is a valid forest of `n` singleton sets whose roots are the elements themselves, with `n` roots |
| UnionFind.Root | DisjointSets.java:114-115 | following parent pointers from `x` ends at an index holding a negative value; it is `x` itself exactly when `x` is a root |
| UnionFind.Acyclic | DisjointSets.java:56 | in a valid array no non-root element is reached again by following one or more parent pointers |
| UnionFind.DisjointSets.Size | DisjointSets.java:156-159 | the number of elements; never negative and never changing, since the array is fixed at construction (`Size() == n` after the constructor) |
| UnionFind.DisjointSets.SizesAddUp | DisjointSets.java:150-159 | in a valid structure the sizes stored at the roots add up to `size()`, each root storing minus the size of its set |
| UnionFind.DisjointSets.Find | DisjointSets.java:107-116 | out-of-range `x` gives an index error and leaves the array alone; otherwise the result is x's root and the array is the compressed array; the partition and the count are unchanged |
| UnionFind.FindStep | DisjointSets.java:115 | the write `s[x] = find(s[x])` after the recursive call completes the compression of x's path and keeps the invariant, the partition and the count |
| UnionFind.CompressStep | DisjointSets.java:115 | compressing from `s[x]` and then pointing `x` at its root is compressing from `x` |
| UnionFind.CompressedAtRoot | DisjointSets.java:114 | `find` at a root changes nothing |
| UnionFind.CompressedRoot | DisjointSets.java:114-115 | path compression keeps every element's root |
| UnionFind.CompressedSized | DisjointSets.java:114-115 | path compression keeps the invariant, the partition, which entries are roots, and every root's stored size |
| UnionFind.DisjointSets.Union | DisjointSets.java:127-148 | meets `UnionSpec`: index error or -1 with partition and count unchanged; otherwise the smaller set's root (x's on a tie) points at the other root, the result is the sum of the two set sizes, exactly the two sets merge and the count drops by one; the array itself is the old one compressed by `find(x)` then `find(y)` (`CompressedBoth`), with `Linked`'s two writes on the joining path; on an index error it is unchanged when x is out of range and compressed from x when only y is |
| UnionFind.UnionOrder | DisjointSets.java:142 | after the two finds, comparing the stored values picks the root of the larger set, and y's root on equal sizes |
| UnionFind.UnionKeeps | DisjointSets.java:130-135 | an out-of-range argument, or two elements already in one set, leave the partition and the count as they were |
| UnionFind.UnionLinks | DisjointSets.java:142-147 | the linking path of `union` keeps the invariant and meets `UnionSpec` |
| UnionFind.UnionStep | DisjointSets.java:144-147 | hanging the smaller root under the larger merges the two sets, gives a stored size equal to their total, and lowers the count by one |
| UnionFind.UnionJoins | DisjointSets.java:118-126 | after a union of two in-range elements they share a root, and two elements share a root exactly when they did before or both were in x's or y's set |
| UnionFind.DisjointSets.Link | DisjointSets.java:144-145 | the two writes: the kept root takes both sizes, then the other root points at it |
| UnionFind.LinkedForest | DisjointSets.java:144-145 | linking two distinct roots keeps the pointers acyclic |
| UnionFind.LinkedRoot | DisjointSets.java:145 | after linking, the elements of the hung set reach the kept root, and every other element keeps its root |
| UnionFind.LinkedRoots | DisjointSets.java:145 | the partition after linking is the old one with the two sets merged |
| UnionFind.LinkedClasses | DisjointSets.java:144-145 | the kept root's set becomes the disjoint union of the two sets; every other set is unchanged |
| UnionFind.LinkedTallies | DisjointSets.java:144-145 | the stored sizes still add up to `size()`, and there is one root fewer |
| UnionFind.LinkedSized | DisjointSets.java:144-147 | linking keeps the class invariant; the merged root stores minus the sum of the two set sizes; the count drops by one |
| UnionFind.SameRootsSameCount | DisjointSets.java:161-176 | two arrays with the same partition have the same sets and the same `count()` |
| UnionFind.DisjointSets.Count | DisjointSets.java:168-176 | the scan returns the number of negative entries, which is the number of distinct sets |
| UnionFind.CountRootsIsCardinality | DisjointSets.java:168-176 | the counted entries are exactly the negative entries |
| UnionFind.CountIsNumberOfSets | DisjointSets.java:161-176 | the number of negative entries equals the number of distinct roots |
| UnionFind.TallyAllMinusOne | DisjointSets.java:63-69 | on an all -1 array the stored sizes add up to its length and every entry is a root |
| UnionFind.DocumentationExample | DisjointSets.java:24-44 | on 5 elements, `union(1,3)` then `union(3,4)` give `count() == 3`, `find(1) == find(3)`, `find(1) != find(2)` and `size() == 5`; a repeated union returns -1 |
| MazeGrid.RightOf | Maze.java:292-296 | on codes 0..3, the right wall is the code's 2 bit: present exactly when the code is at least 2 |
| MazeGrid.BotOf | Maze.java:309-313 | on codes 0..3, the bottom wall is the code's 1 bit: what remains once the 2 bit is taken away is 1 |
| MazeGrid.Encode | Maze.java:292-313 | the four codes 0..3 are exactly the four wall combinations |
| MazeGrid.EncodeDecode | Maze.java:292-313 | every code 0..3 is re-encoded as itself from its walls |
| MazeGrid.SetRightCode | Maze.java:325-337 | on a code 0..3, the new code is 0..3, has the right wall iff `b`, and keeps the bottom wall |
| MazeGrid.SetBotCode | Maze.java:349-361 | on a code 0..3, the new code is 0..3, has the bottom wall iff `b`, and keeps the right wall |
| MazeGrid.SetRightIdempotent | Maze.java:327-335 | `setRight` with the same flag twice is `setRight` once |
| MazeGrid.SetBotIdempotent | Maze.java:351-359 | `setBot` with the same flag twice is `setBot` once |
| MazeGrid.Maze.Width | Maze.java:257-259 | the number of columns, at least 1, the second dimension of the grid |
| MazeGrid.Maze.Height | Maze.java:267-269 | the number of rows, at least 1, the first dimension of the grid |
| MazeGrid.Maze.Title | Maze.java:277-279 | the title field, which `Load` sets to the file name and `Save` extends by `":" + filename` |
| MazeGrid.Maze.GetRight | Maze.java:292-296 | an index error outside the grid; otherwise the right wall of the cell at `[row, col]` in the maze |
| MazeGrid.Maze.GetBot | Maze.java:309-313 | an index error outside the grid; otherwise the bottom wall of the cell at `[row, col]` |
| MazeGrid.Maze.SetRight | Maze.java:325-337 | outside the grid an error and no change; otherwise `getRight` becomes `b`, `getBot` is kept, codes stay 0..3, and no other cell changes |
| MazeGrid.Maze.SetBot | Maze.java:349-361 | outside the grid an error and no change; otherwise `getBot` becomes `b`, `getRight` is kept, codes stay 0..3, and no other cell changes |
| MazeGrid.Maze.Allocate | Maze.java:50 | a fresh H×W grid all of whose codes are 0 (no walls) |
| MazeGrid.Maze.WallsOfCell | Maze.java:222-224 | cell number `i` is the cell at row `i / W` and column `i % W` |
| MazeGrid.ParseHeader | Maze.java:202-217 | a result only for a non-empty input whose first line announces `maze W H` with `W, H >= 1` |
| MazeGrid.HeaderRejects | Maze.java:202-217 | the loader fails with "empty" iff there are no lines; with "not a maze" iff the first line has fewer than 3 tokens or does not start with `maze`; with "illegal dimensions" iff it does, but no `W, H >= 1` can be read from it |
| MazeGrid.ParseCell | Maze.java:229-240 | `None` exactly when the line has fewer than two whitespace-separated tokens or either of the first two is not an integer numeral; otherwise the walls from those two, nonzero meaning present, later tokens ignored |
| MazeGrid.ParseCellReads | Maze.java:229-237 | `ParseCell` on a line whose first two tokens are integers gives walls from them, any nonzero value meaning present, whatever tokens follow |
| MazeGrid.ParseCells | Maze.java:222-240 | all `W*H` cell lines present and readable, with the cells they describe; or the first cell number whose line is missing or unreadable |
| MazeGrid.CellError | Maze.java:224-231 | the error for cell number `i` names `[i / W, i % W]`; it is "missing" once the lines have run out, else "bad description" |
| MazeGrid.Parse | Maze.java:191-249 | a successfully loaded maze is well formed: `W, H >= 1` and `W*H` cells |
| MazeGrid.ParseBody | Maze.java:219-245 | the cells read after a `maze W H` header make a well-formed `W` by `H` maze |
| MazeGrid.ParseIsDescribes | Maze.java:191-249 | the loader returns maze `g` exactly when the first line announces its dimensions and each of the next `W*H` lines reads as the matching cell (extra tokens and extra lines ignored) |
| MazeGrid.FirstFailure | Maze.java:226-240 | the first missing or unreadable cell line is the one reported |
| MazeGrid.ParseFailsAt | Maze.java:222-240 | if every cell before number `i` reads and line `i` is missing or unreadable, the loader fails naming `[i / W, i % W]` and returns no maze |
| MazeGrid.Maze.Load | Maze.java:191-249 | fails exactly when `Parse` does, with the same error; otherwise a fresh valid maze whose walls are those `Parse` reads, titled with the file name |
| MazeGrid.Maze.Fill | Maze.java:222-245 | the fill loop sets cell `[i / W, i % W]` from line `i`; it fails, naming the cell, exactly where `ParseCells` fails, and otherwise leaves the maze's cells equal to the parsed cells |
| MazeGrid.Maze.SetCell | Maze.java:242-243 | `setRight` and `setBot` of the loop body give cell `i` the walls read and leave every other cell alone |
| MazeGrid.ReadCell | Maze.java:224-240 | one turn of the fill loop's checks: it yields the walls of cell `i` exactly when line `i` is present and readable; otherwise it yields the error the loader reports for that cell, missing or bad, naming `[i / W, i % W]` |
| MazeGrid.Maze.FilledCells | Maze.java:222-245 | once every cell has been set from its line, the parsed cells are exactly the maze's cells |
| MazeGrid.Bit | Maze.java:404-405 | a wall flag prints as `1` when present and `0` when absent |
| MazeGrid.HeaderLine | Maze.java:399 | the header is `maze `, the width, a space and the height in decimal |
| MazeGrid.CellLine | Maze.java:406 | a cell line is three characters: the right flag, a space, the bottom flag, each `1` or `0` |
| MazeGrid.Serialise | Maze.java:399-406 | one header line `maze W H`, then exactly one line per cell in cell-number order |
| MazeGrid.SerialiseRowMajor | Maze.java:401-406 | the cell at `[row, col]` is written on line `1 + row*W + col`: rows outer, columns inner |
| MazeGrid.AtCell | Maze.java:224 | the cell at `[row, col]` is cell number `row*W + col` |
| MazeGrid.CellLineBits | Maze.java:404-406 | each cell line is two tokens, each `0` or `1` |
| MazeGrid.ParseCellLine | Maze.java:229-237 | the loader reads a written cell line back as the same walls |
| MazeGrid.ParseHeaderLine | Maze.java:205-212 | the loader reads the written header back as the same dimensions |
| MazeGrid.LoadSaveRoundTrip | Maze.java:222-243 | loading what `save` writes gives back the same maze |
| MazeGrid.Maze.Save | Maze.java:392-420 | writes exactly the serialisation of the maze; the title gets `":" + filename` appended |
| MazeGrid.Maze.CellLines | Maze.java:401-415 | the nested loops produce, for each cell in row-major order, the line of its wall flags |
| MazeGrid.CellLineOf | Maze.java:404-406 | the line printed from the two flags read is the cell's line |
| MazeGrid.SaveThenLoad | Maze.java:392-420 | saving and then loading the lines written gives a maze of the same size, whose wall queries all agree with the original's |
| MazeGrid.SameWalls | Maze.java:257-313 | two mazes with the same cells agree on `width`, `height`, `getRight` and `getBot` everywhere |
| MazeGrid.LoadAsWritten | Maze.java:191-249 | the constructor as written: header errors as in the loader; once the header is read, it reaches the unallocated grid exactly when the first cell line is present and readable, and otherwise fails naming cell `[0, 0]` |
| MazeGrid.AsWrittenNeverLoads | Maze.java:242 | every input the loader should accept makes the constructor as written fail at its first store into the grid; its header and first-cell errors agree with the intended loader's |
| MazeGrid.AsWrittenFailsOnSavedMaze | Maze.java:242 | the one-cell wall-less maze saves as `["maze 1 1", "0 0"]`, the intended loader reads it back, and the constructor as written returns `NullGrid` on it: the first `setRight` at Maze.java:242 writes into a grid that was never allocated |
| MazeGrid.SavedSmallest | Maze.java:399-406 | the exact lines written for a one-cell maze without walls |
| MazeDisplay.StateOf | MazePlay.java:139-147 | `getState` returns one of E, F, B, and E exactly for the white (unvisited) colour |
| MazeDisplay.ColourFor | MazePlay.java:216-241 | `setState` paints a colour exactly for E, F and B, and it is the colour whose state is `v` |
| MazeDisplay.ColourForState | MazePlay.java:216-241 | painting a cell for its own state gives its own colour |
| MazeDisplay.FixRight | MazePlay.java:108-112 | the right walls after `fixCellBorders`, one per cell; `FixedRightAt` states their meaning |
| MazeDisplay.FixBot | MazePlay.java:114-115 | the bottom walls after `fixCellBorders`, one per cell; `FixedBotAt` states their meaning |
| MazeDisplay.CloseRows | MazePlay.java:108-109 | after turns `1..n-1` of the first loop, the last cell of each of rows `0..n-2` is closed and every other cell is unchanged |
| MazeDisplay.RowEnd | MazePlay.java:109 | the index `i*w - 1` written by the first loop is a cell of the grid and not the exit cell |
| MazeDisplay.CloseRowsThenExit | MazePlay.java:108-112 | the whole first loop followed by opening cell `w*h - 1` gives `FixRight` |
| MazeDisplay.FixIdempotent | MazePlay.java:106-116 | `fixCellBorders` is idempotent: the walls it leaves are a fixed point of it |
| MazeDisplay.FixedRightAt | MazePlay.java:108-112 | after the fix the right wall of `[row, col]` is open at the exit `[h-1, w-1]`, closed elsewhere in the last column, and unchanged off it |
| MazeDisplay.FixedBotAt | MazePlay.java:114-115 | after the fix the bottom wall of `[row, col]` is closed in the last row and unchanged above it |
| MazeDisplay.Paint | MazePlay.java:210-247 | no other cell changes; the result is true iff `v` is E, F or B and differs from the cell's state; a change leaves the cell in state `v`; no change leaves everything as it was; `fw` rises by one exactly on a change to F, `bk` exactly on a change to B |
| MazeDisplay.PaintTwice | MazePlay.java:216-238 | for a known state, the cell ends in that state, and a second identical call changes nothing and returns false |
| MazeDisplay.PaintVisits | MazePlay.java:166-169 | after a forward or backward step the cell counts as visited (it is not white) |
| MazeDisplay.MazePlay.OneDim | MazePlay.java:79-86 | `row*w + col`, within `0..w*h-1`, exactly for `0 <= row < h` and `0 <= col < w`; an index error otherwise |
| MazeDisplay.MazePlay.TwoDimCol | MazePlay.java:88-94 | a column below `w` exactly for `0 <= c < w*h`; an index error otherwise |
| MazeDisplay.MazePlay.TwoDimRow | MazePlay.java:96-102 | a row below `h` exactly for `0 <= c < w*h`; an index error otherwise |
| MazeDisplay.MazePlay.TwoDimThenOneDim | MazePlay.java:88-102 | `onedim(twodimrow(c), twodimcol(c)) == c` for every cell number `c` |
| MazeDisplay.MazePlay.OneDimThenTwoDim | MazePlay.java:79-102 | `twodimrow` and `twodimcol` of `onedim(row, col)` give back `row` and `col` |
| MazeDisplay.MazePlay.FixCellBorders | MazePlay.java:106-116 | the right walls become `FixRight` and the bottom walls `FixBot` of the old arrays |
| MazeDisplay.MazePlay.CloseRightColumn | MazePlay.java:108-112 | the first loop and the exit write turn the right walls into `FixRight` of the old ones |
| MazeDisplay.MazePlay.CloseBottomRow | MazePlay.java:114-115 | the last loop turns the bottom walls into `FixBot` of the old ones |
| MazeDisplay.MazePlay.GetRightAt | MazePlay.java:119-122 | `right[c]` for an index in range; an index error otherwise |
| MazeDisplay.MazePlay.GetRight | MazePlay.java:124-127 | an index error outside the grid; otherwise the right wall stored for cell `onedim(row, col)` |
| MazeDisplay.MazePlay.GetBotAt | MazePlay.java:129-132 | `bot[c]` for an index in range; an index error otherwise |
| MazeDisplay.MazePlay.GetBot | MazePlay.java:134-137 | an index error outside the grid; otherwise the bottom wall stored for cell `onedim(row, col)` |
| MazeDisplay.MazePlay.OuterWalls | MazePlay.java:106-116 | on the display the last column has its right wall except at the exit `[h-1, w-1]`, and the last row has its bottom wall |
| MazeDisplay.MazePlay.GetStateAt | MazePlay.java:139-147 | an index error out of range; otherwise one of E, F, B, namely the state whose colour the cell has |
| MazeDisplay.MazePlay.GetState | MazePlay.java:161-164 | an index error outside the grid; otherwise the state of cell `onedim(row, col)` |
| MazeDisplay.MazePlay.VisitedAt | MazePlay.java:166-169 | an index error out of range; otherwise true exactly when the cell is not white |
| MazeDisplay.MazePlay.Visited | MazePlay.java:183-186 | fails exactly when `getState` does, and otherwise is `getState(row, col) != E` |
| MazeDisplay.MazePlay.SetRightAt | MazePlay.java:188-192 | an index error and no change out of range; otherwise the right walls become `FixRight` of the old ones with cell `c` set to `b`; the bottom walls are untouched and the borders stay fixed |
| MazeDisplay.MazePlay.SetRight | MazePlay.java:194-197 | as `SetRightAt` on cell `onedim(row, col)`, with an index error outside the grid |
| MazeDisplay.MazePlay.SetBotAt | MazePlay.java:199-203 | an index error and no change out of range; otherwise the bottom walls become `FixBot` of the old ones with cell `c` set to `b`; the right walls are untouched and the borders stay fixed |
| MazeDisplay.MazePlay.SetBot | MazePlay.java:205-208 | as `SetBotAt` on cell `onedim(row, col)`, with an index error outside the grid |
| MazeDisplay.MazePlay.SetStateAt | MazePlay.java:210-247 | an index error and no change out of range; otherwise the colours, counters and result are those of `Paint` |
| MazeDisplay.MazePlay.SetState | MazePlay.java:262-265 | as `SetStateAt` on cell `onedim(row, col)`, with an index error outside the grid |
| MazeDisplay.MazePlay.CopyCells | MazePlay.java:322-326 | the constructor's loop copies every cell's right and bottom wall from the maze and makes every cell white |
| MazeDisplay.MazePlay.constructor | MazePlay.java:307-335 | the dimensions are the maze's; the walls are the maze's with the borders fixed; every cell is empty; both counters are 0 |
| MazeDisplay.Rights | MazePlay.java:322-323 | the right walls of a maze's cells by cell number |
| MazeDisplay.Bots | MazePlay.java:322-324 | the bottom walls of a maze's cells by cell number |
| Text.Split | Maze.java:205 | whitespace-free tokens, none empty after the first; the first is empty only when the line is empty or starts with whitespace; the empty line gives the single empty token; a single word splits into itself |
| Text.ParseInt | Maze.java:211-212 | a token is read as a number exactly when it is a numeral (`IsNumeral`: a run of decimal digits, optionally after one `+` or `-` sign); the value is never negative without a leading `-` and never positive with one |
| Text.ParseNegNatStr | Maze.java:235-236 | a minus sign before the digits of `n` reads as `-n` |
| Text.NatStr | Maze.java:399 | the decimal form of a number is a non-empty word of digits |
| Text.ParseNatStr | Maze.java:399 | reading back a printed number gives the number |
| Text.SplitJoin | Maze.java:205 | splitting words joined by single spaces gives back the words |

## Left out

- Thread control is left out because it is concurrency: `controlThread`, `TOGGLE`, `KILL`, the `volatile` flags, `Thread.sleep` and the solver thread. `setState` is modelled without its call to `controlThread`.
- All Swing/AWT code is left out because it is drawing: `paint`, `drawBanner`, `fillCell`, the window and mouse listeners, `run` and the `setBackground`/`setOpaque` calls of the constructor.
- `MazePlay.main` is left out; it is command-line handling.
- Files are not opened, read or written. The loader takes the file's lines as a sequence, and `save` returns the lines it writes.
  - The "error opening filename" failure is therefore not modelled.
  - Nor is the `IndexOutOfBoundsException` branch of `save`. It cannot be reached, because `save` only visits cells inside the grid.
- The random-maze constructor `Maze(int, int)` is not modelled. It is unfinished and does not compile, for example through a misspelled class name and unassigned locals, and it depends on a random-number source.
- `Maze.solve` is not modelled; it is an empty stub.
- `DisjointSets.toString` and `Dump` are not modelled; they only format or print.
- Error messages are structured values (`LoadError`, `IndexError`), not the exception texts. Each cell error keeps the cell's `[row, col]`.
- Java's `int` is 32 bits but the model's integers are unbounded. No wrap-around is modelled in `w * h`, `row * w + col`, the step counters `fw` and `bk`, or the sizes of `DisjointSets`.
- Text.ParseInt: does not model `Integer.parseInt` refusing values outside the 32-bit range. Nor does it model its acceptance of non-ASCII Unicode digits. Tokens are read with ASCII digits and an optional sign only.
- Text.Split: models the whitespace characters of the regular-expression class `\s` only, and has no Unicode line or paragraph separators.
- MazeGrid.Maze.Fill: reads every line with `ParseCell` before the loop rather than one at a time inside it. `ParseCell` has no effect, so the shared parts behave the same. The model does not capture the scanner's lazy consumption of input.
- The shared `Maze` object is not re-read after construction. `MazePlay` keeps its own copy of the walls in its arrays, and the model does not capture later changes to the maze.
- MazeDisplay.MazePlay.constructor: requires a valid maze with at least one row and one column. The loader only ever builds such mazes, and the only other constructor is the random one, which is left out. The `w * h == 0` case of `fixCellBorders` is therefore not reached.
- UnionFind.DisjointSets.constructor: requires `n >= 0`. Java's `new int[n]` throws on a negative `n`, and that exception is not modelled.
- The title before loading completes is `""`; in Java it is `null`. It is not observable, because the loader assigns the title before returning.
- Colours are three named values, not `java.awt.Color` objects. `getState` compares against the three colour constants, and the display only ever holds those three.

## Findings

| source | as written | input that shows it | evidently intended | confidence | as-written member | corrected member |
|---|---|---|---|---|---|---|
| Maze.java:50 | the field `maze` is declared but never allocated by the file-loading constructor, so the first `setRight(row, col, r)` (Maze.java:242) dereferences a null grid | the lines `["maze 1 1", "0 0"]`, which are exactly what `save` writes for a one-cell maze without walls | allocate an `h` by `w` grid of zeros before the fill loop, so that every well-formed file loads | not executed | MazeGrid.AsWrittenNeverLoads | MazeGrid.LoadSaveRoundTrip |
