/**
 * The maze of `Maze.java`: a grid of cells whose codes 0..3 record the right
 * wall (the code's 2 bit) and the bottom wall (its 1 bit), and the text format
 * that the file-loading constructor reads and `save` writes:
 *
 *   maze W H
 *   r b        (W * H lines, row by row, a column at a time)
 *
 * Files are modelled as sequences of lines; opening and writing them is not.
 */
module MazeGrid {
  import opened Results
  import opened Text
  import RowMajor

  /** The walls of one cell. */
  datatype Walls = Walls(right: bool, bot: bool)

  /** The right wall is the 2 bit of the code: present on codes 2 and 3. */
  predicate RightOf(code: int): (b: bool)
    ensures 0 <= code <= 3 ==> (b <==> code >= 2)
  {
    code == 2 || code == 3
  }

  /** The bottom wall is the 1 bit of the code: what is left once the 2 bit is taken away. */
  predicate BotOf(code: int): (b: bool)
    ensures 0 <= code <= 3 ==> (b <==> code - (if code >= 2 then 2 else 0) == 1)
  {
    code == 1 || code == 3
  }

  function Decode(code: int): Walls {
    Walls(RightOf(code), BotOf(code))
  }

  /** The code of a cell with the given walls: the four codes are the four wall combinations. */
  function Encode(w: Walls): (code: int)
    ensures 0 <= code <= 3 && Decode(code) == w
  {
    (if w.right then 2 else 0) + (if w.bot then 1 else 0)
  }

  lemma EncodeDecode(code: int)
    requires 0 <= code <= 3
    ensures Encode(Decode(code)) == code
  {
  }

  /** The arithmetic of `setRight`: add or take away the 2 bit when it is absent or present. */
  function SetRightCode(code: int, b: bool): (c: int)
    ensures 0 <= code <= 3 ==> 0 <= c <= 3 && Decode(c) == Walls(b, BotOf(code))
  {
    if b then (if code == 0 || code == 1 then code + 2 else code)
    else (if code == 2 || code == 3 then code - 2 else code)
  }

  /** The arithmetic of `setBot`: add or take away the 1 bit when it is absent or present. */
  function SetBotCode(code: int, b: bool): (c: int)
    ensures 0 <= code <= 3 ==> 0 <= c <= 3 && Decode(c) == Walls(RightOf(code), b)
  {
    if b then (if code == 0 || code == 2 then code + 1 else code)
    else (if code == 1 || code == 3 then code - 1 else code)
  }

  lemma SetRightIdempotent(code: int, b: bool)
    ensures SetRightCode(SetRightCode(code, b), b) == SetRightCode(code, b)
  {
  }

  lemma SetBotIdempotent(code: int, b: bool)
    ensures SetBotCode(SetBotCode(code, b), b) == SetBotCode(code, b)
  {
  }

  /** A maze as a value: its dimensions and the walls of its cells in row-major order. */
  datatype Grid = Grid(width: nat, height: nat, cells: seq<Walls>)

  predicate WellFormed(g: Grid) {
    g.width >= 1 && g.height >= 1 && |g.cells| == g.width * g.height
  }

  /** The walls of cell `[row, col]`. */
  function At(g: Grid, row: int, col: int): Walls
    requires WellFormed(g) && 0 <= row < g.height && 0 <= col < g.width
  {
    RowMajor.Bound(row, col, g.width, g.height);
    g.cells[row * g.width + col]
  }

  /** Why the loader refuses its input; the cell errors name the cell `[row, col]` concerned. */
  datatype LoadError =
    | FileEmpty
    | NotAMaze
    | IllegalDimensions
    | MissingCells(row: nat, col: nat)
    | BadCell(row: nat, col: nat)

  /** `line` is the header of a `w` by `h` maze. */
  predicate HeaderSays(line: string, w: int, h: int) {
    var t := Split(line);
    |t| >= 3 && t[0] == "maze" && ParseInt(t[1]) == Some(w) && ParseInt(t[2]) == Some(h)
  }

  /** The width and height announced by the first line. */
  function ParseHeader(lines: seq<string>): (r: Result<(nat, nat), LoadError>)
    ensures r.Ok? ==> lines != [] && r.value.0 >= 1 && r.value.1 >= 1 && HeaderSays(lines[0], r.value.0, r.value.1)
  {
    if lines == [] then Err(FileEmpty)
    else
      var t := Split(lines[0]);
      if |t| < 3 || t[0] != "maze" then Err(NotAMaze)
      else
        var w, h := ParseInt(t[1]), ParseInt(t[2]);
        if w.None? || h.None? || w.value < 1 || h.value < 1 then Err(IllegalDimensions)
        else Ok((w.value, h.value))
  }

  /** A cell line: its first two tokens as integers, nonzero meaning the wall is present; later tokens are ignored. */
  function ParseCell(line: string): (c: Option<Walls>)
    ensures c.None? <==> |Split(line)| < 2 || !IsNumeral(Split(line)[0]) || !IsNumeral(Split(line)[1])
    ensures c.Some? ==> c.value.right == (ParseInt(Split(line)[0]).value != 0)
    ensures c.Some? ==> c.value.bot == (ParseInt(Split(line)[1]).value != 0)
  {
    var t := Split(line);
    if |t| < 2 then None
    else
      var r, b := ParseInt(t[0]), ParseInt(t[1]);
      if r.None? || b.None? then None else Some(Walls(r.value != 0, b.value != 0))
  }

  /** The cell line of every line after the header. */
  function ReadCells(body: seq<string>): (cs: seq<Option<Walls>>)
    ensures |cs| == |body| && forall j :: 0 <= j < |body| ==> cs[j] == ParseCell(body[j])
  {
    seq(|body|, j requires 0 <= j < |body| => ParseCell(body[j]))
  }

  /** All of cells `i` to `n - 1` are present and readable. */
  predicate AllRead(cs: seq<Option<Walls>>, i: nat, n: nat) {
    (i < n ==> n <= |cs|) && forall j :: i <= j < n ==> cs[j].Some?
  }

  lemma AllReadStep(cs: seq<Option<Walls>>, i: nat, n: nat)
    requires i < n && i < |cs| && cs[i].Some?
    ensures AllRead(cs, i, n) == AllRead(cs, i + 1, n)
  {
    if AllRead(cs, i + 1, n) {
      assert AllRead(cs, i, n);
    }
  }

  /**
   * Cells `i` to `n - 1` from the read lines, or the number of the first one
   * that is missing or unreadable.
   */
  function ParseCells(cs: seq<Option<Walls>>, n: nat, i: nat): (r: Result<seq<Walls>, nat>)
    requires i <= n
    ensures r.Ok? <==> AllRead(cs, i, n)
    ensures r.Ok? ==> |r.value| == n - i && forall j :: i <= j < n ==> cs[j] == Some(r.value[j - i])
    ensures r.Err? ==> i <= r.error < n && AllRead(cs, i, r.error) && (r.error >= |cs| || cs[r.error].None?)
    decreases n - i
  {
    if i == n then Ok([])
    else if i >= |cs| || cs[i].None? then Err(i)
    else
      var rest := ParseCells(cs, n, i + 1);
      if rest.Err? then
        AllReadStep(cs, i, rest.error);
        AllReadStep(cs, i, n);
        rest
      else
        var r := [cs[i].value] + rest.value;
        AllReadStep(cs, i, n);
        assert r[1..] == rest.value;
        Ok(r)
  }

  /**
   * The error for cell number `i` of a maze `w` wide when `count` cell lines
   * follow the header: its line is missing, or it is unreadable.
   */
  function CellError(count: nat, w: nat, i: nat): (e: LoadError)
    requires w >= 1
    ensures (i >= count ==> e.MissingCells?) && (i < count ==> e.BadCell?)
    ensures e.row * w + e.col == i && e.col < w
  {
    RowMajor.Recompose(i, w);
    if i >= count then MissingCells(i / w, i % w) else BadCell(i / w, i % w)
  }

  /** The file-loading constructor of `Maze` as a function of the file's lines. */
  function Parse(lines: seq<string>): (r: Result<Grid, LoadError>)
    ensures r.Ok? ==> WellFormed(r.value)
  {
    var hd := ParseHeader(lines);
    if hd.Err? then Err(hd.error) else ParseBody(lines, hd.value.0, hd.value.1)
  }

  /** The cells of a `w` by `h` maze from the lines after the header. */
  function ParseBody(lines: seq<string>, w: nat, h: nat): (r: Result<Grid, LoadError>)
    requires lines != [] && w >= 1 && h >= 1
    ensures r.Ok? ==> WellFormed(r.value) && r.value.width == w && r.value.height == h
  {
    var cells := ParseCells(ReadCells(lines[1..]), w * h, 0);
    if cells.Err? then Err(CellError(|lines| - 1, w, cells.error)) else Ok(Grid(w, h, cells.value))
  }

  /** The loader's result once the header has been read, in terms of the read cell lines. */
  lemma ParseOfCells(lines: seq<string>, w: nat, h: nat)
    requires lines != [] && w >= 1 && h >= 1 && ParseHeader(lines) == Ok((w, h))
    ensures Parse(lines) == ParseBody(lines, w, h)
  {
  }

  /** The lines describe `g`: a header with its dimensions, then a readable line for each of its cells. */
  ghost predicate Describes(lines: seq<string>, g: Grid) {
    WellFormed(g) && lines != [] && HeaderSays(lines[0], g.width, g.height) &&
    |g.cells| < |lines| && forall i :: 0 <= i < |g.cells| ==> ParseCell(lines[i + 1]) == Some(g.cells[i])
  }

  /** The loader returns exactly the maze its input describes. */
  lemma ParseIsDescribes(lines: seq<string>, g: Grid)
    ensures Parse(lines) == Ok(g) <==> Describes(lines, g)
  {
    if lines == [] {
      return;
    }
    var cs := ReadCells(lines[1..]);
    if Parse(lines) == Ok(g) {
      forall i | 0 <= i < |g.cells|
        ensures ParseCell(lines[i + 1]) == Some(g.cells[i])
      {
        assert cs[i] == ParseCell(lines[1..][i]);
      }
    }
    if Describes(lines, g) {
      var w, h := g.width, g.height;
      assert ParseHeader(lines) == Ok((w, h));
      forall j | 0 <= j < w * h
        ensures cs[j] == Some(g.cells[j])
      {
        assert lines[1..][j] == lines[j + 1];
      }
      var cells := ParseCells(cs, w * h, 0);
      assert cells.Ok?;
      assert cells.value == g.cells;
    }
  }

  /** The header errors, each in terms of the first line alone. */
  lemma HeaderRejects(lines: seq<string>)
    ensures Parse(lines) == Err(FileEmpty) <==> lines == []
    ensures Parse(lines) == Err(NotAMaze) <==>
              lines != [] && (|Split(lines[0])| < 3 || Split(lines[0])[0] != "maze")
    ensures Parse(lines) == Err(IllegalDimensions) <==>
              lines != [] && |Split(lines[0])| >= 3 && Split(lines[0])[0] == "maze" &&
              !(exists w, h :: w >= 1 && h >= 1 && HeaderSays(lines[0], w, h))
  {
    forall w, h | lines != [] && w >= 1 && h >= 1 && HeaderSays(lines[0], w, h)
      ensures ParseHeader(lines) == Ok((w, h))
    {
    }
  }

  /** The first cell that is missing or unreadable is the one reported. */
  lemma FirstFailure(cs: seq<Option<Walls>>, n: nat, i: nat)
    requires i < n && AllRead(cs, 0, i) && (i >= |cs| || cs[i].None?)
    ensures ParseCells(cs, n, 0) == Err(i)
  {
    var r := ParseCells(cs, n, 0);
    assert !AllRead(cs, 0, n) by {
      assert i >= |cs| || !cs[i].Some?;
    }
  }

  /**
   * When every cell before number `i` reads well and the line of cell `i` is
   * missing or unreadable, the loader fails naming cell `i`, and returns no
   * maze.
   */
  lemma ParseFailsAt(lines: seq<string>, w: nat, h: nat, i: nat)
    requires w >= 1 && h >= 1 && lines != [] && HeaderSays(lines[0], w, h) && i < w * h
    requires i < |lines| && forall j :: 1 <= j <= i ==> ParseCell(lines[j]).Some?
    requires i + 1 == |lines| || ParseCell(lines[i + 1]).None?
    ensures Parse(lines) == Err(CellError(|lines| - 1, w, i))
  {
    var body := lines[1..];
    var cs := ReadCells(body);
    assert ParseHeader(lines) == Ok((w, h));
    forall j | 0 <= j < i
      ensures cs[j].Some?
    {
      assert body[j] == lines[j + 1];
      assert ParseCell(lines[j + 1]).Some?;
    }
    if i < |body| {
      assert body[i] == lines[i + 1];
    }
    FirstFailure(cs, w * h, i);
  }

  /** `%d` of a wall flag turned into `1` or `0`. */
  function Bit(b: bool): (s: string)
    ensures s == if b then "1" else "0"
  {
    NatStr(if b then 1 else 0)
  }

  /** `maze %d %d`: the header `save` prints. */
  function HeaderLine(w: nat, h: nat): (s: string)
    ensures s == "maze " + NatStr(w) + " " + NatStr(h)
  {
    var s := Join(["maze", NatStr(w), NatStr(h)]);
    assert Join([NatStr(w), NatStr(h)]) == NatStr(w) + " " + NatStr(h);
    s
  }

  /** `%d %d` of the two wall flags: three characters, each flag `1` or `0`, with a space between. */
  function CellLine(c: Walls): (s: string)
    ensures |s| == 3 && s[0] == (if c.right then '1' else '0') && s[1] == ' ' && s[2] == (if c.bot then '1' else '0')
  {
    var ws := [Bit(c.right), Bit(c.bot)];
    var s := Join(ws);
    assert ws[1..] == [Bit(c.bot)];
    assert Join(ws[1..]) == Bit(c.bot);
    assert s == Bit(c.right) + " " + Bit(c.bot);
    s
  }

  /** What `save` writes: the header, then one line per cell in row-major order. */
  function Serialise(g: Grid): (lines: seq<string>)
    ensures |lines| == 1 + |g.cells| && lines[0] == HeaderLine(g.width, g.height)
    ensures forall i :: 0 <= i < |g.cells| ==> lines[i + 1] == CellLine(g.cells[i])
  {
    [HeaderLine(g.width, g.height)] + seq(|g.cells|, i requires 0 <= i < |g.cells| => CellLine(g.cells[i]))
  }

  /** Cell `[row, col]` is written on line `1 + row * W + col`: rows outer, columns inner. */
  lemma SerialiseRowMajor(g: Grid, row: int, col: int)
    requires WellFormed(g) && 0 <= row < g.height && 0 <= col < g.width
    ensures var k := row * g.width + col;
            0 <= k < |g.cells| && Serialise(g)[1 + k] == CellLine(At(g, row, col))
  {
    AtCell(g, row, col);
    CellLineAt(g, row * g.width + col);
  }

  /** Cell `[row, col]` is cell number `row * W + col`. */
  lemma AtCell(g: Grid, row: int, col: int)
    requires WellFormed(g) && 0 <= row < g.height && 0 <= col < g.width
    ensures var k := row * g.width + col; 0 <= k < |g.cells| && At(g, row, col) == g.cells[k]
  {
    RowMajor.Bound(row, col, g.width, g.height);
  }

  lemma CellLineAt(g: Grid, k: int)
    requires 0 <= k < |g.cells|
    ensures Serialise(g)[k + 1] == CellLine(g.cells[k])
  {
  }

  /** Every written cell line is two tokens, each `0` or `1`. */
  lemma CellLineBits(c: Walls)
    ensures Split(CellLine(c)) == [Bit(c.right), Bit(c.bot)]
    ensures Bit(c.right) in {"0", "1"} && Bit(c.bot) in {"0", "1"}
  {
    SplitJoin([Bit(c.right), Bit(c.bot)]);
  }

  lemma ParseCellLine(c: Walls)
    ensures ParseCell(CellLine(c)) == Some(c)
  {
    var ws := [Bit(c.right), Bit(c.bot)];
    assert CellLine(c) == Join(ws);
    ParseNatStr(0);
    ParseNatStr(1);
    assert IsWord(ws[0]) && IsWord(ws[1]);
    ParseCellReads(ws);
  }

  /**
   * A cell line whose first two tokens are integers gives walls from them,
   * any nonzero value meaning the wall is present; further tokens are ignored.
   */
  lemma ParseCellReads(ws: seq<string>)
    requires |ws| >= 2 && forall i :: 0 <= i < |ws| ==> IsWord(ws[i])
    requires ParseInt(ws[0]).Some? && ParseInt(ws[1]).Some?
    ensures ParseCell(Join(ws)) == Some(Walls(ParseInt(ws[0]).value != 0, ParseInt(ws[1]).value != 0))
  {
    SplitJoin(ws);
  }

  lemma ParseHeaderLine(w: nat, h: nat)
    ensures HeaderSays(HeaderLine(w, h), w, h)
  {
    assert IsWord("maze");
    SplitJoin(["maze", NatStr(w), NatStr(h)]);
    ParseNatStr(w);
    ParseNatStr(h);
  }

  /** Loading what `save` wrote gives back the same maze. */
  lemma LoadSaveRoundTrip(g: Grid)
    requires WellFormed(g)
    ensures Parse(Serialise(g)) == Ok(g)
  {
    var lines := Serialise(g);
    ParseHeaderLine(g.width, g.height);
    forall i | 0 <= i < |g.cells|
      ensures ParseCell(lines[i + 1]) == Some(g.cells[i])
    {
      ParseCellLine(g.cells[i]);
    }
    assert Describes(lines, g);
    ParseIsDescribes(lines, g);
  }

  /** How the file-loading constructor as written ends: it never allocates the grid it fills. */
  datatype Outcome = Refused(error: LoadError) | NullGrid

  /**
   * The constructor as written: the checks run as in `Parse`, but the first
   * cell that passes them is stored through the unallocated grid.
   */
  function LoadAsWritten(lines: seq<string>): (o: Outcome)
    ensures ParseHeader(lines).Err? ==> o == Refused(ParseHeader(lines).error)
    ensures ParseHeader(lines).Ok? ==>
              (o == NullGrid <==> |lines| >= 2 && ParseCell(lines[1]).Some?) &&
              (o.Refused? ==> o.error == MissingCells(0, 0) || o.error == BadCell(0, 0))
  {
    var hd := ParseHeader(lines);
    if hd.Err? then Refused(hd.error)
    else if |lines| < 2 then Refused(MissingCells(0, 0))
    else if ParseCell(lines[1]).None? then Refused(BadCell(0, 0))
    else NullGrid
  }

  /** Every maze the loader is meant to accept makes the written constructor fail. */
  lemma AsWrittenNeverLoads(lines: seq<string>)
    ensures Parse(lines).Ok? ==> LoadAsWritten(lines) == NullGrid
    ensures Parse(lines).Err? && LoadAsWritten(lines).Refused? ==> Parse(lines).error == LoadAsWritten(lines).error
  {
    var hd := ParseHeader(lines);
    if hd.Ok? {
      var w, h := hd.value.0, hd.value.1;
      ParseOfCells(lines, w, h);
      var cs := ReadCells(lines[1..]);
      RowMajor.MulMonotone(1, h, w);
      if |lines| >= 2 {
        assert cs[0] == ParseCell(lines[1]);
      }
      if |lines| < 2 || ParseCell(lines[1]).None? {
        FirstFailure(cs, w * h, 0);
        assert CellError(|lines| - 1, w, 0) == LoadAsWritten(lines).error;
      }
    }
  }

  /** A one-cell maze without walls, as `save` writes it, is one such maze. */
  lemma AsWrittenFailsOnSavedMaze()
    ensures Serialise(Grid(1, 1, [Walls(false, false)])) == ["maze 1 1", "0 0"]
    ensures Parse(["maze 1 1", "0 0"]) == Ok(Grid(1, 1, [Walls(false, false)]))
    ensures LoadAsWritten(["maze 1 1", "0 0"]) == NullGrid
  {
    var g := Grid(1, 1, [Walls(false, false)]);
    SavedSmallest();
    LoadSaveRoundTrip(g);
    AsWrittenNeverLoads(Serialise(g));
  }

  /** The lines `save` writes for a one-cell maze without walls. */
  lemma SavedSmallest()
    ensures Serialise(Grid(1, 1, [Walls(false, false)])) == ["maze 1 1", "0 0"]
  {
    var lines := Serialise(Grid(1, 1, [Walls(false, false)]));
    assert NatStr(0) == "0" && NatStr(1) == "1";
    assert HeaderLine(1, 1) == "maze" + " " + ("1" + " " + "1") == "maze 1 1";
    assert CellLine(Walls(false, false)) == "0" + " " + "0" == "0 0";
    assert lines == [lines[0], lines[1]];
  }

  class Maze {
    /** Title of the maze. */
    var title: string
    /** The number of rows (the height) and of columns (the width). */
    const rows: int
    const cols: int
    /** The cell codes. */
    const maze: array2<int>

    ghost predicate Valid()
      reads maze
    {
      maze.Length0 == rows && maze.Length1 == cols && rows >= 1 && cols >= 1 &&
      forall r, c :: 0 <= r < rows && 0 <= c < cols ==> 0 <= maze[r, c] <= 3
    }

    /** The maze as a value. */
    ghost function Snapshot(): (g: Grid)
      reads maze
      requires Valid()
      ensures WellFormed(g) && g.width == cols && g.height == rows
    {
      Grid(cols, rows, seq(rows * cols, i requires Valid() && 0 <= i < rows * cols reads maze => CellAt(i)))
    }

    /** The walls of cell number `i`. */
    ghost function CellAt(i: int): Walls
      reads maze
      requires Valid() && 0 <= i < rows * cols
    {
      Decode(CodeAt(i))
    }

    lemma SnapshotAt(row: int, col: int)
      requires Valid() && 0 <= row < rows && 0 <= col < cols
      ensures At(Snapshot(), row, col) == Decode(maze[row, col])
    {
      RowMajor.Split(row, col, cols);
      RowMajor.Bound(row, col, cols, rows);
      assert Snapshot().cells[row * cols + col] == CellAt(row * cols + col);
    }

    /** The walls of cell number `i`, as asked for by row and column. */
    lemma WallsOfCell(i: int)
      requires Valid() && 0 <= i < rows * cols
      ensures 0 <= i / cols < rows && 0 <= i % cols < cols
      ensures GetRight(i / cols, i % cols) == Ok(Snapshot().cells[i].right)
      ensures GetBot(i / cols, i % cols) == Ok(Snapshot().cells[i].bot)
    {
      RowMajor.DivBound(i, cols, rows);
      RowMajor.Recompose(i, cols);
    }

    /** An `h` by `w` grid without walls: every code is `0`, the default of a new Java array. */
    constructor Allocate(h: int, w: int)
      requires h >= 1 && w >= 1
      ensures Valid() && fresh(maze) && rows == h && cols == w && title == ""
      ensures forall r, c :: 0 <= r < h && 0 <= c < w ==> maze[r, c] == 0
    {
      rows, cols := h, w;
      maze := new int[h, w]((r, c) => 0);
      title := "";
    }

    /** `width()`: the number of columns of the grid, fixed when the maze is made. */
    function Width(): (w: int)
      reads maze
      ensures Valid() ==> w >= 1 && w == maze.Length1
    {
      cols
    }

    /** `height()`: the number of rows of the grid, fixed when the maze is made. */
    function Height(): (h: int)
      reads maze
      ensures Valid() ==> h >= 1 && h == maze.Length0
    {
      rows
    }

    /** `title()`: the file name it was loaded from, with `":" + name` added by each save (see `Load` and `Save`). */
    function Title(): (t: string)
      reads this
      ensures t == title
    {
      title
    }

    /** Whether cell `[row, col]` has its right wall, or an index error outside the grid. */
    function GetRight(row: int, col: int): (r: Result<bool, IndexError>)
      reads maze
      requires Valid()
      ensures r.Ok? <==> 0 <= row < Height() && 0 <= col < Width()
      ensures r.Ok? ==> r.value == At(Snapshot(), row, col).right
    {
      if 0 <= row < rows && 0 <= col < cols then
        SnapshotAt(row, col);
        Ok(maze[row, col] == 2 || maze[row, col] == 3)
      else Err(IndexOutOfBounds)
    }

    /** Whether cell `[row, col]` has its bottom wall, or an index error outside the grid. */
    function GetBot(row: int, col: int): (r: Result<bool, IndexError>)
      reads maze
      requires Valid()
      ensures r.Ok? <==> 0 <= row < Height() && 0 <= col < Width()
      ensures r.Ok? ==> r.value == At(Snapshot(), row, col).bot
    {
      if 0 <= row < rows && 0 <= col < cols then
        SnapshotAt(row, col);
        Ok(maze[row, col] == 1 || maze[row, col] == 3)
      else Err(IndexOutOfBounds)
    }

    /**
     * Puts in or takes out the right wall of cell `[row, col]`; its bottom wall
     * and every other cell are left alone.
     */
    method SetRight(row: int, col: int, b: bool) returns (res: Result<(), IndexError>)
      requires Valid()
      modifies maze
      ensures Valid()
      ensures res.Ok? <==> 0 <= row < rows && 0 <= col < cols
      ensures res.Err? ==> unchanged(maze)
      ensures res.Ok? ==> maze[row, col] == SetRightCode(old(maze[row, col]), b)
      ensures res.Ok? ==> GetRight(row, col) == Ok(b) && GetBot(row, col) == old(GetBot(row, col))
      ensures forall r, c :: 0 <= r < rows && 0 <= c < cols && (r != row || c != col) ==>
                maze[r, c] == old(maze[r, c])
    {
      if !(0 <= row < rows && 0 <= col < cols) {
        return Err(IndexOutOfBounds);
      }
      if b {
        if maze[row, col] == 0 || maze[row, col] == 1 {
          maze[row, col] := maze[row, col] + 2;
        }
      } else {
        if maze[row, col] == 2 || maze[row, col] == 3 {
          maze[row, col] := maze[row, col] - 2;
        }
      }
      return Ok(());
    }

    /**
     * Puts in or takes out the bottom wall of cell `[row, col]`; its right wall
     * and every other cell are left alone.
     */
    method SetBot(row: int, col: int, b: bool) returns (res: Result<(), IndexError>)
      requires Valid()
      modifies maze
      ensures Valid()
      ensures res.Ok? <==> 0 <= row < rows && 0 <= col < cols
      ensures res.Err? ==> unchanged(maze)
      ensures res.Ok? ==> maze[row, col] == SetBotCode(old(maze[row, col]), b)
      ensures res.Ok? ==> GetBot(row, col) == Ok(b) && GetRight(row, col) == old(GetRight(row, col))
      ensures forall r, c :: 0 <= r < rows && 0 <= c < cols && (r != row || c != col) ==>
                maze[r, c] == old(maze[r, c])
    {
      if !(0 <= row < rows && 0 <= col < cols) {
        return Err(IndexOutOfBounds);
      }
      if b {
        if maze[row, col] == 0 || maze[row, col] == 2 {
          maze[row, col] := maze[row, col] + 1;
        }
      } else {
        if maze[row, col] == 1 || maze[row, col] == 3 {
          maze[row, col] := maze[row, col] - 1;
        }
      }
      return Ok(());
    }

    /**
     * The file-loading constructor: reads the header, allocates the grid and
     * fills it line by line; the maze is titled with the file name.
     */
    static method Load(filename: string, lines: seq<string>) returns (res: Result<Maze, LoadError>)
      ensures res.Err? <==> Parse(lines).Err?
      ensures res.Err? ==> res.error == Parse(lines).error
      ensures res.Ok? ==> fresh(res.value) && fresh(res.value.maze) && res.value.Valid() &&
                          res.value.Snapshot() == Parse(lines).value && res.value.Title() == filename
    {
      var hd := ParseHeader(lines);
      if hd.Err? {
        return Err(hd.error);
      }
      var w, h := hd.value.0, hd.value.1;
      var m := new Maze.Allocate(h, w);
      var cs := ReadCells(lines[1..]);
      ParseOfCells(lines, w, h);
      var filled := m.Fill(cs);
      if filled.Err? {
        return Err(filled.error);
      }
      m.title := filename;
      return Ok(m);
    }

    /**
     * The loop of the file-loading constructor: the line of cell number `i`
     * sets the walls of cell `[i / W, i % W]` of this wall-less maze, until a
     * line is missing or unreadable. The lines come already read by
     * `ParseCell`, which has no effects, so reading them first changes nothing.
     */
    method Fill(cs: seq<Option<Walls>>) returns (res: Result<(), LoadError>)
      requires Valid()
      requires forall r, c :: 0 <= r < rows && 0 <= c < cols ==> maze[r, c] == 0
      modifies maze
      ensures Valid()
      ensures var parsed := ParseCells(cs, cols * rows, 0);
              (res.Err? <==> parsed.Err?) &&
              (res.Err? ==> res.error == CellError(|cs|, cols, parsed.error)) &&
              (res.Ok? ==> Snapshot() == Grid(cols, rows, parsed.value))
    {
      var w, h := cols, rows;
      RowMajor.MulMonotone(0, h, w);
      for i := 0 to w * h
        invariant Valid()
        invariant AllRead(cs, 0, i)
        invariant forall k :: 0 <= k < i ==> cs[k] == Some(CellAt(k))
        invariant forall k :: i <= k < w * h ==> CodeAt(k) == 0
      {
        var cell := ReadCell(cs, w, i);
        if cell.Err? {
          FirstFailure(cs, w * h, i);
          return Err(cell.error);
        }
        SetCell(i, cell.value);
      }
      FilledCells(cs);
      res := Ok(());
    }

    /** Once every cell has been set from its read line, the read lines are exactly the maze's cells. */
    lemma FilledCells(cs: seq<Option<Walls>>)
      requires Valid() && AllRead(cs, 0, cols * rows)
      requires forall k :: 0 <= k < cols * rows ==> cs[k] == Some(CellAt(k))
      ensures ParseCells(cs, cols * rows, 0) == Ok(Snapshot().cells)
    {
      var cells := ParseCells(cs, cols * rows, 0);
      assert Snapshot().cells == cells.value;
    }

    /** The writes of one turn of the loader's loop: `setRight` and `setBot` on cell number `i`. */
    method SetCell(i: int, cell: Walls)
      requires Valid() && 0 <= i < rows * cols
      modifies maze
      ensures Valid() && CellAt(i) == cell
      ensures forall k :: 0 <= k < rows * cols && k != i ==> CodeAt(k) == old(CodeAt(k))
    {
      var col, row := i % cols, i / cols;
      RowMajor.DivBound(i, cols, rows);
      var _ := SetRight(row, col, cell.right);
      var _ := SetBot(row, col, cell.bot);
      forall k | 0 <= k < rows * cols && k != i
        ensures CodeAt(k) == old(CodeAt(k))
      {
        RowMajor.DivBound(k, cols, rows);
        RowMajor.Recompose(k, cols);
        RowMajor.Recompose(i, cols);
      }
    }

    /** The code of cell number `i`. */
    ghost function CodeAt(i: int): int
      reads maze
      requires Valid() && 0 <= i < rows * cols
    {
      RowMajor.DivBound(i, cols, rows);
      maze[i / cols, i % cols]
    }

    /**
     * `save`: the lines it writes, the header and then each cell's walls as
     * `0`/`1` flags; the file name is appended to the title.
     */
    method Save(filename: string) returns (lines: seq<string>)
      requires Valid()
      modifies this
      ensures lines == Serialise(Snapshot())
      ensures Title() == old(Title()) + ":" + filename
    {
      var w, h := Width(), Height();
      var cells := CellLines();
      lines := [Join(["maze", NatStr(w), NatStr(h)])] + cells;
      title := title + ":" + filename;
    }

    /** The cell lines of `save`: rows outer, columns inner, each cell's walls as `0`/`1` flags. */
    method CellLines() returns (lines: seq<string>)
      requires Valid()
      ensures |lines| == |Snapshot().cells| && forall k :: 0 <= k < |lines| ==> lines[k] == CellLine(Snapshot().cells[k])
    {
      var w, h := Width(), Height();
      ghost var cells := Snapshot().cells;
      lines := [];
      for row := 0 to h
        invariant |lines| == row * w && |lines| <= |cells|
        invariant forall k :: 0 <= k < |lines| ==> lines[k] == CellLine(cells[k])
      {
        for col := 0 to w
          invariant |lines| == row * w + col && |lines| <= |cells|
          invariant forall k :: 0 <= k < |lines| ==> lines[k] == CellLine(cells[k])
        {
          var right := GetRight(row, col);
          var bot := GetBot(row, col);
          var r := if right.value then 1 else 0;
          var b := if bot.value then 1 else 0;
          RowMajor.Bound(row, col, w, h);
          CellLineOf(At(Snapshot(), row, col), r, b);
          lines := lines + [Join([NatStr(r), NatStr(b)])];
        }
        assert (row + 1) * w == row * w + w;
      }
    }
  }

  /**
   * One turn of the loader's checks: the walls read for cell number `i` of a
   * maze `w` wide, or the error naming its `[row, col]` when its line is
   * missing or unreadable.
   */
  method ReadCell(cs: seq<Option<Walls>>, w: nat, i: nat) returns (res: Result<Walls, LoadError>)
    requires w >= 1
    ensures res.Ok? <==> i < |cs| && cs[i].Some?
    ensures res.Ok? ==> res.value == cs[i].value
    ensures res.Err? ==> res.error == CellError(|cs|, w, i)
  {
    var col, row := i % w, i / w;
    if i >= |cs| {
      return Err(MissingCells(row, col));
    }
    var cell := cs[i];
    if cell.None? {
      return Err(BadCell(row, col));
    }
    return Ok(cell.value);
  }

  /** The line `save` prints for a cell whose walls it has read as the flags `r` and `b`. */
  lemma CellLineOf(c: Walls, r: int, b: int)
    requires r == (if c.right then 1 else 0) && b == (if c.bot then 1 else 0)
    ensures CellLine(c) == Join([NatStr(r), NatStr(b)])
  {
  }

  /** Saving a maze and loading the lines written gives a maze with the same walls. */
  method SaveThenLoad(m: Maze, filename: string) returns (copy: Maze)
    requires m.Valid()
    modifies m
    ensures copy.Valid() && copy.Snapshot() == m.Snapshot()
    ensures copy.Height() == m.Height() && copy.Width() == m.Width()
    ensures forall r, c :: copy.GetRight(r, c) == m.GetRight(r, c) && copy.GetBot(r, c) == m.GetBot(r, c)
  {
    var lines := m.Save(filename);
    LoadSaveRoundTrip(m.Snapshot());
    var loaded := Maze.Load(filename, lines);
    copy := loaded.value;
    SameWalls(copy, m);
  }

  /** Two mazes with the same snapshot answer every wall query alike. */
  lemma SameWalls(a: Maze, b: Maze)
    requires a.Valid() && b.Valid() && a.Snapshot() == b.Snapshot()
    ensures a.Height() == b.Height() && a.Width() == b.Width()
    ensures forall r, c :: a.GetRight(r, c) == b.GetRight(r, c) && a.GetBot(r, c) == b.GetBot(r, c)
  {
  }
}
