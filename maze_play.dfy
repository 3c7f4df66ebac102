/**
 * The drawing state that `MazePlay.java` keeps beside a `Maze`: the walls
 * copied into two flat arrays indexed by cell number `row * w + col`, with the
 * outer border forced closed except for the exit at the bottom-right corner,
 * and a colour per cell that records the solver's traversal state together
 * with the counts of forward and backward steps.
 */
module MazeDisplay {
  import opened Results
  import RowMajor
  import MazeGrid

  /** The traversal states: empty (unvisited), forward, backward. */
  const E := 0
  const F := 1
  const B := 2

  /** The colour a cell is drawn in; it doubles as the cell's traversal state. */
  datatype Colour = White | Green | Red

  /** `getState`: green is forward, red is backward, anything else is empty. */
  function StateOf(c: Colour): (v: int)
    ensures v == E || v == F || v == B
    ensures v == E <==> c == White
  {
    match c
    case Green => F
    case Red => B
    case White => E
  }

  /** The colour `setState` paints for state `v`; none for a state it does not know. */
  function ColourFor(v: int): (r: Option<Colour>)
    ensures r.Some? <==> v == E || v == F || v == B
    ensures r.Some? ==> StateOf(r.value) == v
  {
    if v == F then Some(Green)
    else if v == B then Some(Red)
    else if v == E then Some(White)
    else None
  }

  /** Painting a cell the colour of its own state paints it the same colour. */
  lemma ColourForState(c: Colour)
    ensures ColourFor(StateOf(c)) == Some(c)
  {
  }

  /**
   * The right walls as `fixCellBorders` leaves them: the last cell of every
   * row closed, except the very last cell, which is the exit.
   */
  function FixRight(right: seq<bool>, w: nat, h: nat): (r: seq<bool>)
    requires |right| == w * h
    ensures |r| == |right|
  {
    seq(|right|, k requires 0 <= k < |right| =>
      if k == w * h - 1 then false else if k % w == w - 1 then true else right[k])
  }

  /** The bottom walls as `fixCellBorders` leaves them: every cell of the last row closed. */
  function FixBot(bot: seq<bool>, w: nat, h: nat): (r: seq<bool>)
    requires |bot| == w * h
    ensures |r| == |bot|
  {
    seq(|bot|, k requires 0 <= k < |bot| => if k >= w * (h - 1) then true else bot[k])
  }

  /**
   * The right walls after the turns `1 .. n - 1` of the first loop of
   * `fixCellBorders`: the last cells of rows `0 .. n - 2` closed, nothing
   * else changed.
   */
  function CloseRows(right: seq<bool>, w: nat, n: nat): (r: seq<bool>)
    requires w >= 1 && n >= 1 && (n - 1) * w <= |right|
    ensures |r| == |right|
    ensures forall k :: 0 <= k < |right| ==> r[k] == if k % w == w - 1 && k / w < n - 1 then true else right[k]
    decreases n
  {
    if n == 1 then right
    else
      RowMajor.MulMonotone(n - 2, n - 1, w);
      RowMajor.MulMonotone(1, n - 1, w);
      var r := CloseRows(right, w, n - 1)[(n - 1) * w - 1 := true];
      assert forall k :: 0 <= k < |right| ==> r[k] == if k % w == w - 1 && k / w < n - 1 then true else right[k] by {
        forall k | 0 <= k < |right|
          ensures r[k] == if k % w == w - 1 && k / w < n - 1 then true else right[k]
        {
          RowMajor.SameCell(n - 2, w - 1, k, w);
          assert (n - 2) * w + (w - 1) == (n - 1) * w - 1;
        }
      }
      r
  }

  /** The last cell of row `i - 1`, for `1 <= i < h`, is a cell and not the exit. */
  lemma RowEnd(i: int, w: nat, h: nat)
    requires 1 <= i < h && w >= 1
    ensures 0 <= i * w - 1 < w * h - 1 && i * w <= w * h
  {
    RowMajor.MulMonotone(i + 1, h, w);
    RowMajor.MulMonotone(1, i, w);
  }

  /** The whole first loop, then the opening of the exit, is `FixRight`. */
  lemma CloseRowsThenExit(right: seq<bool>, w: nat, h: nat)
    requires w >= 1 && h >= 1 && |right| == w * h
    ensures CloseRows(right, w, h)[w * h - 1 := false] == FixRight(right, w, h)
  {
    RowMajor.MulMonotone(h - 1, h, w);
    forall k | 0 <= k < w * h
      ensures CloseRows(right, w, h)[w * h - 1 := false][k] == FixRight(right, w, h)[k]
    {
      RowMajor.DivBound(k, w, h);
      RowMajor.SameCell(h - 1, w - 1, k, w);
    }
  }

  /** Walls that `fixCellBorders` would not change. */
  predicate Bordered(right: seq<bool>, bot: seq<bool>, w: nat, h: nat) {
    |right| == w * h && |bot| == w * h && FixRight(right, w, h) == right && FixBot(bot, w, h) == bot
  }

  /** Fixing the borders twice is fixing them once. */
  lemma FixIdempotent(right: seq<bool>, bot: seq<bool>, w: nat, h: nat)
    requires |right| == w * h && |bot| == w * h
    ensures Bordered(FixRight(right, w, h), FixBot(bot, w, h), w, h)
  {
    var r := FixRight(right, w, h);
    assert FixRight(r, w, h) == r;
  }

  /**
   * The right wall of cell `[row, col]` after the borders are fixed: open at
   * the exit, closed elsewhere in the last column, as it was everywhere else.
   */
  lemma FixedRightAt(right: seq<bool>, w: nat, h: nat, row: int, col: int)
    requires |right| == w * h && 0 <= row < h && 0 <= col < w
    ensures 0 <= row * w + col < w * h
    ensures FixRight(right, w, h)[row * w + col] ==
              if row == h - 1 && col == w - 1 then false
              else if col == w - 1 then true
              else right[row * w + col]
  {
    var k := row * w + col;
    RowMajor.Bound(row, col, w, h);
    RowMajor.Split(row, col, w);
    RowMajor.SameCell(h - 1, w - 1, k, w);
    assert (h - 1) * w + (w - 1) == w * h - 1;
  }

  /** The bottom wall of cell `[row, col]` after the borders are fixed: closed in the last row, as it was elsewhere. */
  lemma FixedBotAt(bot: seq<bool>, w: nat, h: nat, row: int, col: int)
    requires |bot| == w * h && 0 <= row < h && 0 <= col < w
    ensures 0 <= row * w + col < w * h
    ensures FixBot(bot, w, h)[row * w + col] == (row == h - 1 || bot[row * w + col])
  {
    var k := row * w + col;
    RowMajor.Bound(row, col, w, h);
    assert w * (h - 1) == (h - 1) * w;
    if row < h - 1 {
      RowMajor.MulMonotone(row + 1, h - 1, w);
      assert k < (row + 1) * w;
    } else {
      assert k == (h - 1) * w + col;
    }
  }

  /** The steps counted so far and the colours of the cells: the part of the display `setState` updates. */
  datatype Board = Board(colour: seq<Colour>, fw: int, bk: int)

  /**
   * `setState` on cell `c`: paint it the colour of state `v` if that is a
   * known state and not its colour already, counting a forward or backward
   * step; the flag says whether the cell changed.
   */
  function Paint(d: Board, c: nat, v: int): (r: (Board, bool))
    requires c < |d.colour|
    ensures |r.0.colour| == |d.colour| && forall k :: 0 <= k < |d.colour| && k != c ==> r.0.colour[k] == d.colour[k]
    ensures r.1 <==> (v == E || v == F || v == B) && StateOf(d.colour[c]) != v
    ensures r.1 ==> StateOf(r.0.colour[c]) == v
    ensures !r.1 ==> r.0 == d
    ensures r.0.fw == d.fw + (if r.1 && v == F then 1 else 0)
    ensures r.0.bk == d.bk + (if r.1 && v == B then 1 else 0)
  {
    var nc := ColourFor(v);
    if nc.Some? && d.colour[c] != nc.value then
      ColourForState(d.colour[c]);
      (Board(d.colour[c := nc.value], d.fw + (if v == F then 1 else 0), d.bk + (if v == B then 1 else 0)), true)
    else
      ColourForState(d.colour[c]);
      (d, false)
  }

  /** After painting a cell for a known state, the cell is in that state, and painting it again changes nothing. */
  lemma PaintTwice(d: Board, c: nat, v: int)
    requires c < |d.colour| && (v == E || v == F || v == B)
    ensures StateOf(Paint(d, c, v).0.colour[c]) == v
    ensures Paint(Paint(d, c, v).0, c, v) == (Paint(d, c, v).0, false)
  {
  }

  /** The cells a solver has been through: everything not white. */
  lemma PaintVisits(d: Board, c: nat, v: int)
    requires c < |d.colour| && (v == F || v == B)
    ensures Paint(d, c, v).0.colour[c] != White
  {
  }

  class MazePlay {
    /** The maze displayed. */
    const maze: MazeGrid.Maze
    /** The width and height of the maze. */
    const w: nat
    const h: nat
    /** The right and bottom walls of the cells, by cell number. */
    const right: array<bool>
    const bot: array<bool>
    /** The colour, and so the traversal state, of each cell. */
    const color: array<Colour>
    /** The numbers of forward and backward steps. */
    var fw: int
    var bk: int

    /** Three arrays of one entry per cell. */
    ghost predicate Shaped() {
      w >= 1 && h >= 1 && right.Length == w * h && bot.Length == w * h && color.Length == w * h && right != bot
    }

    ghost predicate Valid()
      reads right, bot
    {
      Shaped() && Bordered(right[..], bot[..], w, h)
    }

    /** The colours and counters as a value. */
    ghost function Current(): Board
      reads this, color
    {
      Board(color[..], fw, bk)
    }

    /** `onedim`: the number of cell `[row, col]`, or an index error outside the grid. */
    function OneDim(row: int, col: int): (r: Result<int, IndexError>)
      ensures r.Ok? <==> 0 <= row < h && 0 <= col < w
      ensures r.Ok? ==> 0 <= r.value < w * h && r.value == row * w + col
    {
      if col < 0 || col >= w || row < 0 || row >= h then Err(IndexOutOfBounds)
      else
        RowMajor.Bound(row, col, w, h);
        Ok(row * w + col)
    }

    /** `twodimcol`: the column of cell number `c`. */
    function TwoDimCol(c: int): (r: Result<int, IndexError>)
      ensures r.Ok? <==> 0 <= c < w * h
      ensures r.Ok? ==> 0 <= r.value < w
    {
      if c < 0 || c >= w * h then Err(IndexOutOfBounds)
      else
        RowMajor.DivBound(c, w, h);
        Ok(c % w)
    }

    /** `twodimrow`: the row of cell number `c`. */
    function TwoDimRow(c: int): (r: Result<int, IndexError>)
      ensures r.Ok? <==> 0 <= c < w * h
      ensures r.Ok? ==> 0 <= r.value < h
    {
      if c < 0 || c >= w * h then Err(IndexOutOfBounds)
      else
        RowMajor.DivBound(c, w, h);
        Ok(c / w)
    }

    /** Row and column of a cell number give the number back. */
    lemma TwoDimThenOneDim(c: int)
      requires 0 <= c < w * h
      ensures OneDim(TwoDimRow(c).value, TwoDimCol(c).value) == Ok(c)
    {
      RowMajor.Recompose(c, w);
    }

    /** The number of a cell gives its row and column back. */
    lemma OneDimThenTwoDim(row: int, col: int)
      requires 0 <= row < h && 0 <= col < w
      ensures TwoDimRow(OneDim(row, col).value) == Ok(row) && TwoDimCol(OneDim(row, col).value) == Ok(col)
    {
      RowMajor.Split(row, col, w);
    }

    /** `fixCellBorders`: close the outer walls, except the right wall of the exit cell. */
    method FixCellBorders()
      requires Shaped()
      modifies right, bot
      ensures right[..] == FixRight(old(right[..]), w, h) && bot[..] == FixBot(old(bot[..]), w, h)
    {
      CloseRightColumn();
      CloseBottomRow();
    }

    /** The first two steps of `fixCellBorders`: close the last cell of each row but the last, then open the exit. */
    method CloseRightColumn()
      requires Shaped()
      modifies right
      ensures right[..] == FixRight(old(right[..]), w, h)
    {
      ghost var right0 := right[..];
      for i := 1 to h
        invariant right[..] == CloseRows(right0, w, i)
      {
        RowEnd(i, w, h);
        right[i * w - 1] := true;
      }
      if w * h > 0 {
        right[w * h - 1] := false;
      }
      CloseRowsThenExit(right0, w, h);
    }

    /** The last step of `fixCellBorders`: close the bottom of every cell of the last row. */
    method CloseBottomRow()
      requires Shaped()
      modifies bot
      ensures bot[..] == FixBot(old(bot[..]), w, h)
    {
      ghost var bot0 := bot[..];
      RowMajor.MulMonotone(h - 1, h, w);
      assert (h - 1) * w == w * (h - 1);
      for i := w * (h - 1) to w * h
        invariant forall k :: 0 <= k < w * h ==> bot[k] == if w * (h - 1) <= k < i then true else bot0[k]
      {
        bot[i] := true;
      }
      assert bot[..] == FixBot(bot0, w, h);
    }

    /** `getRight(int)`: the right wall of cell number `c`. */
    function GetRightAt(c: int): (r: Result<bool, IndexError>)
      reads right
      ensures r.Ok? <==> 0 <= c < right.Length
      ensures r.Ok? ==> r.value == right[c]
    {
      if 0 <= c < right.Length then Ok(right[c]) else Err(IndexOutOfBounds)
    }

    /** `getRight(int, int)`: the right wall of cell `[row, col]`. */
    function GetRight(row: int, col: int): (r: Result<bool, IndexError>)
      reads right
      requires Shaped()
      ensures r.Ok? <==> 0 <= row < h && 0 <= col < w
      ensures r.Ok? ==> r.value == right[OneDim(row, col).value]
    {
      var c := OneDim(row, col);
      if c.Err? then Err(c.error) else GetRightAt(c.value)
    }

    /** `getBot(int)`: the bottom wall of cell number `c`. */
    function GetBotAt(c: int): (r: Result<bool, IndexError>)
      reads bot
      ensures r.Ok? <==> 0 <= c < bot.Length
      ensures r.Ok? ==> r.value == bot[c]
    {
      if 0 <= c < bot.Length then Ok(bot[c]) else Err(IndexOutOfBounds)
    }

    /** `getBot(int, int)`: the bottom wall of cell `[row, col]`. */
    function GetBot(row: int, col: int): (r: Result<bool, IndexError>)
      reads bot
      requires Shaped()
      ensures r.Ok? <==> 0 <= row < h && 0 <= col < w
      ensures r.Ok? ==> r.value == bot[OneDim(row, col).value]
    {
      var c := OneDim(row, col);
      if c.Err? then Err(c.error) else GetBotAt(c.value)
    }

    /**
     * The outer walls as the display shows them: the right wall closed down
     * the last column except at the exit in the bottom-right corner, and the
     * bottom wall closed along the last row.
     */
    lemma OuterWalls(row: int, col: int)
      requires Valid() && 0 <= row < h && 0 <= col < w
      ensures col == w - 1 ==> GetRight(row, col) == Ok(row != h - 1)
      ensures row == h - 1 ==> GetBot(row, col) == Ok(true)
    {
      FixedRightAt(right[..], w, h, row, col);
      FixedBotAt(bot[..], w, h, row, col);
      var k := row * w + col;
      assert right[k] == FixRight(right[..], w, h)[k];
      assert bot[k] == FixBot(bot[..], w, h)[k];
    }

    /** `getState(int)`: the traversal state of cell number `c`. */
    function GetStateAt(c: int): (r: Result<int, IndexError>)
      reads color
      ensures r.Ok? <==> 0 <= c < color.Length
      ensures r.Ok? ==> (r.value == E || r.value == F || r.value == B) && ColourFor(r.value) == Some(color[c])
    {
      if 0 <= c < color.Length then
        ColourForState(color[c]);
        Ok(StateOf(color[c]))
      else Err(IndexOutOfBounds)
    }

    /** `getState(int, int)`: the traversal state of cell `[row, col]`. */
    function GetState(row: int, col: int): (r: Result<int, IndexError>)
      reads color
      requires Shaped()
      ensures r.Ok? <==> 0 <= row < h && 0 <= col < w
      ensures r.Ok? ==> r.value == StateOf(color[OneDim(row, col).value])
    {
      var c := OneDim(row, col);
      if c.Err? then Err(c.error) else GetStateAt(c.value)
    }

    /** `visited(int)`: whether cell number `c` is in a state other than empty. */
    function VisitedAt(c: int): (r: Result<bool, IndexError>)
      reads color
      ensures r.Ok? <==> 0 <= c < color.Length
      ensures r.Ok? ==> r.value == (color[c] != White)
    {
      var s := GetStateAt(c);
      if s.Err? then Err(s.error) else Ok(if s.value == E then false else true)
    }

    /** `visited(int, int)`: shorthand for the state of cell `[row, col]` not being empty. */
    function Visited(row: int, col: int): (r: Result<bool, IndexError>)
      reads color
      requires Shaped()
      ensures r.Ok? <==> GetState(row, col).Ok?
      ensures r.Ok? ==> r.value == (GetState(row, col).value != E)
    {
      var c := OneDim(row, col);
      if c.Err? then Err(c.error) else VisitedAt(c.value)
    }

    /** `setRight(int, boolean)`: write the right wall of cell number `c`, then fix the borders again. */
    method SetRightAt(c: int, b: bool) returns (res: Result<(), IndexError>)
      requires Valid()
      modifies right, bot
      ensures Valid()
      ensures res.Ok? <==> 0 <= c < w * h
      ensures res.Ok? ==> right[..] == FixRight(old(right[..])[c := b], w, h)
      ensures res.Err? ==> right[..] == old(right[..])
      ensures bot[..] == old(bot[..])
    {
      if c < 0 || c >= right.Length {
        return Err(IndexOutOfBounds);
      }
      right[c] := b;
      FixCellBorders();
      FixIdempotent(old(right[..])[c := b], bot[..], w, h);
      res := Ok(());
    }

    /** `setRight(int, int, boolean)`. */
    method SetRight(row: int, col: int, b: bool) returns (res: Result<(), IndexError>)
      requires Valid()
      modifies right, bot
      ensures Valid()
      ensures res.Ok? <==> 0 <= row < h && 0 <= col < w
      ensures res.Ok? ==> right[..] == FixRight(old(right[..])[OneDim(row, col).value := b], w, h)
      ensures res.Err? ==> right[..] == old(right[..])
      ensures bot[..] == old(bot[..])
    {
      var c := OneDim(row, col);
      if c.Err? {
        return Err(c.error);
      }
      res := SetRightAt(c.value, b);
    }

    /** `setBot(int, boolean)`: write the bottom wall of cell number `c`, then fix the borders again. */
    method SetBotAt(c: int, b: bool) returns (res: Result<(), IndexError>)
      requires Valid()
      modifies right, bot
      ensures Valid()
      ensures res.Ok? <==> 0 <= c < w * h
      ensures res.Ok? ==> bot[..] == FixBot(old(bot[..])[c := b], w, h)
      ensures res.Err? ==> bot[..] == old(bot[..])
      ensures right[..] == old(right[..])
    {
      if c < 0 || c >= bot.Length {
        return Err(IndexOutOfBounds);
      }
      bot[c] := b;
      FixCellBorders();
      FixIdempotent(right[..], old(bot[..])[c := b], w, h);
      res := Ok(());
    }

    /** `setBot(int, int, boolean)`. */
    method SetBot(row: int, col: int, b: bool) returns (res: Result<(), IndexError>)
      requires Valid()
      modifies right, bot
      ensures Valid()
      ensures res.Ok? <==> 0 <= row < h && 0 <= col < w
      ensures res.Ok? ==> bot[..] == FixBot(old(bot[..])[OneDim(row, col).value := b], w, h)
      ensures res.Err? ==> bot[..] == old(bot[..])
      ensures right[..] == old(right[..])
    {
      var c := OneDim(row, col);
      if c.Err? {
        return Err(c.error);
      }
      res := SetBotAt(c.value, b);
    }

    /**
     * `setState(int, int)`, without the wait for the solver thread and the
     * redrawing: paint cell number `c` for state `v` and count the step.
     */
    method SetStateAt(c: int, v: int) returns (res: Result<bool, IndexError>)
      modifies this, color
      ensures res.Ok? <==> 0 <= c < color.Length
      ensures res.Ok? ==> (Current(), res.value) == Paint(old(Current()), c, v)
      ensures res.Err? ==> Current() == old(Current())
    {
      if c < 0 || c >= color.Length {
        return Err(IndexOutOfBounds);
      }
      var changed := false;
      if v == F {
        if color[c] != Green {
          color[c] := Green;
          fw := fw + 1;
          changed := true;
        }
      } else if v == B {
        if color[c] != Red {
          color[c] := Red;
          bk := bk + 1;
          changed := true;
        }
      } else if v == E {
        if color[c] != White {
          color[c] := White;
          changed := true;
        }
      }
      res := Ok(changed);
    }

    /** `setState(int, int, int)`. */
    method SetState(row: int, col: int, v: int) returns (res: Result<bool, IndexError>)
      requires Shaped()
      modifies this, color
      ensures res.Ok? <==> 0 <= row < h && 0 <= col < w
      ensures res.Ok? ==> (Current(), res.value) == Paint(old(Current()), OneDim(row, col).value, v)
      ensures res.Err? ==> Current() == old(Current())
    {
      var c := OneDim(row, col);
      if c.Err? {
        return Err(c.error);
      }
      res := SetStateAt(c.value, v);
    }

    /** The loop of the constructor: every cell's walls from the maze, and every cell empty. */
    method CopyCells(m: MazeGrid.Maze)
      requires Shaped() && m.Valid() && w == m.Width() && h == m.Height()
      modifies right, bot, color
      ensures right[..] == Rights(m.Snapshot()) && bot[..] == Bots(m.Snapshot())
      ensures forall k :: 0 <= k < color.Length ==> color[k] == White
    {
      ghost var g := m.Snapshot();
      for i := 0 to w * h
        invariant forall k :: 0 <= k < i ==> right[k] == g.cells[k].right && bot[k] == g.cells[k].bot
        invariant forall k :: 0 <= k < i ==> color[k] == White
      {
        var row, col := TwoDimRow(i).value, TwoDimCol(i).value;
        m.WallsOfCell(i);
        right[i] := m.GetRight(row, col).value;
        bot[i] := m.GetBot(row, col).value;
        color[i] := White;
      }
      assert right[..] == Rights(g) && bot[..] == Bots(g);
    }

    /**
     * The constructor from a maze: copy its walls cell by cell, fix the
     * borders, make every cell empty and start both counts at zero.
     */
    constructor (m: MazeGrid.Maze)
      requires m.Valid()
      ensures Valid() && maze == m && w == m.Width() && h == m.Height()
      ensures right[..] == FixRight(Rights(m.Snapshot()), w, h) && bot[..] == FixBot(Bots(m.Snapshot()), w, h)
      ensures forall k :: 0 <= k < color.Length ==> color[k] == White
      ensures fw == 0 && bk == 0
      ensures fresh(right) && fresh(bot) && fresh(color)
    {
      maze := m;
      w := m.Width();
      h := m.Height();
      right := new bool[m.Width() * m.Height()];
      bot := new bool[m.Width() * m.Height()];
      color := new Colour[m.Width() * m.Height()];
      new;
      CopyCells(m);
      FixCellBorders();
      FixIdempotent(Rights(m.Snapshot()), Bots(m.Snapshot()), w, h);
      fw := 0;
      bk := 0;
    }
  }

  /** The right walls of a grid's cells in row-major order. */
  function Rights(g: MazeGrid.Grid): (r: seq<bool>)
    requires MazeGrid.WellFormed(g)
    ensures |r| == g.width * g.height && forall k :: 0 <= k < |r| ==> r[k] == g.cells[k].right
  {
    seq(|g.cells|, k requires 0 <= k < |g.cells| => g.cells[k].right)
  }

  /** The bottom walls of a grid's cells in row-major order. */
  function Bots(g: MazeGrid.Grid): (r: seq<bool>)
    requires MazeGrid.WellFormed(g)
    ensures |r| == g.width * g.height && forall k :: 0 <= k < |r| ==> r[k] == g.cells[k].bot
  {
    seq(|g.cells|, k requires 0 <= k < |g.cells| => g.cells[k].bot)
  }
}
