// The playing field: a fixed Width x Height grid of cells with row 0 at the
// bottom, stored top row first (row y lives at index Height - 1 - y). Every
// operation updates the grid in place, row by row or cell by cell.

module Boards {
  import opened Geometry
  import opened Wrappers
  import opened Pieces

  type Dim = n: nat | n >= 2 witness 2

  /** The board's dimensions are compile-time constants of the Board class;
      their values are not part of this model, only that each is at least 2. */
  const Width: Dim
  const Height: Dim

  /** A column a penalty row may leave empty. */
  type GapColumn = x: nat | x < Width witness 0

  /** The colour of the blocks of penalty rows (its value is not part of
      this model). */
  const PenaltyBlocksColorId: nat

  /** A grid cell: empty, or occupied by a block of some colour. */
  datatype Cell = Empty | Filled(colorId: nat)

  type Row = seq<Cell>

  // ---------------------------------------------------------------------
  // Rows and grids as values

  function BlankRow(): (r: Row)
    ensures |r| == Width && IsEmptyRow(r)
  {
    seq(Width, _ => Empty)
  }

  predicate IsFullRow(r: Row) { forall x :: 0 <= x < |r| ==> r[x].Filled? }

  predicate IsEmptyRow(r: Row) { forall x :: 0 <= x < |r| ==> r[x] == Empty }

  /** A grid of Height rows of Width cells each. */
  ghost predicate WellFormed(rows: seq<Row>)
  {
    |rows| == Height && forall y :: 0 <= y < |rows| ==> |rows[y]| == Width
  }

  /** The rows in the other vertical order (storage order to bottom-up order
      and back). */
  function Flip(s: seq<Row>): (r: seq<Row>)
    ensures |r| == |s| && forall i :: 0 <= i < |s| ==> r[i] == s[|s| - 1 - i]
  {
    seq(|s|, i requires 0 <= i < |s| => s[|s| - 1 - i])
  }

  lemma GridExt(a: seq<Row>, b: seq<Row>)
    requires WellFormed(a) && WellFormed(b)
    requires forall y, x :: 0 <= y < Height && 0 <= x < Width ==> a[y][x] == b[y][x]
    ensures a == b
  {
    forall y | 0 <= y < Height ensures a[y] == b[y] {
      assert forall x :: 0 <= x < Width ==> a[y][x] == b[y][x];
    }
  }

  predicate InBounds(v: Vec2)
  {
    0 <= v.x < Width && 0 <= v.y < Height
  }

  /** The cell at `v` exists and is empty. */
  ghost predicate Free(rows: seq<Row>, v: Vec2)
    requires WellFormed(rows)
  {
    InBounds(v) && rows[v.y][v.x] == Empty
  }

  /** Every cell of the piece is on the board and empty. */
  ghost predicate Fits(rows: seq<Row>, p: Piece)
    requires WellFormed(rows)
  {
    forall i :: 0 <= i < |p.body| ==> Free(rows, CellAt(p, i))
  }

  ghost predicate AllInBounds(p: Piece)
  {
    forall i :: 0 <= i < |p.body| ==> InBounds(CellAt(p, i))
  }

  /** Cell `v` is one of the first `k` body cells of `p`. */
  ghost predicate Covers(p: Piece, k: nat, v: Vec2)
    requires k <= |p.body|
  {
    exists i :: 0 <= i < k && CellAt(p, i) == v
  }

  /** The grid with the first `k` body cells of `p` coloured with the
      piece's colour and every other cell as it was. */
  ghost function StampFirst(rows: seq<Row>, p: Piece, k: nat): (r: seq<Row>)
    requires WellFormed(rows) && k <= |p.body|
    ensures WellFormed(r)
    ensures forall y, x :: 0 <= y < Height && 0 <= x < Width ==>
              r[y][x] == if Covers(p, k, Vec2(x, y)) then Filled(p.shape.Ordinal()) else rows[y][x]
  {
    seq(Height, y requires 0 <= y < Height =>
      seq(Width, x requires 0 <= x < Width =>
        if Covers(p, k, Vec2(x, y)) then Filled(p.shape.Ordinal()) else rows[y][x]))
  }

  /** The grid after `placeTetromino(p)`. */
  ghost function Stamp(rows: seq<Row>, p: Piece): seq<Row>
    requires WellFormed(rows)
  {
    StampFirst(rows, p, |p.body|)
  }

  /** A penalty row: every cell holds a penalty block except the gap. */
  function PenaltyRow(gap: GapColumn): (r: Row)
    ensures |r| == Width
  {
    seq(Width, x requires 0 <= x < Width => if x == gap then Empty else Filled(PenaltyBlocksColorId))
  }

  /** The grid after `dropRowsAbove(y)`: row y is overwritten by the rows
      above it, which all move down one, and the top row becomes empty. */
  ghost function DroppedAbove(rows: seq<Row>, y: nat): (r: seq<Row>)
    requires WellFormed(rows) && y < Height
    ensures WellFormed(r)
    ensures forall i :: 0 <= i < Height ==>
              r[i] == if i < y then rows[i] else if i < Height - 1 then rows[i + 1] else BlankRow()
  {
    rows[..y] + rows[y + 1..] + [BlankRow()]
  }

  /** One pass of the lifting loop of `liftRowsFrom(y, _)`: every row above
      y takes the row below it; rows up to y keep theirs. */
  ghost function LiftedOnce(rows: seq<Row>, y: nat): (r: seq<Row>)
    requires WellFormed(rows) && y < Height
    ensures WellFormed(r)
  {
    seq(Height, i requires 0 <= i < Height => if i > y then rows[i - 1] else rows[i])
  }

  /** The grid after `k` passes of the lifting loop. */
  ghost function LiftedPasses(rows: seq<Row>, y: nat, k: nat): (r: seq<Row>)
    requires WellFormed(rows) && y < Height
    ensures WellFormed(r)
  {
    if k == 0 then rows else LiftedOnce(LiftedPasses(rows, y, k - 1), y)
  }

  /** The grid after `liftRowsFrom(y, n)`. */
  ghost function LiftedFrom(rows: seq<Row>, y: nat, n: nat): (r: seq<Row>)
    requires WellFormed(rows) && y < Height
    ensures WellFormed(r)
  {
    LiftedPasses(rows, y, n)[y := BlankRow()]
  }

  /** The grid after a successful `receivePenaltyRows`: the old rows pushed
      up by the number of gaps (those pushed past the top are lost) and one
      penalty row per gap at the bottom, gap i in row i. */
  ghost function WithPenaltyRows(rows: seq<Row>, gaps: seq<GapColumn>): (r: seq<Row>)
    requires WellFormed(rows) && |gaps| <= Height
    ensures WellFormed(r)
  {
    seq(Height, i requires 0 <= i < Height =>
      if i < |gaps| then PenaltyRow(gaps[i]) else rows[i - |gaps|])
  }

  /** The rows that are not full, in their original order. */
  function NonFull(rows: seq<Row>): (r: seq<Row>)
    ensures |r| <= |rows|
    ensures forall i :: 0 <= i < |r| ==> !IsFullRow(r[i]) && r[i] in rows
  {
    if rows == [] then []
    else (if IsFullRow(rows[0]) then [] else [rows[0]]) + NonFull(rows[1..])
  }

  /** The number of full rows. */
  function CountFull(rows: seq<Row>): (n: nat)
    ensures n == |rows| - |NonFull(rows)|
  {
    if rows == [] then 0
    else (if IsFullRow(rows[0]) then 1 else 0) + CountFull(rows[1..])
  }

  function BlankRows(n: nat): (r: seq<Row>)
    ensures |r| == n && forall i :: 0 <= i < n ==> r[i] == BlankRow()
  {
    seq(n, _ => BlankRow())
  }

  /** The grid after `update()`: the rows that were not full, compacted
      downward in their order, then empty rows up to the top. */
  function Cleared(rows: seq<Row>): (r: seq<Row>)
    ensures |r| == |rows|
  {
    NonFull(rows) + BlankRows(CountFull(rows))
  }

  /** Column x of the grid, bottom cell first. */
  function Column(rows: seq<Row>, x: nat): (c: seq<Cell>)
    requires forall y :: 0 <= y < |rows| ==> x < |rows[y]|
    ensures |c| == |rows| && forall y :: 0 <= y < |rows| ==> c[y] == rows[y][x]
  {
    seq(|rows|, y requires 0 <= y < |rows| => rows[y][x])
  }

  /** The occupied cells of a column, bottom first. */
  function Occupied(col: seq<Cell>): (r: seq<Cell>)
    ensures |r| <= |col| && forall i :: 0 <= i < |r| ==> r[i].Filled?
  {
    if col == [] then []
    else (if col[0].Filled? then [col[0]] else []) + Occupied(col[1..])
  }

  /** A column after gravity: its occupied cells at the bottom, in order,
      then empty cells. */
  function Settled(col: seq<Cell>): (r: seq<Cell>)
    ensures |r| == |col|
  {
    Occupied(col) + seq(|col| - |Occupied(col)|, _ => Empty)
  }

  /** The four cells of the 2x2 square with lower-left corner (x, y) are occupied. */
  ghost predicate Occupied2By2(rows: seq<Row>, x: nat, y: nat)
    requires WellFormed(rows) && x < Width - 1 && y < Height - 1
  {
    rows[y][x].Filled? && rows[y + 1][x].Filled? && rows[y][x + 1].Filled? && rows[y + 1][x + 1].Filled?
  }

  /** Lies in the 2x2 square with lower-left corner (x, y). */
  predicate InSquare(x: nat, y: nat, i: int, j: int)
  {
    x <= i <= x + 1 && y <= j <= y + 1
  }

  /** The grid with the 2x2 square at (x, y) emptied. */
  ghost function Emptied2By2(rows: seq<Row>, x: nat, y: nat): (r: seq<Row>)
    requires WellFormed(rows) && x < Width - 1 && y < Height - 1
    ensures WellFormed(r)
    ensures forall j, i :: 0 <= j < Height && 0 <= i < Width ==>
              r[j][i] == if InSquare(x, y, i, j) then Empty else rows[j][i]
  {
    seq(Height, j requires 0 <= j < Height =>
      seq(Width, i requires 0 <= i < Width => if InSquare(x, y, i, j) then Empty else rows[j][i]))
  }

  /** The square visited at step (yOffset, xOffset) of the scan from (sx, sy). */
  function ScanX(sx: nat, xo: nat): (x: nat)
    ensures x < Width - 1
  {
    (sx + xo) % (Width - 1)
  }

  function ScanY(sy: nat, yo: nat): (y: nat)
    ensures y < Height - 1
  {
    (sy + yo) % (Height - 1)
  }

  /** The first fully occupied 2x2 square met by the scan of
      `destroy2By2Occupied` from step (yo, xo) on: offsets row by row,
      coordinates wrapping modulo Width - 1 and Height - 1. */
  ghost function ScanFrom(rows: seq<Row>, sx: nat, sy: nat, yo: nat, xo: nat): Option<(nat, nat)>
    requires WellFormed(rows) && yo <= Height - 1 && xo <= Width - 1
    decreases Height - 1 - yo, Width - 1 - xo
  {
    if yo == Height - 1 then None
    else if xo == Width - 1 then ScanFrom(rows, sx, sy, yo + 1, 0)
    else if Occupied2By2(rows, ScanX(sx, xo), ScanY(sy, yo)) then Some((ScanX(sx, xo), ScanY(sy, yo)))
    else ScanFrom(rows, sx, sy, yo, xo + 1)
  }

  /** The grid after `destroy2By2Occupied` whose random draw was `draw`. */
  ghost function Destroyed2By2(rows: seq<Row>, draw: nat): seq<Row>
    requires WellFormed(rows)
  {
    match ScanFrom(rows, draw % Width, draw / Height, 0, 0)
    case None => rows
    case Some((x, y)) => if x < Width - 1 && y < Height - 1 then Emptied2By2(rows, x, y) else rows
  }

  function SerializeGrid<J>(grid: seq<Row>, ser: Cell -> J): (j: seq<seq<J>>)
    ensures |j| == |grid| && forall i :: 0 <= i < |grid| ==> |j[i]| == |grid[i]|
  {
    seq(|grid|, i requires 0 <= i < |grid| =>
      seq(|grid[i]|, x requires 0 <= x < |grid[i]| => ser(grid[i][x])))
  }

  /** The grid `deserialize` reads: the first Height rows and Width columns of `j`. */
  function DeserializeGrid<J>(j: seq<seq<J>>, de: J -> Cell): (g: seq<Row>)
    requires |j| >= Height && forall i :: 0 <= i < Height ==> |j[i]| >= Width
    ensures |g| == Height && forall i :: 0 <= i < Height ==> |g[i]| == Width
  {
    seq(Height, i requires 0 <= i < Height =>
      seq(Width, x requires 0 <= x < Width => de(j[i][x])))
  }

  // ---------------------------------------------------------------------
  // ---------------------------------------------------------------------
  // The board object

  class Board {
    /** The grid in storage order: index Height - 1 - y holds row y. */
    const grid: array<Row>

    ghost predicate Valid()
      reads this, grid
    {
      grid.Length == Height && forall i :: 0 <= i < grid.Length ==> |grid[i]| == Width
    }

    /** The grid bottom row first. */
    function Rows(): (rows: seq<Row>)
      reads this, grid
      ensures |rows| == grid.Length
      ensures forall y :: 0 <= y < grid.Length ==> rows[y] == grid[grid.Length - 1 - y]
      ensures Valid() ==> WellFormed(rows)
    {
      Flip(grid[..])
    }

    constructor ()
      ensures Valid() && fresh(grid)
      ensures Rows() == BlankRows(Height)
    {
      grid := new Row[Height](_ => BlankRow());
      new;
      assert Rows() == BlankRows(Height);
    }

    function GetRow(y: int): (r: Row)
      reads this, grid
      requires Valid() && 0 <= y < Height
      ensures r == Rows()[y] && |r| == Width
    {
      grid[Height - 1 - y]
    }

    function Get(x: int, y: int): (c: Cell)
      reads this, grid
      requires Valid() && InBounds(Vec2(x, y))
      ensures c == Rows()[y][x]
    {
      GetRow(y)[x]
    }

    /** Writing one cell through `at(x, y)`. */
    method SetCell(x: int, y: int, c: Cell)
      requires Valid() && InBounds(Vec2(x, y))
      modifies grid
      ensures Valid() && Rows() == old(Rows())[y := old(Rows())[y][x := c]]
    {
      grid[Height - 1 - y] := grid[Height - 1 - y][x := c];
      assert forall i :: 0 <= i < Height ==> Rows()[i] == old(Rows())[y := old(Rows())[y][x := c]][i];
    }

    method SetRow(row: Row, y: int)
      requires Valid() && 0 <= y < Height && |row| == Width
      modifies grid
      ensures Valid() && Rows() == old(Rows())[y := row]
    {
      grid[Height - 1 - y] := row;
      assert forall i :: 0 <= i < Height ==> Rows()[i] == old(Rows())[y := row][i];
    }

    /** `checkInGrid` for one cell: on the board and empty. */
    function CheckInGridCell(v: Vec2): (r: bool)
      reads this, grid
      requires Valid()
      ensures r <==> Free(Rows(), v)
    {
      0 <= v.x && v.x < Width && 0 <= v.y && v.y < Height && Get(v.x, v.y) == Empty
    }

    /** `checkInGrid` for a piece: every anchor + offset cell passes the
        one-cell check. */
    method CheckInGridPiece(p: Piece) returns (r: bool)
      requires Valid()
      ensures r <==> Fits(Rows(), p)
    {
      var i := 0;
      while i < |p.body|
        invariant 0 <= i <= |p.body|
        invariant forall k :: 0 <= k < i ==> Free(Rows(), CellAt(p, k))
      {
        var abs := p.body[i].Plus(p.anchor);
        assert abs == CellAt(p, i);
        if !CheckInGridCell(abs) {
          return false;
        }
        i := i + 1;
      }
      return true;
    }

    method CheckEmptyRow(y: int) returns (r: bool)
      requires Valid() && 0 <= y < Height
      ensures r <==> IsEmptyRow(Rows()[y])
    {
      var row := GetRow(y);
      var x := 0;
      while x < |row|
        invariant 0 <= x <= |row|
        invariant forall k :: 0 <= k < x ==> row[k] == Empty
      {
        if row[x] != Empty {
          return false;
        }
        x := x + 1;
      }
      return true;
    }

    method CheckFullRow(y: int) returns (r: bool)
      requires Valid() && 0 <= y < Height
      ensures r <==> IsFullRow(Rows()[y])
    {
      var row := GetRow(y);
      var x := 0;
      while x < |row|
        invariant 0 <= x <= |row|
        invariant forall k :: 0 <= k < x ==> row[k].Filled?
      {
        if row[x] == Empty {
          return false;
        }
        x := x + 1;
      }
      return true;
    }

    /** `checkFullCol`: every cell of column x is occupied. */
    method CheckFullCol(x: int) returns (r: bool)
      requires Valid() && 0 <= x < Width
      ensures r <==> forall y :: 0 <= y < Height ==> Rows()[y][x].Filled?
    {
      var y := Height - 1;
      while y >= 0
        invariant -1 <= y < Height
        invariant forall k :: y < k < Height ==> Rows()[k][x].Filled?
      {
        if Get(x, y) == Empty {
          return false;
        }
        y := y - 1;
      }
      return true;
    }

    method EmptyRow(y: int)
      requires Valid() && 0 <= y < Height
      modifies grid
      ensures Valid() && Rows() == old(Rows())[y := BlankRow()]
    {
      ghost var rows0 := Rows();
      var x := 0;
      while x < Width
        invariant Valid() && 0 <= x <= Width
        invariant forall i :: 0 <= i < Height && i != y ==> Rows()[i] == rows0[i]
        invariant forall k :: 0 <= k < x ==> Rows()[y][k] == Empty
      {
        SetCell(x, y, Empty);
        x := x + 1;
      }
      assert Rows()[y] == BlankRow();
      assert forall i :: 0 <= i < Height ==> Rows()[i] == rows0[y := BlankRow()][i];
    }

    /** `emptyCol`: every cell of column x becomes empty. */
    method EmptyCol(x: int)
      requires Valid() && 0 <= x < Width
      modifies grid
      ensures Valid()
      ensures forall y, i :: 0 <= y < Height && 0 <= i < Width ==>
                Rows()[y][i] == if i == x then Empty else old(Rows())[y][i]
    {
      ghost var rows0 := Rows();
      var y := Height - 1;
      while y >= 0
        invariant Valid() && -1 <= y < Height
        invariant forall k, i :: 0 <= k < Height && 0 <= i < Width ==>
                    Rows()[k][i] == if i == x && k > y then Empty else rows0[k][i]
      {
        SetCell(x, y, Empty);
        y := y - 1;
      }
    }

    /** Row y is overwritten by the row above it, and so on up to the top
        row, which is emptied. */
    method DropRowsAbove(y: int)
      requires Valid() && 0 <= y < Height
      modifies grid
      ensures Valid() && Rows() == DroppedAbove(old(Rows()), y)
    {
      ghost var rows0 := Rows();
      var topRow := Height - 1;
      var k := y;
      while k < topRow
        invariant Valid() && y <= k <= topRow
        invariant forall i :: y <= i < k ==> Rows()[i] == rows0[i + 1]
        invariant forall i :: 0 <= i < y || k <= i < Height ==> Rows()[i] == rows0[i]
      {
        var above := GetRow(k + 1);
        SetRow(above, k);
        k := k + 1;
      }
      EmptyRow(topRow);
      assert forall i :: 0 <= i < Height ==> Rows()[i] == DroppedAbove(rows0, y)[i];
    }

    /** One pass of the lifting loop: from the top row down to y + 1, each
        row takes a copy of the row below it. */
    method LiftOnce(y: int)
      requires Valid() && 0 <= y < Height
      modifies grid
      ensures Valid() && Rows() == LiftedOnce(old(Rows()), y)
    {
      ghost var before := Rows();
      var k := Height - 1;
      while k > y
        invariant Valid() && y <= k <= Height - 1
        invariant forall i :: k < i < Height ==> Rows()[i] == before[i - 1]
        invariant forall i :: 0 <= i <= k ==> Rows()[i] == before[i]
      {
        SetRow(GetRow(k - 1), k);
        k := k - 1;
      }
      LiftedOnceDone(Rows(), before, y);
    }

    /** Each of `numRows` passes copies every row from y up one row higher;
        then row y is emptied. */
    method LiftRowsFrom(y: int, numRows: nat)
      requires Valid() && 0 <= y < Height
      modifies grid
      ensures Valid() && Rows() == LiftedFrom(old(Rows()), y, numRows)
    {
      ghost var rows0 := Rows();
      var pass := 0;
      while pass < numRows
        invariant Valid() && 0 <= pass <= numRows
        invariant Rows() == LiftedPasses(rows0, y, pass)
      {
        LiftOnce(y);
        pass := pass + 1;
      }
      EmptyRow(y);
    }

    /** Fills row y with penalty blocks except at column `gap`, which is
        emptied (`gap` is the uniformly drawn column). */
    method SetPenaltyRow(y: int, gap: GapColumn)
      requires Valid() && 0 <= y < Height
      modifies grid
      ensures Valid() && Rows() == old(Rows())[y := PenaltyRow(gap)]
    {
      ghost var rows0 := Rows();
      var x := 0;
      while x < Width
        invariant Valid() && 0 <= x <= Width
        invariant forall i :: 0 <= i < Height && i != y ==> Rows()[i] == rows0[i]
        invariant forall k :: 0 <= k < x ==> Rows()[y][k] == PenaltyRow(gap)[k]
      {
        if x == gap {
          SetCell(x, y, Empty);
        } else {
          SetCell(x, y, Filled(PenaltyBlocksColorId));
        }
        x := x + 1;
      }
      assert Rows()[y] == PenaltyRow(gap);
      assert forall i :: 0 <= i < Height ==> Rows()[i] == rows0[y := PenaltyRow(gap)][i];
    }

    /** Adds |gaps| penalty rows at the bottom, one per drawn gap column,
        provided row Height - |gaps| is empty; returns whether it did. */
    method ReceivePenaltyRows(gaps: seq<GapColumn>) returns (ok: bool)
      requires Valid() && 1 <= |gaps| <= Height
      modifies grid
      ensures Valid()
      ensures ok <==> IsEmptyRow(old(Rows())[Height - |gaps|])
      ensures ok ==> Rows() == WithPenaltyRows(old(Rows()), gaps)
      ensures !ok ==> Rows() == old(Rows())
    {
      var n := |gaps|;
      var empty := CheckEmptyRow(Height - n);
      if !empty {
        return false;
      }
      ghost var rows0 := Rows();
      LiftRowsFrom(0, n);
      LiftedPassesRows(rows0, 0, n);
      var c := 0;
      while c < n
        invariant Valid() && 0 <= c <= n
        invariant forall i :: 0 <= i < c ==> Rows()[i] == PenaltyRow(gaps[i])
        invariant forall i :: n <= i < Height ==> Rows()[i] == rows0[i - n]
      {
        SetPenaltyRow(c, gaps[c]);
        c := c + 1;
      }
      PenaltyRowsDone(Rows(), rows0, gaps);
      return true;
    }

    /** Colours the cell under each body cell of the piece with the piece's
        colour; the caller has checked that every cell is on the board. */
    method PlaceTetromino(p: Piece)
      requires Valid() && AllInBounds(p)
      modifies grid
      ensures Valid() && Rows() == Stamp(old(Rows()), p)
    {
      ghost var rows0 := Rows();
      StampNone(rows0, p);
      var i := 0;
      while i < |p.body|
        invariant Valid() && 0 <= i <= |p.body|
        invariant Rows() == StampFirst(rows0, p, i)
      {
        StampCell(rows0, p, i);
        i := i + 1;
      }
    }

    /** One step of `placeTetromino`: colours the cell under body cell i. */
    method StampCell(ghost rows0: seq<Row>, p: Piece, i: nat)
      requires Valid() && WellFormed(rows0) && i < |p.body| && InBounds(CellAt(p, i))
      requires Rows() == StampFirst(rows0, p, i)
      modifies grid
      ensures Valid() && Rows() == StampFirst(rows0, p, i + 1)
    {
      var v := p.anchor.Plus(p.body[i]);
      assert v == CellAt(p, i);
      SetCell(v.x, v.y, Filled(p.shape.Ordinal()));
      StampStep(rows0, p, i);
    }

    /** Clears every full row, scanning from the top row down; the rows
        above a cleared row drop by one. Returns how many rows it cleared. */
    method Update() returns (cleared: nat)
      requires Valid()
      modifies grid
      ensures Valid()
      ensures cleared == CountFull(old(Rows()))
      ensures Rows() == Cleared(old(Rows()))
    {
      ghost var rows0 := Rows();
      cleared := 0;
      var y := Height;
      UpdateStart(rows0);
      while y > 0
        invariant Valid() && 0 <= y <= Height
        invariant UpdatePartial(Rows(), rows0, y, cleared)
      {
        y := y - 1;
        ghost var before := Rows();
        var full := CheckFullRow(y);
        if full {
          EmptyRow(y);
          cleared := cleared + 1;
          DropRowsAbove(y);
          UpdateClear(before, rows0, y, cleared - 1);
        } else {
          UpdateKeep(before, rows0, y, cleared);
        }
      }
      UpdateDone(Rows(), rows0, cleared);
    }

    /** The cell (x, from) is copied to (x, to) and then emptied. */
    method MoveCell(x: int, from: int, to: int)
      requires Valid() && 0 <= x < Width && 0 <= from < Height && 0 <= to < Height && from != to
      modifies grid
      ensures Valid()
      ensures forall k, i :: 0 <= k < Height && 0 <= i < Width ==>
                Rows()[k][i] == if i == x && k == to then old(Rows())[from][x]
                                else if i == x && k == from then Empty
                                else old(Rows())[k][i]
    {
      SetCell(x, to, Get(x, from));
      SetCell(x, from, Empty);
    }

    /** The inner loop of `gravity` for column x. */
    method GravityColumn(x: int)
      requires Valid() && 0 <= x < Width
      modifies grid
      ensures Valid()
      ensures Column(Rows(), x) == Settled(Column(old(Rows()), x))
      ensures forall k, i :: 0 <= k < Height && 0 <= i < Width && i != x ==> Rows()[k][i] == old(Rows())[k][i]
    {
      ghost var rows0 := Rows();
      var writeY := 0;
      var y := 0;
      GravityStart(rows0, x);
      while y < Height
        invariant Valid() && 0 <= writeY <= y <= Height
        invariant GravityPartial(Rows(), rows0, x, y, writeY)
      {
        ghost var before := Rows();
        if Get(x, y) != Empty {
          if y != writeY {
            MoveCell(x, y, writeY);
            GravityMove(before, Rows(), rows0, x, y, writeY);
          } else {
            GravityKeep(before, rows0, x, y, writeY);
          }
          writeY := writeY + 1;
        } else {
          GravitySkip(before, rows0, x, y, writeY);
        }
        y := y + 1;
      }
      GravityDone(Rows(), rows0, x, writeY);
    }

    /** Lets every occupied cell fall to the lowest free place of its
        column, keeping the order of the occupied cells of each column. */
    method Gravity()
      requires Valid()
      modifies grid
      ensures Valid()
      ensures forall x :: 0 <= x < Width ==> Column(Rows(), x) == Settled(Column(old(Rows()), x))
    {
      ghost var rows0 := Rows();
      var x := 0;
      while x < Width
        invariant Valid() && 0 <= x <= Width
        invariant forall i :: 0 <= i < x ==> Column(Rows(), i) == Settled(Column(rows0, i))
        invariant forall i :: x <= i < Width ==> Column(Rows(), i) == Column(rows0, i)
      {
        ghost var mid := Rows();
        GravityColumn(x);
        forall i | 0 <= i < Width && i != x ensures Column(Rows(), i) == Column(mid, i) {
          assert forall k :: 0 <= k < Height ==> Column(Rows(), i)[k] == Column(mid, i)[k];
        }
        x := x + 1;
      }
    }

    method Check2By2Occupied(x: int, y: int) returns (r: bool)
      requires Valid() && 0 <= x < Width - 1 && 0 <= y < Height - 1
      ensures r <==> Occupied2By2(Rows(), x, y)
    {
      r := true;
      var xo := 0;
      while xo < 2
        invariant 0 <= xo <= 2
        invariant r <==> forall i, j :: x <= i < x + xo && y <= j < y + 2 ==> Rows()[j][i].Filled?
      {
        var yo := 0;
        while yo < 2
          invariant 0 <= yo <= 2
          invariant r <==> (forall i, j :: x <= i < x + xo && y <= j < y + 2 ==> Rows()[j][i].Filled?)
                           && (forall j :: y <= j < y + yo ==> Rows()[j][x + xo].Filled?)
        {
          if Get(x + xo, y + yo) == Empty {
            r := false;
          }
          yo := yo + 1;
        }
        xo := xo + 1;
      }
    }

    method Empty2By2Square(x: int, y: int)
      requires Valid() && 0 <= x < Width - 1 && 0 <= y < Height - 1
      modifies grid
      ensures Valid() && Rows() == Emptied2By2(old(Rows()), x, y)
    {
      ghost var rows0 := Rows();
      var xo := 0;
      while xo < 2
        invariant Valid() && 0 <= xo <= 2
        invariant forall j, i :: 0 <= j < Height && 0 <= i < Width ==>
                    Rows()[j][i] == if InSquare(x, y, i, j) && i < x + xo then Empty else rows0[j][i]
      {
        var yo := 0;
        while yo < 2
          invariant Valid() && 0 <= yo <= 2
          invariant forall j, i :: 0 <= j < Height && 0 <= i < Width ==>
                      Rows()[j][i] == if InSquare(x, y, i, j) && (i < x + xo || (i == x + xo && j < y + yo)) then Empty else rows0[j][i]
        {
          SetCell(x + xo, y + yo, Empty);
          yo := yo + 1;
        }
        xo := xo + 1;
      }
      GridExt(Rows(), Emptied2By2(rows0, x, y));
    }

    /** The inner loop of `destroy2By2Occupied` for row offset yo: the
        squares of offsets (yo, 0), (yo, 1), ... in turn, stopping at the
        first occupied one, which it empties. */
    method ScanRow(startX: nat, startY: nat, yo: nat) returns (found: bool)
      requires Valid() && yo < Height - 1
      modifies grid
      ensures Valid()
      ensures !found ==> Rows() == old(Rows())
                         && ScanFrom(old(Rows()), startX, startY, yo, 0) == ScanFrom(old(Rows()), startX, startY, yo + 1, 0)
      ensures found ==> var t := ScanFrom(old(Rows()), startX, startY, yo, 0);
                        t.Some? && t.value.0 < Width - 1 && t.value.1 < Height - 1
                        && Rows() == Emptied2By2(old(Rows()), t.value.0, t.value.1)
    {
      ghost var rows0 := Rows();
      ghost var target := ScanFrom(rows0, startX, startY, yo, 0);
      found := false;
      var xo := 0;
      while xo < Width - 1 && !found
        invariant Valid() && 0 <= xo <= Width - 1
        invariant !found ==> Rows() == rows0 && target == ScanFrom(rows0, startX, startY, yo, xo)
        invariant found ==> target.Some? && target.value.0 < Width - 1 && target.value.1 < Height - 1
                            && Rows() == Emptied2By2(rows0, target.value.0, target.value.1)
      {
        var x := (startX + xo) % (Width - 1);
        var y := (startY + yo) % (Height - 1);
        assert x == ScanX(startX, xo) && y == ScanY(startY, yo);
        var occupied := Check2By2Occupied(x, y);
        if occupied {
          found := true;
          Empty2By2Square(x, y);
        }
        xo := xo + 1;
      }
    }

    /** Scans for a 2x2 square whose four cells are occupied, starting from
        the cell given by the random draw `draw` (drawn from 0 to
        Height * Width) and wrapping around, and empties the first one found. */
    method Destroy2By2Occupied(draw: nat)
      requires Valid() && draw <= Height * Width
      modifies grid
      ensures Valid() && Rows() == Destroyed2By2(old(Rows()), draw)
    {
      ghost var rows0 := Rows();
      var startY := draw / Height;
      var startX := draw % Width;
      ghost var target := ScanFrom(rows0, startX, startY, 0, 0);
      var found := false;
      var yo := 0;
      while yo < Height - 1 && !found
        invariant Valid() && 0 <= yo <= Height - 1
        invariant !found ==> Rows() == rows0 && target == ScanFrom(rows0, startX, startY, yo, 0)
        invariant found ==> target.Some? && target.value.0 < Width - 1 && target.value.1 < Height - 1
                            && Rows() == Emptied2By2(rows0, target.value.0, target.value.1)
      {
        found := ScanRow(startX, startY, yo);
        yo := yo + 1;
      }
    }

    /** The grid in storage order (top row first), each cell serialised by `ser`. */
    method Serialize<J>(ser: Cell -> J) returns (j: seq<seq<J>>)
      requires Valid()
      ensures j == SerializeGrid(grid[..], ser)
    {
      j := [];
      var i := 0;
      while i < Height
        invariant 0 <= i <= Height
        invariant |j| == i && forall k :: 0 <= k < i ==> j[k] == SerializeGrid(grid[..], ser)[k]
      {
        var row := grid[i];
        var jRow := [];
        var x := 0;
        while x < |row|
          invariant 0 <= x <= |row|
          invariant |jRow| == x && forall k :: 0 <= k < x ==> jRow[k] == ser(row[k])
        {
          jRow := jRow + [ser(row[x])];
          x := x + 1;
        }
        j := j + [jRow];
        i := i + 1;
      }
    }

    /** Overwrites every cell from the serialised grid `j` (storage order),
        each cell read back by `de`. */
    method Deserialize<J>(j: seq<seq<J>>, de: J -> Cell)
      requires Valid()
      requires |j| >= Height && forall i :: 0 <= i < Height ==> |j[i]| >= Width
      modifies grid
      ensures Valid() && grid[..] == DeserializeGrid(j, de)
    {
      var i := 0;
      while i < Height
        invariant Valid() && 0 <= i <= Height
        invariant forall k :: 0 <= k < i ==> grid[k] == DeserializeGrid(j, de)[k]
      {
        var x := 0;
        while x < Width
          invariant Valid() && 0 <= x <= Width
          invariant forall k :: 0 <= k < i ==> grid[k] == DeserializeGrid(j, de)[k]
          invariant forall k :: 0 <= k < x ==> grid[i][k] == de(j[i][k])
        {
          grid[i] := grid[i][x := de(j[i][x])];
          x := x + 1;
        }
        assert grid[i] == DeserializeGrid(j, de)[i];
        i := i + 1;
      }
    }
  }

  // ---------------------------------------------------------------------
  // Steps of the method proofs

  /** The rows `receivePenaltyRows` leaves: penalty row i at the bottom for
      each gap i, and the old rows n places higher above them. */
  lemma PenaltyRowsDone(rows: seq<Row>, rows0: seq<Row>, gaps: seq<GapColumn>)
    requires WellFormed(rows) && WellFormed(rows0) && |gaps| <= Height
    requires forall i :: 0 <= i < |gaps| ==> rows[i] == PenaltyRow(gaps[i])
    requires forall i :: |gaps| <= i < Height ==> rows[i] == rows0[i - |gaps|]
    ensures rows == WithPenaltyRows(rows0, gaps)
  {
    var r := WithPenaltyRows(rows0, gaps);
    assert forall i :: 0 <= i < Height ==> rows[i] == r[i];
  }

  /** The old row that row i holds after k lifting passes from y: itself
      up to y, row i - k above that, but never a row below y. */
  function LiftSource(y: nat, k: nat, i: nat): (j: nat)
    ensures j <= i && (i > y ==> j >= y)
  {
    if i <= y then i else if i - k >= y then i - k else y
  }

  lemma {:induction false} LiftedPassesRows(rows: seq<Row>, y: nat, k: nat)
    requires WellFormed(rows) && y < Height
    ensures forall i :: 0 <= i < Height ==> LiftedPasses(rows, y, k)[i] == rows[LiftSource(y, k, i)]
  {
    if k > 0 {
      LiftedPassesRows(rows, y, k - 1);
      var prev := LiftedPasses(rows, y, k - 1);
      forall i | 0 <= i < Height
        ensures LiftedPasses(rows, y, k)[i] == rows[LiftSource(y, k, i)]
      {
        if i > y {
          assert LiftedPasses(rows, y, k)[i] == prev[i - 1] == rows[LiftSource(y, k - 1, i - 1)];
        }
      }
    }
  }

  lemma LiftedOnceDone(rows: seq<Row>, before: seq<Row>, y: nat)
    requires WellFormed(rows) && WellFormed(before) && y < Height
    requires forall i :: y < i < Height ==> rows[i] == before[i - 1]
    requires forall i :: 0 <= i <= y ==> rows[i] == before[i]
    ensures rows == LiftedOnce(before, y)
  {
    var r := LiftedOnce(before, y);
    assert forall i :: 0 <= i < Height ==> rows[i] == r[i];
  }

  lemma StampNone(rows: seq<Row>, p: Piece)
    requires WellFormed(rows)
    ensures StampFirst(rows, p, 0) == rows
  {
    GridExt(rows, StampFirst(rows, p, 0));
  }

  lemma StampStep(rows: seq<Row>, p: Piece, i: nat)
    requires WellFormed(rows) && i < |p.body| && InBounds(CellAt(p, i))
    ensures var v := CellAt(p, i);
            var s := StampFirst(rows, p, i);
            StampFirst(rows, p, i + 1) == s[v.y := s[v.y][v.x := Filled(p.shape.Ordinal())]]
  {
    var v := CellAt(p, i);
    var s := StampFirst(rows, p, i);
    var t := s[v.y := s[v.y][v.x := Filled(p.shape.Ordinal())]];
    forall y, x | 0 <= y < Height && 0 <= x < Width
      ensures StampFirst(rows, p, i + 1)[y][x] == t[y][x]
    {
      CoversStep(p, i, Vec2(x, y));
    }
    GridExt(StampFirst(rows, p, i + 1), t);
  }

  lemma CoversStep(p: Piece, i: nat, v: Vec2)
    requires i < |p.body|
    ensures Covers(p, i + 1, v) <==> Covers(p, i, v) || CellAt(p, i) == v
  {
    if CellAt(p, i) == v {
      assert 0 <= i < i + 1 && CellAt(p, i) == v;
    }
  }

  lemma ClearedCons(rows: seq<Row>, y: nat)
    requires y < |rows|
    ensures CountFull(rows[y..]) == (if IsFullRow(rows[y]) then 1 else 0) + CountFull(rows[y + 1..])
    ensures Cleared(rows[y..]) == if IsFullRow(rows[y]) then Cleared(rows[y + 1..]) + [BlankRow()]
                                  else [rows[y]] + Cleared(rows[y + 1..])
  {
    assert rows[y..][1..] == rows[y + 1..];
    assert rows[y..][0] == rows[y];
    var c := CountFull(rows[y + 1..]);
    assert BlankRows(c + 1) == BlankRows(c) + [BlankRow()];
  }

  /** The state part-way through the loop of `update`: rows below y are
      untouched, and rows from y up are the cleared form of the original
      rows from y up, with `cleared` full rows counted among them. */
  ghost predicate UpdatePartial(rows: seq<Row>, rows0: seq<Row>, y: nat, cleared: nat)
  {
    && WellFormed(rows) && WellFormed(rows0) && y <= Height
    && rows[..y] == rows0[..y]
    && cleared == CountFull(rows0[y..])
    && rows[y..] == Cleared(rows0[y..])
  }

  lemma UpdateStart(rows0: seq<Row>)
    requires WellFormed(rows0)
    ensures UpdatePartial(rows0, rows0, Height, 0)
  {
    assert rows0[Height..] == [];
  }

  lemma UpdateKeep(rows: seq<Row>, rows0: seq<Row>, y: nat, cleared: nat)
    requires y < Height && UpdatePartial(rows, rows0, y + 1, cleared) && !IsFullRow(rows[y])
    ensures UpdatePartial(rows, rows0, y, cleared)
  {
    assert rows[..y + 1][..y] == rows[..y] && rows0[..y + 1][..y] == rows0[..y];
    assert rows[..y + 1][y] == rows[y] && rows0[..y + 1][y] == rows0[y];
    ClearedCons(rows0, y);
    assert rows[y..] == [rows[y]] + rows[y + 1..];
  }

  lemma UpdateClear(rows: seq<Row>, rows0: seq<Row>, y: nat, cleared: nat)
    requires y < Height && UpdatePartial(rows, rows0, y + 1, cleared) && IsFullRow(rows[y])
    ensures UpdatePartial(DroppedAbove(rows[y := BlankRow()], y), rows0, y, cleared + 1)
  {
    assert rows[..y + 1][..y] == rows[..y] && rows0[..y + 1][..y] == rows0[..y];
    assert rows[..y + 1][y] == rows[y] && rows0[..y + 1][y] == rows0[y];
    ClearedCons(rows0, y);
    DropAfterEmpty(rows, y);
  }

  lemma UpdateDone(rows: seq<Row>, rows0: seq<Row>, cleared: nat)
    requires UpdatePartial(rows, rows0, 0, cleared)
    ensures rows == Cleared(rows0) && cleared == CountFull(rows0)
  {
    assert rows[0..] == rows && rows0[0..] == rows0;
  }

  lemma DropAfterEmpty(before: seq<Row>, y: nat)
    requires WellFormed(before) && y < Height
    ensures var d := DroppedAbove(before[y := BlankRow()], y);
            d[..y] == before[..y] && d[y..] == before[y + 1..] + [BlankRow()]
  {
    var m := before[y := BlankRow()];
    assert m[..y] == before[..y];
    assert m[y + 1..] == before[y + 1..];
  }

  /** The state of column x part-way through the gravity loop: the
      occupied cells among the first y are packed into rows 0 .. writeY - 1,
      rows writeY .. y - 1 are empty, the rest of the column and every other
      column are as they were. */
  ghost predicate GravityPartial(rows: seq<Row>, rows0: seq<Row>, x: nat, y: nat, writeY: nat)
  {
    && WellFormed(rows) && WellFormed(rows0) && x < Width
    && writeY <= y <= Height
    && writeY == |Occupied(Column(rows0, x)[..y])|
    && (forall k :: 0 <= k < writeY ==> rows[k][x] == Occupied(Column(rows0, x)[..y])[k])
    && (forall k :: writeY <= k < y ==> rows[k][x] == Empty)
    && (forall k :: y <= k < Height ==> rows[k][x] == rows0[k][x])
    && (forall k, i :: 0 <= k < Height && 0 <= i < Width && i != x ==> rows[k][i] == rows0[k][i])
  }

  lemma GravityStart(rows0: seq<Row>, x: nat)
    requires WellFormed(rows0) && x < Width
    ensures GravityPartial(rows0, rows0, x, 0, 0)
  {
    assert Column(rows0, x)[..0] == [];
  }

  lemma GravitySkip(rows: seq<Row>, rows0: seq<Row>, x: nat, y: nat, writeY: nat)
    requires GravityPartial(rows, rows0, x, y, writeY) && y < Height && rows[y][x] == Empty
    ensures GravityPartial(rows, rows0, x, y + 1, writeY)
  {
    var col0 := Column(rows0, x);
    OccupiedSnoc(col0[..y + 1]);
    assert col0[..y + 1][..y] == col0[..y];
  }

  lemma GravityKeep(rows: seq<Row>, rows0: seq<Row>, x: nat, y: nat, writeY: nat)
    requires GravityPartial(rows, rows0, x, y, writeY) && y < Height && rows[y][x].Filled? && y == writeY
    ensures GravityPartial(rows, rows0, x, y + 1, writeY + 1)
  {
    var col0 := Column(rows0, x);
    OccupiedSnoc(col0[..y + 1]);
    assert col0[..y + 1][..y] == col0[..y];
  }

  lemma GravityMove(rows: seq<Row>, after: seq<Row>, rows0: seq<Row>, x: nat, y: nat, writeY: nat)
    requires GravityPartial(rows, rows0, x, y, writeY) && y < Height && rows[y][x].Filled? && y != writeY
    requires WellFormed(after)
    requires forall k, i :: 0 <= k < Height && 0 <= i < Width ==>
               after[k][i] == if i == x && k == writeY then rows[y][x]
                              else if i == x && k == y then Empty
                              else rows[k][i]
    ensures GravityPartial(after, rows0, x, y + 1, writeY + 1)
  {
    var col0 := Column(rows0, x);
    OccupiedSnoc(col0[..y + 1]);
    assert col0[..y + 1][..y] == col0[..y];
  }

  lemma GravityDone(rows: seq<Row>, rows0: seq<Row>, x: nat, writeY: nat)
    requires GravityPartial(rows, rows0, x, Height, writeY)
    ensures Column(rows, x) == Settled(Column(rows0, x))
    ensures forall k, i :: 0 <= k < Height && 0 <= i < Width && i != x ==> rows[k][i] == rows0[k][i]
  {
    var col0 := Column(rows0, x);
    assert col0[..Height] == col0;
    assert forall k :: 0 <= k < Height ==> Column(rows, x)[k] == Settled(col0)[k];
  }

  lemma {:induction false} OccupiedSnoc(s: seq<Cell>)
    requires |s| > 0
    ensures Occupied(s) == Occupied(s[..|s| - 1]) + (if s[|s| - 1].Filled? then [s[|s| - 1]] else [])
  {
    if |s| > 1 {
      assert s[1..][..|s| - 2] == s[1..|s| - 1];
      assert s[..|s| - 1][1..] == s[1..|s| - 1];
      OccupiedSnoc(s[1..]);
    }
  }

  // ---------------------------------------------------------------------
  // Properties of the board operations

  lemma {:induction false} NonFullAppend(a: seq<Row>, b: seq<Row>)
    ensures NonFull(a + b) == NonFull(a) + NonFull(b)
  {
    if a == [] {
      assert a + b == b;
    } else {
      assert (a + b)[0] == a[0] && (a + b)[1..] == a[1..] + b;
      NonFullAppend(a[1..], b);
    }
  }

  lemma {:induction false} NonFullTwice(rows: seq<Row>)
    ensures NonFull(NonFull(rows)) == NonFull(rows)
  {
    if rows != [] {
      var head := if IsFullRow(rows[0]) then [] else [rows[0]];
      NonFullAppend(head, NonFull(rows[1..]));
      NonFullTwice(rows[1..]);
      assert NonFull(head) == head by {
        if head != [] { assert head[1..] == []; }
      }
    }
  }

  /** An empty row is never full, since the board is at least two cells wide. */
  lemma {:induction false} NonFullBlanks(n: nat)
    ensures NonFull(BlankRows(n)) == BlankRows(n)
  {
    if n > 0 {
      assert BlankRow()[0] == Empty;
      assert BlankRows(n)[1..] == BlankRows(n - 1);
      NonFullBlanks(n - 1);
    }
  }

  /** After `update` no row is full, so a second `update` clears nothing
      and changes nothing. */
  lemma ClearedSettles(rows: seq<Row>)
    ensures forall i :: 0 <= i < |rows| ==> !IsFullRow(Cleared(rows)[i])
    ensures CountFull(Cleared(rows)) == 0
    ensures Cleared(Cleared(rows)) == Cleared(rows)
  {
    var c := Cleared(rows);
    NonFullAppend(NonFull(rows), BlankRows(CountFull(rows)));
    NonFullTwice(rows);
    NonFullBlanks(CountFull(rows));
    assert NonFull(c) == c;
    assert BlankRows(0) == [];
  }

  lemma {:induction false} OccupiedAppend(a: seq<Cell>, b: seq<Cell>)
    ensures Occupied(a + b) == Occupied(a) + Occupied(b)
  {
    if a == [] {
      assert a + b == b;
    } else {
      assert (a + b)[0] == a[0] && (a + b)[1..] == a[1..] + b;
      OccupiedAppend(a[1..], b);
    }
  }

  lemma {:induction false} OccupiedOfEmpty(n: nat)
    ensures Occupied(seq(n, _ => Empty)) == []
  {
    if n > 0 {
      assert seq(n, _ => Empty)[1..] == seq(n - 1, _ => Empty);
      OccupiedOfEmpty(n - 1);
    }
  }

  lemma {:induction false} OccupiedTwice(col: seq<Cell>)
    ensures Occupied(Occupied(col)) == Occupied(col)
  {
    if col != [] {
      var head := if col[0].Filled? then [col[0]] else [];
      OccupiedAppend(head, Occupied(col[1..]));
      OccupiedTwice(col[1..]);
      assert Occupied(head) == head by {
        if head != [] { assert head[1..] == []; }
      }
    }
  }

  /** Gravity keeps a column's blocks in their order, and applying it
      again changes nothing. */
  lemma SettledKeepsBlocks(col: seq<Cell>)
    ensures Occupied(Settled(col)) == Occupied(col)
    ensures Settled(Settled(col)) == Settled(col)
  {
    var occ := Occupied(col);
    var pad := seq(|col| - |occ|, _ => Empty);
    OccupiedAppend(occ, pad);
    OccupiedOfEmpty(|col| - |occ|);
    OccupiedTwice(col);
    assert occ + [] == occ;
  }

  /** After gravity no empty cell of a column lies beneath a block. */
  lemma SettledNoHoles(col: seq<Cell>)
    ensures forall i, j :: 0 <= i < j < |col| && Settled(col)[j].Filled? ==> Settled(col)[i].Filled?
  {
    var occ := Occupied(col);
    assert forall k :: |occ| <= k < |col| ==> Settled(col)[k] == Empty;
    assert forall k :: 0 <= k < |occ| ==> Settled(col)[k] == occ[k];
  }

  /** A penalty row has exactly one empty cell: the drawn gap. */
  lemma PenaltyRowGap(gap: GapColumn)
    ensures forall x :: 0 <= x < Width ==> (PenaltyRow(gap)[x] == Empty <==> x == gap)
    ensures !IsFullRow(PenaltyRow(gap)) && !IsEmptyRow(PenaltyRow(gap))
  {
    assert PenaltyRow(gap)[gap] == Empty;
    var other := if gap == 0 then 1 else 0;
    assert PenaltyRow(gap)[other].Filled?;
  }

  /** Receiving penalty rows checks only row Height - n for emptiness, so a
      board whose row Height - 2 is empty but whose top row holds a block
      accepts two penalty rows and loses that block over the top. */
  lemma PenaltyRowsCanPushBlocksOff()
    ensures exists rows: seq<Row>, gaps: seq<GapColumn> ::
              && WellFormed(rows) && |gaps| == 2
              && IsEmptyRow(rows[Height - 2])
              && rows[Height - 1][0] == Filled(PenaltyBlocksColorId + 1)
              && forall y, x :: 0 <= y < Height && 0 <= x < Width ==>
                   WithPenaltyRows(rows, gaps)[y][x] != Filled(PenaltyBlocksColorId + 1)
  {
    var c := Filled(PenaltyBlocksColorId + 1);
    var top := BlankRow()[0 := c];
    var rows := BlankRows(Height - 1) + [top];
    var gaps: seq<GapColumn> := [0, 0];
    assert rows[Height - 2] == BlankRow();
    var after := WithPenaltyRows(rows, gaps);
    forall y, x | 0 <= y < Height && 0 <= x < Width ensures after[y][x] != c {
      if y >= 2 {
        assert rows[y - 2] == BlankRow();
      }
    }
  }

  /** Placing a piece colours every one of its cells with its colour and
      leaves every other cell as it was; a piece that fitted no longer fits
      once placed. */
  lemma StampCovers(rows: seq<Row>, p: Piece)
    requires WellFormed(rows) && AllInBounds(p)
    ensures forall i :: 0 <= i < |p.body| ==>
              Stamp(rows, p)[CellAt(p, i).y][CellAt(p, i).x] == Filled(p.shape.Ordinal())
    ensures |p.body| > 0 ==> !Fits(Stamp(rows, p), p)
  {
    forall i | 0 <= i < |p.body|
      ensures Stamp(rows, p)[CellAt(p, i).y][CellAt(p, i).x] == Filled(p.shape.Ordinal())
    {
      assert Covers(p, |p.body|, CellAt(p, i));
    }
    if |p.body| > 0 {
      assert !Free(Stamp(rows, p), CellAt(p, 0));
    }
  }

  /** Deserialising what `serialize` produced restores the grid, provided
      each cell's own encoding round-trips. */
  lemma SerializeRoundTrip<J>(grid: seq<Row>, ser: Cell -> J, de: J -> Cell)
    requires WellFormed(grid)
    requires forall c :: de(ser(c)) == c
    ensures DeserializeGrid(SerializeGrid(grid, ser), de) == grid
  {
    var back := DeserializeGrid(SerializeGrid(grid, ser), de);
    forall y, x | 0 <= y < Height && 0 <= x < Width ensures back[y][x] == grid[y][x] {
      assert back[y][x] == de(ser(grid[y][x]));
    }
    GridExt(back, grid);
  }

  // The wrapped scan of destroy2By2Occupied

  lemma MulMono(m: int, z: int)
    requires m > 0 && z >= 1
    ensures m * z >= m
  {
    assert m * z == m * (z - 1) + m;
    assert m * (z - 1) >= 0;
  }

  lemma DivModUnique(q: int, r: int, m: int)
    requires m > 0 && 0 <= r < m
    ensures (m * q + r) % m == r && (m * q + r) / m == q
  {
    var a := m * q + r;
    var q', r' := a / m, a % m;
    assert a == m * q' + r';
    assert m * (q - q') == r' - r;
    if q > q' {
      MulMono(m, q - q');
    } else if q < q' {
      MulMono(m, q' - q);
    }
  }

  /** Every target t in [0, m) is reached from s by some offset in [0, m). */
  lemma ModBack(s: int, t: int, m: int)
    requires m > 0 && 0 <= t < m
    ensures 0 <= (t - s) % m < m
    ensures (s + (t - s) % m) % m == t
  {
    var d := (t - s) % m;
    var k := (t - s) / m;
    assert t - s == m * k + d;
    assert s + d == m * (-k) + t;
    DivModUnique(-k, t, m);
  }

  /** A square the scan reports is fully occupied. */
  lemma {:induction false} ScanFound(rows: seq<Row>, sx: nat, sy: nat, yo: nat, xo: nat)
    requires WellFormed(rows) && yo <= Height - 1 && xo <= Width - 1
    ensures match ScanFrom(rows, sx, sy, yo, xo)
            case None => true
            case Some((x, y)) => x < Width - 1 && y < Height - 1 && Occupied2By2(rows, x, y)
    decreases Height - 1 - yo, Width - 1 - xo
  {
    if yo == Height - 1 {
    } else if xo == Width - 1 {
      ScanFound(rows, sx, sy, yo + 1, 0);
    } else if !Occupied2By2(rows, ScanX(sx, xo), ScanY(sy, yo)) {
      ScanFound(rows, sx, sy, yo, xo + 1);
    }
  }

  /** When the scan from step (yo, xo) finds nothing, no square visited at a
      later step is occupied. */
  lemma {:induction false} ScanMisses(rows: seq<Row>, sx: nat, sy: nat, yo: nat, xo: nat, yo1: nat, xo1: nat)
    requires WellFormed(rows) && yo <= Height - 1 && xo <= Width - 1
    requires ScanFrom(rows, sx, sy, yo, xo) == None
    requires yo1 < Height - 1 && xo1 < Width - 1
    requires yo < yo1 || (yo == yo1 && xo <= xo1)
    ensures !Occupied2By2(rows, ScanX(sx, xo1), ScanY(sy, yo1))
    decreases Height - 1 - yo, Width - 1 - xo
  {
    if xo == Width - 1 {
      ScanMisses(rows, sx, sy, yo + 1, 0, yo1, xo1);
    } else if yo != yo1 || xo != xo1 {
      ScanMisses(rows, sx, sy, yo, xo + 1, yo1, xo1);
    }
  }

  /** Wherever the scan starts, it finds nothing exactly when no 2x2 square
      of the board is fully occupied. */
  lemma ScanCoverage(rows: seq<Row>, sx: nat, sy: nat)
    requires WellFormed(rows)
    ensures ScanFrom(rows, sx, sy, 0, 0) == None <==>
            forall x: nat, y: nat :: x < Width - 1 && y < Height - 1 ==> !Occupied2By2(rows, x, y)
  {
    if ScanFrom(rows, sx, sy, 0, 0) == None {
      forall x: nat, y: nat | x < Width - 1 && y < Height - 1 ensures !Occupied2By2(rows, x, y) {
        ModBack(sx, x, Width - 1);
        ModBack(sy, y, Height - 1);
        var xo := (x - sx) % (Width - 1);
        var yo := (y - sy) % (Height - 1);
        assert ScanX(sx, xo) == x && ScanY(sy, yo) == y;
        ScanMisses(rows, sx, sy, 0, 0, yo, xo);
      }
    } else {
      ScanFound(rows, sx, sy, 0, 0);
    }
  }

  /** The lightning strike changes the board exactly when some 2x2 square is
      fully occupied, and then it empties one such square and nothing else. */
  lemma Destroyed2By2Outcome(rows: seq<Row>, draw: nat)
    requires WellFormed(rows)
    ensures Destroyed2By2(rows, draw) == rows <==>
            forall x: nat, y: nat :: x < Width - 1 && y < Height - 1 ==> !Occupied2By2(rows, x, y)
    ensures Destroyed2By2(rows, draw) == rows ||
            exists x: nat, y: nat :: x < Width - 1 && y < Height - 1 && Occupied2By2(rows, x, y)
                                    && Destroyed2By2(rows, draw) == Emptied2By2(rows, x, y)
  {
    ScanCoverage(rows, draw % Width, draw / Height);
    ScanFound(rows, draw % Width, draw / Height, 0, 0);
    match ScanFrom(rows, draw % Width, draw / Height, 0, 0)
    case None =>
    case Some((x, y)) =>
      assert Emptied2By2(rows, x, y)[y][x] == Empty;
  }
}
