/** The calendar board: a 7x7 grid of integers, -1 for a blocked cell, 0 for
    a free one and a piece id for a covered one, with the month and date
    tables that decide which cells start blocked. */
module Puzzle {
  import opened Collections
  import opened Pieces

  const GridSize := 7

  /** The six cells outside the calendar's printed area, as (x, y). */
  const BlockedCells: seq<Cell> := [(6, 0), (6, 1), (0, 6), (1, 6), (5, 6), (6, 6)]

  /** Where each month is printed. */
  const MonthTable: map<string, Cell> := map[
    "January" := (0, 0), "February" := (1, 0), "March" := (2, 0), "April" := (3, 0),
    "May" := (4, 0), "June" := (5, 0), "July" := (0, 1), "August" := (1, 1),
    "September" := (2, 1), "October" := (3, 1), "November" := (4, 1), "December" := (5, 1)]

  predicate InGrid(x: int, y: int)
  {
    0 <= x < GridSize && 0 <= y < GridSize
  }

  // ---------------------------------------------------------------------
  // The date table
  // ---------------------------------------------------------------------

  function Digit(d: int): (ch: char)
    requires 0 <= d < 10
  {
    (48 + d) as char
  }

  /** `str(i)` for a day of the month. */
  function DayName(i: int): (s: string)
    requires 1 <= i <= 31
    ensures 1 <= |s| <= 2 && forall k :: 0 <= k < |s| ==> '0' <= s[k] <= '9'
  {
    if i < 10 then [Digit(i)] else [Digit(i / 10), Digit(i % 10)]
  }

  /** Reads a one- or two-digit decimal numeral. */
  function DayNumber(s: string): (n: int)
    requires 1 <= |s| <= 2
  {
    if |s| == 1 then s[0] as int - 48 else (s[0] as int - 48) * 10 + (s[1] as int - 48)
  }

  /** Day names read back as the day they name, so no two days share a name. */
  lemma DayNameRoundTrip(i: int)
    requires 1 <= i <= 31
    ensures 1 <= |DayName(i)| <= 2 && DayNumber(DayName(i)) == i
  {
  }

  lemma DayNamesDistinct()
    ensures forall i, j :: 1 <= i <= 31 && 1 <= j <= 31 && DayName(i) == DayName(j) ==> i == j
  {
    forall i, j | 1 <= i <= 31 && 1 <= j <= 31 && DayName(i) == DayName(j) ensures i == j {
      DayNameRoundTrip(i);
      DayNameRoundTrip(j);
    }
  }

  /** Where day `i` is printed: seven days to a row, from row 2. */
  function DayCell(i: int): (c: Cell)
    requires 1 <= i <= 31
    ensures InGrid(c.0, c.1) && c.1 >= 2
    ensures (c.1 - 2) * 7 + c.0 == i - 1
  {
    ((i - 1) % 7, 2 + (i - 1) / 7)
  }

  /** The date table: the decimal name of each day 1 to 31, mapped to the
      day's cell. */
  function DateTable(): (t: map<string, Cell>)
    ensures forall d :: d in t ==> InGrid(t[d].0, t[d].1) && t[d].1 >= 2
  {
    DayNamesDistinct();
    map i | 1 <= i <= 31 :: DayName(i) := DayCell(i)
  }

  /** The date table holds exactly the names of days 1 to 31, each mapped
      to its cell. */
  lemma DateTableLookup()
    ensures forall i :: 1 <= i <= 31 ==> DayName(i) in DateTable() && DateTable()[DayName(i)] == DayCell(i)
    ensures forall d :: d in DateTable() ==> exists i :: 1 <= i <= 31 && d == DayName(i)
  {
    DayNamesDistinct();
  }

  /** Every month lies in the first two rows, left of column 6. */
  lemma MonthCellsInTopRows()
    ensures forall m :: m in MonthTable ==> 0 <= MonthTable[m].0 <= 5 && 0 <= MonthTable[m].1 <= 1
  {
  }

  /** Days 29 and 30 fall on cells that are blocked anyway; day 31 does not. */
  lemma LastDays()
    ensures DayCell(29) == (0, 6) && DayCell(29) in BlockedCells
    ensures DayCell(30) == (1, 6) && DayCell(30) in BlockedCells
    ensures DayCell(31) == (2, 6) && DayCell(31) !in BlockedCells
  {
  }

  /** The month cell, the date cell and the blocked cells never coincide,
      except that days 29 and 30 land on blocked cells. */
  lemma MarksDisjoint(m: string, i: int)
    requires m in MonthTable && 1 <= i <= 31
    ensures MonthTable[m] !in BlockedCells
    ensures MonthTable[m] != DayCell(i)
    ensures DayCell(i) in BlockedCells <==> i == 29 || i == 30
  {
  }

  // ---------------------------------------------------------------------
  // The board as a value
  // ---------------------------------------------------------------------

  /** The board as rows: `b[y][x]` is cell (x, y), as in `grid[y, x]`. */
  type Board = seq<seq<int>>

  /** The cells a new grid sets to -1 for `month` and `date`: the blocked
      cells, the month's cell if the month is known and the date's cell if
      the date is known. */
  function Marks(month: string, date: string): (m: set<Cell>)
  {
    Elems(BlockedCells)
    + (if month in MonthTable then {MonthTable[month]} else {})
    + (if date in DateTable() then {DateTable()[date]} else {})
  }

  /** (x, y) is a cell of the board and holds 0. */
  predicate FreeIn(b: Board, x: int, y: int)
  {
    0 <= y < |b| && 0 <= x < |b[y]| && b[y][x] == 0
  }

  /** Every cell of the piece, anchored at (x, y), is a free cell. */
  predicate FitsIn(b: Board, cells: seq<Cell>, x: int, y: int)
  {
    forall i :: 0 <= i < |cells| ==> FreeIn(b, x + cells[i].0, y + cells[i].1)
  }

  /** The board with the cells of the piece anchored at (x, y) set to `v`. */
  function Paint(b: Board, cells: seq<Cell>, v: int, x: int, y: int): (r: Board)
  {
    seq(|b|, yy requires 0 <= yy < |b| =>
      seq(|b[yy]|, xx requires 0 <= xx < |b[yy]| => if (xx - x, yy - y) in cells then v else b[yy][xx]))
  }

  /** What place_piece writes: the piece's cells set to its id. */
  function Place(b: Board, cells: seq<Cell>, id: int, x: int, y: int): (r: Board)
    ensures |r| == |b| && forall yy :: 0 <= yy < |b| ==> |r[yy]| == |b[yy]|
  {
    Paint(b, cells, id, x, y)
  }

  /** What remove_piece writes: the piece's cells set to 0. */
  function Remove(b: Board, cells: seq<Cell>, x: int, y: int): (r: Board)
    ensures |r| == |b| && forall yy :: 0 <= yy < |b| ==> |r[yy]| == |b[yy]|
  {
    Paint(b, cells, 0, x, y)
  }

  /** Two boards of the same shape that agree cell by cell are equal. */
  lemma BoardsEqual(a: Board, b: Board)
    requires |a| == |b|
    requires forall y :: 0 <= y < |a| ==> |a[y]| == |b[y]|
    requires forall y, x :: 0 <= y < |a| && 0 <= x < |a[y]| ==> a[y][x] == b[y][x]
    ensures a == b
  {
    forall y | 0 <= y < |a| ensures a[y] == b[y] {
      assert |a[y]| == |b[y]|;
    }
  }

  /** A 7x7 board that holds `v` under the piece and agrees with `b`
      elsewhere is `b` painted with the piece. */
  lemma PaintedBoard(b: Board, after: Board, cells: seq<Cell>, v: int, x: int, y: int)
    requires |b| == GridSize && forall yy :: 0 <= yy < GridSize ==> |b[yy]| == GridSize
    requires |after| == GridSize && forall yy :: 0 <= yy < GridSize ==> |after[yy]| == GridSize
    requires forall xx, yy :: InGrid(xx, yy) ==>
               after[yy][xx] == if (xx - x, yy - y) in cells then v else b[yy][xx]
    ensures after == Paint(b, cells, v, x, y)
  {
    BoardsEqual(after, Paint(b, cells, v, x, y));
  }

  /** Removing a piece right after placing it restores the board. */
  lemma RemoveUndoesPlace(b: Board, cells: seq<Cell>, id: int, x: int, y: int)
    requires FitsIn(b, cells, x, y)
    ensures Remove(Place(b, cells, id, x, y), cells, x, y) == b
  {
    var r := Remove(Place(b, cells, id, x, y), cells, x, y);
    forall yy | 0 <= yy < |b| ensures r[yy] == b[yy] {
      forall xx | 0 <= xx < |b[yy]| ensures r[yy][xx] == b[yy][xx] {
        PaintedWasFree(b, cells, x, y, xx, yy);
      }
    }
  }

  /** Under a piece that fits, every cell was free. */
  lemma PaintedWasFree(b: Board, cells: seq<Cell>, x: int, y: int, xx: int, yy: int)
    requires FitsIn(b, cells, x, y) && 0 <= yy < |b| && 0 <= xx < |b[yy]|
    ensures (xx - x, yy - y) in cells ==> b[yy][xx] == 0
  {
    if (xx - x, yy - y) in cells {
      var i :| 0 <= i < |cells| && cells[i] == (xx - x, yy - y);
      assert FreeIn(b, x + cells[i].0, y + cells[i].1);
    }
  }

  /** A placed piece with a non-zero id blocks its own spot: the same piece
      no longer fits there. */
  lemma PlacedPieceOccupies(b: Board, cells: seq<Cell>, id: int, x: int, y: int)
    requires FitsIn(b, cells, x, y) && cells != [] && id != 0
    ensures !FitsIn(Place(b, cells, id, x, y), cells, x, y)
  {
    var xx, yy := x + cells[0].0, y + cells[0].1;
    assert FreeIn(b, xx, yy);
    assert (xx - x, yy - y) == cells[0];
    assert Place(b, cells, id, x, y)[yy][xx] == id;
  }

  /** After placing a piece with a non-zero id, the free cells are those
      that were free before and are not under the piece. */
  lemma FreeAfterPlace(b: Board, cells: seq<Cell>, id: int, x: int, y: int, xx: int, yy: int)
    requires id != 0
    ensures FreeIn(Place(b, cells, id, x, y), xx, yy) <==> FreeIn(b, xx, yy) && (xx - x, yy - y) !in cells
  {
  }

  /** After removing a piece, the free cells are those that were free before
      and those of the board under the piece. */
  lemma FreeAfterRemove(b: Board, cells: seq<Cell>, x: int, y: int, xx: int, yy: int)
    ensures FreeIn(Remove(b, cells, x, y), xx, yy)
            <==> FreeIn(b, xx, yy) || (0 <= yy < |b| && 0 <= xx < |b[yy]| && (xx - x, yy - y) in cells)
  {
  }

  /** With a known month and day, a new grid blocks eight cells, or seven
      for days 29 and 30, whose cells are blocked anyway. */
  lemma MarkCount(m: string, i: int)
    requires m in MonthTable && 1 <= i <= 31
    ensures |Marks(m, DayName(i))| == if i == 29 || i == 30 then 7 else 8
  {
    BlockedCount();
    MarksOfDay(m, i);
    MarksDisjoint(m, i);
    var corners := Elems(BlockedCells);
    assert |corners + {MonthTable[m]}| == 7;
  }

  /** The six blocked cells are distinct. */
  lemma BlockedCount()
    ensures |Elems(BlockedCells)| == 6
  {
    assert Elems(BlockedCells) == {(6, 0), (6, 1), (0, 6), (1, 6), (5, 6), (6, 6)};
  }

  /** With a known month and day, the marks are the blocked cells, the
      month's cell and the day's cell. */
  lemma MarksOfDay(m: string, i: int)
    requires m in MonthTable && 1 <= i <= 31
    ensures Marks(m, DayName(i)) == Elems(BlockedCells) + {MonthTable[m], DayCell(i)}
  {
    DateTableLookup();
  }

  // ---------------------------------------------------------------------
  // The grid object
  // ---------------------------------------------------------------------

  class PuzzleGrid {
    const grid: array2<int>

    predicate Valid()
      reads this
    {
      grid.Length0 == GridSize && grid.Length1 == GridSize
    }

    /** The grid's contents as a board; `grid[y, x]` is cell (x, y). */
    ghost function Contents(): (b: Board)
      requires Valid()
      reads this, grid
      ensures |b| == GridSize && forall y :: 0 <= y < GridSize ==> |b[y]| == GridSize
      ensures forall x, y :: InGrid(x, y) ==> b[y][x] == grid[y, x]
    {
      var g := grid;
      seq(g.Length0, y requires 0 <= y < g.Length0 reads g =>
        seq(g.Length1, x requires 0 <= x < g.Length1 reads g => g[y, x]))
    }

    /** A zeroed 7x7 grid with the blocked cells, the month's cell (if the
        month is known) and the date's cell (if the date is known) set to -1. */
    constructor (month: string, date: string)
      ensures Valid() && fresh(grid)
      ensures forall x, y :: InGrid(x, y) ==> grid[y, x] == if (x, y) in Marks(month, date) then -1 else 0
    {
      var g := new int[GridSize, GridSize]((_, _) => 0);
      BlockCorners(g);
      MarkMonthAndDate(g, month, date);
      grid := g;
      new;
    }

    /** The constructor's loop over the blocked cells. */
    static method BlockCorners(g: array2<int>)
      requires Shows(g, {})
      modifies g
      ensures Shows(g, Elems(BlockedCells))
    {
      ghost var marked: set<Cell> := {};
      for i := 0 to |BlockedCells|
        invariant marked == Elems(BlockedCells[..i])
        invariant Shows(g, marked)
      {
        var (x, y) := BlockedCells[i];
        Block(g, marked, x, y);
        PrefixSnoc(BlockedCells, i);
        marked := marked + {(x, y)};
      }
      assert BlockedCells[..|BlockedCells|] == BlockedCells;
    }

    /** The constructor's month and date steps. */
    static method MarkMonthAndDate(g: array2<int>, month: string, date: string)
      requires Shows(g, Elems(BlockedCells))
      modifies g
      ensures Shows(g, Marks(month, date))
    {
      ghost var marked := Elems(BlockedCells);
      if month in MonthTable {
        MonthCellsInTopRows();
        var (mx, my) := MonthTable[month];
        Block(g, marked, mx, my);
        marked := marked + {(mx, my)};
      }
      if date in DateTable() {
        var (dx, dy) := DateTable()[date];
        Block(g, marked, dx, dy);
        marked := marked + {(dx, dy)};
      }
    }

    /** `g` is a 7x7 grid holding -1 exactly on the cells of `marked`. */
    static ghost predicate Shows(g: array2<int>, marked: set<Cell>)
      reads g
    {
      g.Length0 == GridSize && g.Length1 == GridSize
      && forall x, y :: InGrid(x, y) ==> g[y, x] == if (x, y) in marked then -1 else 0
    }

    /** One `grid[y, x] = -1` of the constructor. */
    static method Block(g: array2<int>, ghost marked: set<Cell>, x: int, y: int)
      requires Shows(g, marked) && InGrid(x, y)
      modifies g
      ensures Shows(g, marked + {(x, y)})
    {
      g[y, x] := -1;
    }

    /** is_free: inside the grid and holding 0. */
    predicate IsFree(x: int, y: int)
      requires Valid()
      reads this, grid
      ensures IsFree(x, y) <==> FreeIn(Contents(), x, y)
    {
      0 <= x < GridSize && 0 <= y < GridSize && grid[y, x] == 0
    }

    /** The test place_piece makes: every cell of the piece is free. */
    predicate Fits(cells: seq<Cell>, x: int, y: int)
      requires Valid()
      reads this, grid
      ensures Fits(cells, x, y) <==> FitsIn(Contents(), cells, x, y)
    {
      forall i :: 0 <= i < |cells| ==> IsFree(x + cells[i].0, y + cells[i].1)
    }

    /** place_piece: all or nothing. */
    method PlacePiece(piece: Piece, pieceId: int, x: int, y: int) returns (placed: bool)
      requires Valid()
      modifies grid
      ensures placed == old(FitsIn(Contents(), piece.cells, x, y))
      ensures Contents() == if placed then Place(old(Contents()), piece.cells, pieceId, x, y) else old(Contents())
    {
      var cells := piece.cells;
      if Fits(cells, x, y) {
        WriteCells(cells, pieceId, x, y);
        return true;
      }
      return false;
    }

    /** The write loop of place_piece, once every cell is known to be free. */
    method WriteCells(cells: seq<Cell>, v: int, x: int, y: int)
      requires Valid() && FitsIn(Contents(), cells, x, y)
      modifies grid
      ensures Contents() == Paint(old(Contents()), cells, v, x, y)
    {
      ghost var before := Contents();
      for i := 0 to |cells|
        invariant forall xx, yy :: InGrid(xx, yy) ==>
                    grid[yy, xx] == if (xx - x, yy - y) in cells[..i] then v else before[yy][xx]
      {
        var (dx, dy) := cells[i];
        assert FreeIn(before, x + dx, y + dy);
        grid[y + dy, x + dx] := v;
        PrefixSnoc(cells, i);
      }
      assert cells[..|cells|] == cells;
      PaintedBoard(before, Contents(), cells, v, x, y);
    }

    /** remove_piece: zero each cell of the piece that lies inside the grid. */
    method RemovePiece(piece: Piece, x: int, y: int)
      requires Valid()
      modifies grid
      ensures Contents() == Remove(old(Contents()), piece.cells, x, y)
    {
      var cells := piece.cells;
      ghost var before := Contents();
      for i := 0 to |cells|
        invariant forall xx, yy :: InGrid(xx, yy) ==>
                    grid[yy, xx] == if (xx - x, yy - y) in cells[..i] then 0 else before[yy][xx]
      {
        var (dx, dy) := cells[i];
        if 0 <= x + dx < GridSize && 0 <= y + dy < GridSize {
          grid[y + dy, x + dx] := 0;
        }
        PrefixSnoc(cells, i);
      }
      assert cells[..|cells|] == cells;
      PaintedBoard(before, Contents(), cells, 0, x, y);
    }
  }

  /** The row-major position of an anchor. */
  function RowMajor(a: Cell): (n: int)
  {
    a.1 * GridSize + a.0
  }

  class PuzzleSolver {
    const grid: PuzzleGrid
    const pieces: seq<Piece>

    constructor (grid: PuzzleGrid, pieces: seq<Piece>)
      ensures this.grid == grid && this.pieces == pieces
    {
      this.grid := grid;
      this.pieces := pieces;
    }

    predicate Valid()
      reads this, grid
    {
      grid.Valid()
    }

    /** can_place: the piece anchored at (x, y) fits on the board. */
    predicate CanPlace(piece: Piece, x: int, y: int)
      requires Valid()
      reads this, grid, grid.grid, piece
      ensures CanPlace(piece, x, y) <==> FitsIn(grid.Contents(), piece.cells, x, y)
    {
      grid.Fits(piece.cells, x, y)
    }

    /** find_valid_placements: every anchor in the grid where the piece
        fits, in row-major order (y outer, x inner). */
    method FindValidPlacements(piece: Piece) returns (anchors: seq<Cell>)
      requires Valid()
      ensures forall a :: a in anchors ==> InGrid(a.0, a.1) && CanPlace(piece, a.0, a.1)
      ensures forall x, y :: InGrid(x, y) && CanPlace(piece, x, y) ==> (x, y) in anchors
      ensures forall i, j :: 0 <= i < j < |anchors| ==> RowMajor(anchors[i]) < RowMajor(anchors[j])
    {
      anchors := [];
      for y := 0 to GridSize
        invariant forall a :: a in anchors ==> InGrid(a.0, a.1) && CanPlace(piece, a.0, a.1) && RowMajor(a) < y * GridSize
        invariant forall xx, yy :: InGrid(xx, yy) && yy < y && CanPlace(piece, xx, yy) ==> (xx, yy) in anchors
        invariant forall i, j :: 0 <= i < j < |anchors| ==> RowMajor(anchors[i]) < RowMajor(anchors[j])
      {
        for x := 0 to GridSize
          invariant forall a :: a in anchors ==> InGrid(a.0, a.1) && CanPlace(piece, a.0, a.1) && RowMajor(a) < y * GridSize + x
          invariant forall xx, yy :: InGrid(xx, yy) && (yy < y || (yy == y && xx < x)) && CanPlace(piece, xx, yy) ==> (xx, yy) in anchors
          invariant forall i, j :: 0 <= i < j < |anchors| ==> RowMajor(anchors[i]) < RowMajor(anchors[j])
        {
          if CanPlace(piece, x, y) {
            anchors := anchors + [(x, y)];
          }
        }
      }
    }
  }
}
