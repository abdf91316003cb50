/** The playing field: a GRID_SIZE x GRID_SIZE torus of cells, the coordinate
    helpers of the engine (coordsEqual, isOutOfBounds, wraparound, getNextMove)
    and the counting facts about the grid that the engine relies on. */
module Grid {

  /** Side of the square board (GRID_SIZE). */
  const GridSize: int := 5
  /** Capacity of the tail array (MAX_SNAKE_LENGTH). */
  const MaxSnakeLength: int := 24

  /** A cell; the source stores both components as int8_t, and every value the
      engine produces lies in [-1, GridSize], far inside that range. */
  datatype Coords = Coords(row: int, col: int)

  datatype Direction = Up | Down | Left | Right

  predicate InGrid(c: Coords) {
    0 <= c.row < GridSize && 0 <= c.col < GridSize
  }

  predicate AllInGrid(s: seq<Coords>) {
    forall i :: 0 <= i < |s| ==> InGrid(s[i])
  }

  /** No cell occurs twice. */
  predicate Distinct<T(==)>(s: seq<T>) {
    forall i, j :: 0 <= i < j < |s| ==> s[i] != s[j]
  }

  /** Component-wise comparison, as coordsEqual does it. */
  function CoordsEqual(a: Coords, b: Coords): (r: bool)
    ensures r <==> a == b
  {
    a.row == b.row && a.col == b.col
  }

  function IsOutOfBounds(c: Coords): (r: bool)
    ensures r <==> !InGrid(c)
    ensures !r <==> Wraparound(c) == c
  {
    c.row < 0 || c.row >= GridSize || c.col < 0 || c.col >= GridSize
  }

  /** Each axis independently: below 0 becomes GridSize - 1, GridSize or more
      becomes 0, anything else is kept. For the values one step off the board
      this is reduction modulo GridSize. */
  function Wraparound(c: Coords): (r: Coords)
    ensures InGrid(r)
    ensures -1 <= c.row <= GridSize ==> r.row == c.row % GridSize
    ensures -1 <= c.col <= GridSize ==> r.col == c.col % GridSize
  {
    var row := if c.row < 0 then GridSize - 1 else if c.row >= GridSize then 0 else c.row;
    var col := if c.col < 0 then GridSize - 1 else if c.col >= GridSize then 0 else c.col;
    Coords(row, col)
  }

  function RowDelta(d: Direction): int {
    match d
    case Up => -1
    case Down => 1
    case _ => 0
  }

  function ColDelta(d: Direction): int {
    match d
    case Left => -1
    case Right => 1
    case _ => 0
  }

  /** The cell the head enters when it moves one step in direction d. */
  function NextMove(head: Coords, d: Direction): (r: Coords)
    ensures InGrid(r)
    ensures InGrid(head) ==>
              r == Coords((head.row + RowDelta(d)) % GridSize, (head.col + ColDelta(d)) % GridSize)
    ensures InGrid(head) ==> r != head
  {
    var next := match d
      case Up => Coords(head.row - 1, head.col)
      case Down => Coords(head.row + 1, head.col)
      case Left => Coords(head.row, head.col - 1)
      case Right => Coords(head.row, head.col + 1);
    if IsOutOfBounds(next) then Wraparound(next) else next
  }

  /** Every cell of the board once, row by row. */
  function AllCells(): seq<Coords> {
    seq(GridSize * GridSize, k requires 0 <= k < GridSize * GridSize => Coords(k / GridSize, k % GridSize))
  }

  lemma AllCellsEnumerateGrid()
    ensures |AllCells()| == GridSize * GridSize
    ensures Distinct(AllCells())
    ensures forall c :: InGrid(c) <==> c in AllCells()
  {
    var cells := AllCells();
    forall i, j | 0 <= i < j < |cells| ensures cells[i] != cells[j] {
      assert i == GridSize * (i / GridSize) + i % GridSize;
      assert j == GridSize * (j / GridSize) + j % GridSize;
    }
    forall c | InGrid(c) ensures c in cells {
      var k := GridSize * c.row + c.col;
      assert k / GridSize == c.row && k % GridSize == c.col;
      assert cells[k] == c;
    }
  }

  /** Pigeonhole: a sequence of distinct values longer than b has a value
      that b does not contain. */
  lemma {:induction false} Pigeonhole<T>(a: seq<T>, b: seq<T>)
    requires Distinct(a) && |a| > |b|
    ensures exists x :: x in a && x !in b
  {
    if b == [] {
      assert a[0] in a;
    } else if b[0] in a {
      var i :| 0 <= i < |a| && a[i] == b[0];
      var rest := a[..i] + a[i + 1..];
      assert forall x :: x in rest ==> x in a && x != b[0];
      Pigeonhole(rest, b[1..]);
      var x :| x in rest && x !in b[1..];
      assert x in a && x !in b;
    } else {
      Pigeonhole(a, b[1..]);
      var x :| x in a && x !in b[1..];
      assert x !in b;
    }
  }

  /** A snake of fewer than GridSize * GridSize cells leaves a cell free: the
      sampling loop of getRandomCoords has something to find. */
  lemma FreeCellExists(body: seq<Coords>)
    requires |body| < GridSize * GridSize
    ensures exists r, c :: 0 <= r < GridSize && 0 <= c < GridSize && Coords(r, c) !in body
  {
    AllCellsEnumerateGrid();
    Pigeonhole(AllCells(), body);
    var x :| x in AllCells() && x !in body;
    assert InGrid(x) && Coords(x.row, x.col) !in body;
  }

  /** GridSize * GridSize distinct cells on the board are the whole board. */
  lemma DistinctCellsFillGrid(body: seq<Coords>)
    requires Distinct(body) && AllInGrid(body) && |body| == GridSize * GridSize
    ensures forall c :: InGrid(c) ==> c in body
  {
    AllCellsEnumerateGrid();
    forall c | InGrid(c) ensures c in body {
      if c !in body {
        var more := body + [c];
        assert Distinct(more);
        Pigeonhole(more, AllCells());
        assert false;
      }
    }
  }
}
