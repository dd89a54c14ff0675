/**
 Grid geometry of the checkerboard: the four compass directions, grid
 coordinates, and the neighbour lookup `findNext`.
 */
module Grid {
  import opened Wrappers

  /** The four pointer directions a cell can show. */
  datatype Direction = Up | Down | Left | Right

  /** A grid coordinate. The source's `PIXI.Point` keeps the column in `x`
      and the row in `y`; here both are named. */
  datatype Pos = Pos(row: int, col: int)

  /** True when `p` lies on a board of `numRows` by `numColumns` cells. */
  predicate OnBoard(numRows: int, numColumns: int, p: Pos) {
    0 <= p.row < numRows && 0 <= p.col < numColumns
  }

  /** The fixed offset table: one step in direction `d`, ignoring the edges. */
  function Shift(p: Pos, d: Direction): Pos {
    match d
    case Up => Pos(p.row - 1, p.col)
    case Down => Pos(p.row + 1, p.col)
    case Left => Pos(p.row, p.col - 1)
    case Right => Pos(p.row, p.col + 1)
  }

  /** Two coordinates are grid neighbours: they differ by one in exactly one axis. */
  predicate Adjacent(p: Pos, q: Pos) {
    (p.row == q.row && (p.col - q.col == 1 || q.col - p.col == 1)) ||
    (p.col == q.col && (p.row - q.row == 1 || q.row - p.row == 1))
  }

  /** The cell one step from (`row`, `col`) in direction `dir`, or `None`
      when the step would leave the board. */
  function FindNext(numRows: int, numColumns: int, row: int, col: int, dir: Direction): (r: Option<Pos>)
    ensures r.Some? ==> r.value == Shift(Pos(row, col), dir) && Adjacent(Pos(row, col), r.value)
    ensures OnBoard(numRows, numColumns, Pos(row, col)) ==>
              (r.Some? <==> OnBoard(numRows, numColumns, Shift(Pos(row, col), dir)))
  {
    match dir
    case Up => if row > 0 then Some(Pos(row - 1, col)) else None
    case Right => if col < numColumns - 1 then Some(Pos(row, col + 1)) else None
    case Down => if row < numRows - 1 then Some(Pos(row + 1, col)) else None
    case Left => if col > 0 then Some(Pos(row, col - 1)) else None
  }

  /** `findNext` refuses exactly the four edge moves: Up from the top row,
      Down from the bottom row, Left from the first column and Right from
      the last column. */
  lemma FindNextAtEdge(numRows: int, numColumns: int, row: int, col: int, dir: Direction)
    requires OnBoard(numRows, numColumns, Pos(row, col))
    ensures FindNext(numRows, numColumns, row, col, dir).None? <==>
              || (dir == Up && row == 0)
              || (dir == Down && row == numRows - 1)
              || (dir == Left && col == 0)
              || (dir == Right && col == numColumns - 1)
  {
  }

  /** Every on-board neighbour is reached by exactly one direction, and
      `findNext` returns it for that direction. */
  lemma FindNextReachesEveryNeighbour(numRows: int, numColumns: int, p: Pos, q: Pos)
    requires OnBoard(numRows, numColumns, p) && OnBoard(numRows, numColumns, q)
    requires Adjacent(p, q)
    ensures exists d :: FindNext(numRows, numColumns, p.row, p.col, d) == Some(q)
    ensures forall d, e ::
              (FindNext(numRows, numColumns, p.row, p.col, d) == Some(q) &&
               FindNext(numRows, numColumns, p.row, p.col, e) == Some(q)) ==> d == e
  {
    var d := if q.row < p.row then Up else if q.row > p.row then Down
             else if q.col < p.col then Left else Right;
    assert FindNext(numRows, numColumns, p.row, p.col, d) == Some(q);
  }
}
