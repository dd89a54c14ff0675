/**
 The checkerboard: a rectangular grid of cells, a cursor, and the round's
 end flag. This module holds the data model, construction (`constructor`,
 `createBoard`) and pointer shuffling (`shuffleArrows`). The random
 direction draws are an input: a `Draw` names the direction each cell gets.
 */
module Checkerboard {
  import opened Wrappers
  import opened Grid

  /** Smallest accepted board dimension ("too simple" below it). */
  const MinSize: int := 3
  /** Largest accepted board dimension ("more won't fit"). */
  const MaxSize: int := 41

  /** One grid cell. `pointer` is `None` until the first shuffle (the
      source leaves `pointerDirection` undefined); `next` is the successor
      link the cycle detector follows. */
  datatype Cell = Cell(next: Option<Pos>, pointer: Option<Direction>, occupied: bool, visited: bool)

  /** A newly allocated cell. */
  const BlankCell: Cell := Cell(None, None, false, false)

  /** The cursor value meaning "no cursor": the source's point (-1, -1). */
  const NoCursor: Pos := Pos(-1, -1)

  /** The board. `ended` is the source's global `hasEnded` flag. */
  datatype Board = Board(grid: seq<seq<Cell>>, cursor: Pos, ended: bool)

  /** The random direction each cell receives when the arrows are shuffled. */
  type Draw = Pos -> Direction

  /** At least one row, and every row as long as the first. */
  predicate Rectangular(g: seq<seq<Cell>>) {
    |g| >= 1 && forall r :: 0 <= r < |g| ==> |g[r]| == |g[0]|
  }

  /** The `numRows` getter: the length of the grid. A rectangular grid,
      like the `[[]]` that `createBoard` starts from, has at least one row. */
  function NumRows(b: Board): (n: int)
    ensures n >= 0
    ensures Rectangular(b.grid) ==> n >= 1
  {
    |b.grid|
  }

  /** The `numColumns` getter: the length of the first row, which on a
      rectangular grid is the length of every row. */
  function NumColumns(b: Board): (n: int)
    requires |b.grid| >= 1
    ensures n >= 0
    ensures Rectangular(b.grid) ==> forall r :: 0 <= r < |b.grid| ==> |b.grid[r]| == n
  {
    |b.grid[0]|
  }

  predicate OnGrid(b: Board, p: Pos)
    requires Rectangular(b.grid)
  {
    OnBoard(NumRows(b), NumColumns(b), p)
  }

  function CellAt(b: Board, p: Pos): Cell
    requires Rectangular(b.grid) && OnGrid(b, p)
  {
    b.grid[p.row][p.col]
  }

  /** The class invariant every operation keeps: a rectangular grid, a
      cursor that is either absent or on the grid, and successor links
      that stay on the grid. */
  ghost predicate Valid(b: Board) {
    && Rectangular(b.grid)
    && (b.cursor == NoCursor || OnGrid(b, b.cursor))
    && forall p {:trigger CellAt(b, p)} :: OnGrid(b, p) && CellAt(b, p).next.Some? ==> OnGrid(b, CellAt(b, p).next.value)
  }

  /** Same grid shape. */
  predicate SameShape(a: Board, b: Board)
    requires Rectangular(a.grid) && Rectangular(b.grid)
  {
    NumRows(a) == NumRows(b) && NumColumns(a) == NumColumns(b)
  }

  /** Where a cell's pointer leads: `findNext` applied to its direction,
      and nothing while the direction is still undefined. */
  function Target(b: Board, p: Pos): (r: Option<Pos>)
    requires Rectangular(b.grid) && OnGrid(b, p)
    ensures r.Some? ==> OnGrid(b, r.value) && Adjacent(p, r.value)
  {
    match CellAt(b, p).pointer
    case None => None
    case Some(d) => FindNext(NumRows(b), NumColumns(b), p.row, p.col, d)
  }

  /** Every cell's successor link is exactly where its pointer leads. */
  ghost predicate WellLinked(b: Board)
    requires Rectangular(b.grid)
  {
    forall p {:trigger CellAt(b, p)} :: OnGrid(b, p) ==> CellAt(b, p).next == Target(b, p)
  }

  /** Same shape, and every cell has the same pointer and the same link:
      the part of a board a shuffle decides. */
  ghost predicate SameArrows(a: Board, b: Board)
    requires Rectangular(a.grid) && Rectangular(b.grid)
  {
    && SameShape(a, b)
    && forall p {:trigger CellAt(a, p)} {:trigger CellAt(b, p)} :: OnGrid(a, p) ==>
         CellAt(a, p).pointer == CellAt(b, p).pointer && CellAt(a, p).next == CellAt(b, p).next
  }

  lemma SameArrowsKeepWellLinked(a: Board, b: Board)
    requires Rectangular(a.grid) && Rectangular(b.grid)
    requires SameArrows(a, b) && WellLinked(a)
    ensures WellLinked(b)
  {
    forall p | OnGrid(b, p)
      ensures CellAt(b, p).next == Target(b, p)
    {
      assert CellAt(a, p).next == Target(a, p);
    }
  }

  lemma SameArrowsTransitive(a: Board, b: Board, c: Board)
    requires Rectangular(a.grid) && Rectangular(b.grid) && Rectangular(c.grid)
    requires SameArrows(a, b) && SameArrows(b, c)
    ensures SameArrows(a, c)
  {
  }

  /** Replace the cell at `p`. */
  function SetCell(b: Board, p: Pos, cell: Cell): (r: Board)
    requires Rectangular(b.grid) && OnGrid(b, p)
    ensures Rectangular(r.grid) && SameShape(r, b)
    ensures r.cursor == b.cursor && r.ended == b.ended
    ensures CellAt(r, p) == cell
    ensures forall q {:trigger CellAt(r, q)} {:trigger CellAt(b, q)} :: OnGrid(b, q) && q != p ==> CellAt(r, q) == CellAt(b, q)
  {
    b.(grid := b.grid[p.row := b.grid[p.row][p.col := cell]])
  }

  // ---------------------------------------------------------------------
  // getCell
  // ---------------------------------------------------------------------

  /** What `grid[row][col]` yields in JavaScript: a cell, `undefined` when
      only the column is out of range, or a thrown TypeError when the row
      is out of range. */
  datatype Access = Found(cell: Cell) | Undefined | Thrown

  function GetCell(b: Board, row: int, col: int): (r: Access)
    requires Rectangular(b.grid)
    ensures r.Thrown? <==> !(0 <= row < NumRows(b))
    ensures r.Found? <==> OnGrid(b, Pos(row, col))
    ensures r.Found? ==> r.cell == CellAt(b, Pos(row, col))
  {
    if !(0 <= row < |b.grid|) then Thrown
    else if !(0 <= col < |b.grid[row]|) then Undefined
    else Found(b.grid[row][col])
  }

  // ---------------------------------------------------------------------
  // shuffleArrows
  // ---------------------------------------------------------------------

  /** One cell of a shuffle, as the source writes it: the link is
      overwritten only when the new direction stays on the board. */
  function ShuffleCellAsWritten(cell: Cell, numRows: int, numColumns: int, p: Pos, d: Direction): Cell {
    var target := FindNext(numRows, numColumns, p.row, p.col, d);
    cell.(pointer := Some(d), next := if target.Some? then target else cell.next)
  }

  /** One cell of a shuffle, corrected: the link is always recomputed. */
  function ShuffleCell(cell: Cell, numRows: int, numColumns: int, p: Pos, d: Direction): Cell {
    cell.(pointer := Some(d), next := FindNext(numRows, numColumns, p.row, p.col, d))
  }

  /** `shuffleArrows` exactly as the source writes it. A cell whose new
      direction points off the board keeps whatever link it had. */
  function ShuffleArrowsAsWritten(b: Board, draw: Draw): (r: Board)
    requires Valid(b)
    ensures Valid(r) && SameShape(r, b)
    ensures r.cursor == b.cursor && r.ended == b.ended
    ensures forall p :: OnGrid(b, p) ==>
              var was := CellAt(b, p);
              var now := CellAt(r, p);
              && now.pointer == Some(draw(p))
              && now.occupied == was.occupied && now.visited == was.visited
              && var target := FindNext(NumRows(b), NumColumns(b), p.row, p.col, draw(p));
                 now.next == (if target.Some? then target else was.next)
  {
    var rows := NumRows(b);
    var cols := NumColumns(b);
    var r := b.(grid := seq(rows, r requires 0 <= r < rows =>
                          seq(cols, c requires 0 <= c < cols =>
                            ShuffleCellAsWritten(b.grid[r][c], rows, cols, Pos(r, c), draw(Pos(r, c))))));
    assert forall p :: OnGrid(r, p) ==> CellAt(r, p) == ShuffleCellAsWritten(CellAt(b, p), rows, cols, p, draw(p));
    assert forall p :: OnGrid(r, p) && CellAt(r, p).next.Some? ==> OnGrid(r, CellAt(r, p).next.value);
    r
  }

  /** `shuffleArrows` with every link recomputed: each cell gets the drawn
      direction and the link `findNext` gives for it, null when it points
      off the board. Nothing else on the board changes. */
  function ShuffleArrows(b: Board, draw: Draw): (r: Board)
    requires Valid(b)
    ensures Valid(r) && SameShape(r, b) && WellLinked(r)
    ensures r.cursor == b.cursor && r.ended == b.ended
    ensures forall p :: OnGrid(b, p) ==>
              && CellAt(r, p).pointer == Some(draw(p))
              && CellAt(r, p).occupied == CellAt(b, p).occupied
              && CellAt(r, p).visited == CellAt(b, p).visited
  {
    var rows := NumRows(b);
    var cols := NumColumns(b);
    b.(grid := seq(rows, r requires 0 <= r < rows =>
                 seq(cols, c requires 0 <= c < cols =>
                   ShuffleCell(b.grid[r][c], rows, cols, Pos(r, c), draw(Pos(r, c))))))
  }

  /** On a board whose links are all still null (a freshly created one)
      the source's shuffle and the corrected one agree. */
  lemma ShuffleAgreesOnUnlinkedBoard(b: Board, draw: Draw)
    requires Valid(b)
    requires forall p :: OnGrid(b, p) ==> CellAt(b, p).next.None?
    ensures ShuffleArrowsAsWritten(b, draw) == ShuffleArrows(b, draw)
  {
    var x := ShuffleArrowsAsWritten(b, draw);
    var y := ShuffleArrows(b, draw);
    assert |x.grid| == |y.grid|;
    forall r | 0 <= r < |x.grid|
      ensures x.grid[r] == y.grid[r]
    {
      assert |x.grid[r]| == |y.grid[r]|;
      forall c | 0 <= c < |x.grid[r]|
        ensures x.grid[r][c] == y.grid[r][c]
      {
        assert CellAt(x, Pos(r, c)) == CellAt(y, Pos(r, c));
      }
    }
  }

  /** A second shuffle can leave a link that disagrees with its pointer:
      cell (0, 0) of a 3 x 3 board first points Right, then Up, and keeps
      its link to (0, 1). */
  lemma ShuffleAsWrittenLeavesStaleLink()
    ensures var b0 := CreateBoard(Board([], NoCursor, false), 3, 3, _ => Right);
            var b1 := ShuffleArrowsAsWritten(b0, _ => Up);
            && CellAt(b1, Pos(0, 0)).pointer == Some(Up)
            && CellAt(b1, Pos(0, 0)).next == Some(Pos(0, 1))
            && Target(b1, Pos(0, 0)) == None
            && !WellLinked(b1)
  {
    var b0 := CreateBoard(Board([], NoCursor, false), 3, 3, _ => Right);
    assert OnGrid(b0, Pos(0, 0));
    assert CellAt(b0, Pos(0, 0)).next == Some(Pos(0, 1));
  }

  // ---------------------------------------------------------------------
  // createBoard and the constructor
  // ---------------------------------------------------------------------

  /** The grid `createBoard` allocates: it starts from `[[]]` and fills in
      rows `0 .. numRows - 1`, so a non-positive row count leaves one empty
      row. */
  function FreshGrid(numRows: int, numColumns: int): (g: seq<seq<Cell>>)
    ensures Rectangular(g)
    ensures |g| == (if numRows >= 1 then numRows else 1)
    ensures |g[0]| == (if numRows >= 1 && numColumns >= 1 then numColumns else 0)
    ensures forall r, c :: 0 <= r < |g| && 0 <= c < |g[r]| ==> g[r][c] == BlankCell
  {
    if numRows < 1 then [[]]
    else
      var cols := if numColumns < 1 then 0 else numColumns;
      seq(numRows, _ => seq(cols, _ => BlankCell))
  }

  /** `createBoard`: a new grid, no cursor, every arrow freshly drawn and
      linked. The round-ended flag is left as it was. */
  function CreateBoard(b: Board, numRows: int, numColumns: int, draw: Draw): (r: Board)
    ensures Valid(r) && WellLinked(r)
    ensures NumRows(r) == (if numRows >= 1 then numRows else 1)
    ensures NumColumns(r) == (if numRows >= 1 && numColumns >= 1 then numColumns else 0)
    ensures r.cursor == NoCursor && r.ended == b.ended
    ensures forall p :: OnGrid(r, p) ==>
              && CellAt(r, p).pointer == Some(draw(p))
              && !CellAt(r, p).occupied && !CellAt(r, p).visited
  {
    var blank := Board(FreshGrid(numRows, numColumns), NoCursor, b.ended);
    assert forall p :: OnGrid(blank, p) ==> CellAt(blank, p) == BlankCell;
    ShuffleAgreesOnUnlinkedBoard(blank, draw);
    ShuffleArrows(blank, draw)
  }

  /** The three outcomes of `new Checkerboard(numRows, numColumns)`: an
      exception, an object left without a grid, or a board. */
  datatype Construction = Rejected | Ungridded | Built(board: Board)

  /** The constructor as the source writes it: it throws only for too few
      rows; other out-of-range sizes fall through the nested checks and
      build nothing. `hasEnded` starts false. */
  function Construct(numRows: int, numColumns: int, draw: Draw): (r: Construction)
    ensures r.Rejected? <==> numRows < MinSize
    ensures r.Built? <==> MinSize <= numRows <= MaxSize && MinSize <= numColumns <= MaxSize
    ensures r.Built? ==>
              && Valid(r.board) && WellLinked(r.board)
              && NumRows(r.board) == numRows && NumColumns(r.board) == numColumns
              && r.board.cursor == NoCursor && !r.board.ended
              && forall p :: OnGrid(r.board, p) ==> !CellAt(r.board, p).occupied && !CellAt(r.board, p).visited
  {
    if numRows >= MinSize then
      if numColumns >= MinSize then
        if numColumns <= MaxSize then
          if numRows <= MaxSize then
            Built(CreateBoard(Board([], NoCursor, false), numRows, numColumns, draw))
          else Ungridded
        else Ungridded
      else Ungridded
    else Rejected
  }

  /** The one error a board size can raise. */
  datatype SizeError = InvalidSize

  /** The constructor with both dimensions checked against both bounds. */
  function ConstructChecked(numRows: int, numColumns: int, draw: Draw): (r: Result<Board, SizeError>)
    ensures r.Success? <==> MinSize <= numRows <= MaxSize && MinSize <= numColumns <= MaxSize
    ensures r.Success? ==> Construct(numRows, numColumns, draw) == Built(r.value)
  {
    if MinSize <= numRows <= MaxSize && MinSize <= numColumns <= MaxSize then
      Success(CreateBoard(Board([], NoCursor, false), numRows, numColumns, draw))
    else
      Failure(InvalidSize)
  }

  /** A 3 x 42 request neither throws nor builds a board in the source,
      while the checked constructor reports it. */
  lemma ConstructLeavesBoardUngridded(draw: Draw)
    ensures Construct(3, 42, draw) == Ungridded
    ensures ConstructChecked(3, 42, draw) == Failure(InvalidSize)
  {
  }
}
