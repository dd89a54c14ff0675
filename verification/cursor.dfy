/**
 The cursor state machine: `occupyCell` puts the cursor on a cell and
 `advanceCursor` moves it one step along the current cell's pointer, ending
 the round on an escape off the board or a collision with a visited cell.
 The sounds the source plays become events handed back to the caller.
 */
module Cursor {
  import opened Wrappers
  import opened Grid
  import opened Checkerboard
  import Sets

  /** Notifications for the presentation layer: `Footstep` where the source
      plays "wetfoot", `Collision` for "tbone", `Escape` for "tada". */
  datatype Event = Footstep | Collision | Escape

  /** The result of one heartbeat: the new board and the event it raised. */
  datatype Tick = Tick(board: Board, event: Option<Event>)

  /** The source's test for a cursor: a non-negative column (`x`). */
  predicate HasCursor(b: Board) {
    b.cursor.col >= 0
  }

  /** Every cell outside `p` is the same on both boards. */
  ghost predicate OthersUnchanged(a: Board, b: Board, p: Pos)
    requires Rectangular(a.grid) && Rectangular(b.grid) && SameShape(a, b)
  {
    forall q {:trigger CellAt(a, q)} {:trigger CellAt(b, q)} :: OnGrid(a, q) && q != p ==> CellAt(b, q) == CellAt(a, q)
  }

  // ---------------------------------------------------------------------
  // occupyCell
  // ---------------------------------------------------------------------

  /** `occupyCell(row, col)`: the cell becomes occupied and visited and the
      cursor moves onto it. The previously occupied cell is not cleared.
      Off the grid the source's `getCell` yields nothing usable and the
      property write throws; that is `None` here. */
  function OccupyCell(b: Board, row: int, col: int): (r: Option<Board>)
    requires Valid(b)
    ensures r.None? <==> !OnGrid(b, Pos(row, col))
    ensures r.Some? ==>
              && Valid(r.value) && SameShape(r.value, b)
              && r.value.cursor == Pos(row, col) && r.value.ended == b.ended
              && CellAt(r.value, Pos(row, col)) == CellAt(b, Pos(row, col)).(occupied := true, visited := true)
              && OthersUnchanged(b, r.value, Pos(row, col))
  {
    match GetCell(b, row, col)
    case Found(theCell) =>
      var r := SetCell(b, Pos(row, col), theCell.(occupied := true, visited := true)).(cursor := Pos(row, col));
      assert forall q :: OnGrid(r, q) ==> CellAt(r, q).next == CellAt(b, q).next;
      Some(r)
    case _ => None
  }

  // ---------------------------------------------------------------------
  // advanceCursor
  // ---------------------------------------------------------------------

  /** `advanceCursor`: one step of the round. */
  function AdvanceCursor(b: Board): (t: Tick)
    requires Valid(b)
    ensures Valid(t.board) && SameShape(t.board, b)
    // no cursor, or the round is over: nothing happens
    ensures !HasCursor(b) || b.ended ==> t == Tick(b, None)
    // the pointer leads off the board: escape, nothing else changes
    ensures HasCursor(b) && !b.ended && Target(b, b.cursor).None? ==>
              t == Tick(b.(ended := true), Some(Escape))
    // the pointer leads to a visited cell: collision, nothing else changes
    ensures HasCursor(b) && !b.ended && Target(b, b.cursor).Some? &&
            CellAt(b, Target(b, b.cursor).value).visited ==>
              t == Tick(b.(ended := true), Some(Collision))
    // the pointer leads to a fresh cell: the cursor moves there
    ensures HasCursor(b) && !b.ended && Target(b, b.cursor).Some? &&
            !CellAt(b, Target(b, b.cursor).value).visited ==>
              var q := Target(b, b.cursor).value;
              && t.event == Some(Footstep) && !t.board.ended
              && t.board.cursor == q
              && CellAt(t.board, q) == CellAt(b, q).(occupied := true, visited := true)
              && CellAt(t.board, b.cursor) == CellAt(b, b.cursor).(occupied := false)
  {
    if b.cursor.col < 0 then
      Tick(b, None)
    else if b.ended then
      Tick(b, None)
    else
      var here := b.cursor;
      var currentCell := CellAt(b, here);
      match Target(b, here)
      case Some(q) =>
        if !CellAt(b, q).visited then
          var moved := OccupyCell(b, q.row, q.col).value;
          Tick(SetCell(moved, here, currentCell.(occupied := false)), Some(Footstep))
        else
          var r := b.(ended := true);
          assert forall q :: OnGrid(r, q) ==> CellAt(r, q) == CellAt(b, q);
          Tick(r, Some(Collision))
      case None =>
        var r := b.(ended := true);
        assert forall q :: OnGrid(r, q) ==> CellAt(r, q) == CellAt(b, q);
        Tick(r, Some(Escape))
  }

  /** A move touches only the cell left and the cell entered. */
  lemma AdvanceTouchesTwoCells(b: Board)
    requires Valid(b)
    ensures var t := AdvanceCursor(b);
            forall p {:trigger CellAt(t.board, p)} {:trigger CellAt(b, p)} :: OnGrid(b, p) && p != t.board.cursor && p != b.cursor ==> CellAt(t.board, p) == CellAt(b, p)
  {
  }

  /** Playing never touches the arrows: pointers and links stay as the
      last shuffle left them. */
  lemma AdvanceKeepsArrows(b: Board)
    requires Valid(b)
    ensures SameArrows(b, AdvanceCursor(b).board)
  {
    AdvanceTouchesTwoCells(b);
  }

  /** A move visits the cell entered and no other new cell. */
  lemma MoveVisitsTarget(b: Board, seen: set<Pos>, x: Pos)
    requires Valid(b) && HasCursor(b) && !b.ended
    requires Target(b, b.cursor) == Some(x) && !CellAt(b, x).visited
    requires forall p {:trigger CellAt(b, p)} :: OnGrid(b, p) && CellAt(b, p).visited ==> p in seen
    ensures var t := AdvanceCursor(b).board;
            forall p {:trigger CellAt(t, p)} :: OnGrid(t, p) && CellAt(t, p).visited ==> p in seen + {x}
  {
    var t := AdvanceCursor(b).board;
    AdvanceTouchesTwoCells(b);
    assert forall p :: OnGrid(t, p) && CellAt(t, p).visited ==> p == x || CellAt(b, p).visited;
  }

  lemma AdvanceKeepsWellLinked(b: Board)
    requires Valid(b) && WellLinked(b)
    ensures WellLinked(AdvanceCursor(b).board)
  {
    AdvanceKeepsArrows(b);
    SameArrowsKeepWellLinked(b, AdvanceCursor(b).board);
  }

  lemma OccupyKeepsArrows(b: Board, row: int, col: int)
    requires Valid(b) && OnGrid(b, Pos(row, col))
    ensures SameArrows(b, OccupyCell(b, row, col).value)
  {
  }

  // ---------------------------------------------------------------------
  // Invariants of a round
  // ---------------------------------------------------------------------

  /** No occupied cell other than the one under the cursor. */
  ghost predicate OnlyCursorOccupied(b: Board)
    requires Rectangular(b.grid)
  {
    forall p {:trigger CellAt(b, p)} :: OnGrid(b, p) && CellAt(b, p).occupied ==> p == b.cursor
  }

  /** While a cursor is present, exactly its cell is occupied, and that
      cell is visited. */
  ghost predicate OneOccupant(b: Board)
    requires Valid(b)
  {
    && OnlyCursorOccupied(b)
    && (HasCursor(b) ==> CellAt(b, b.cursor).occupied && CellAt(b, b.cursor).visited)
  }

  /** No cell visited yet: a board as `createBoard` leaves it. */
  ghost predicate NothingVisited(b: Board)
    requires Rectangular(b.grid)
  {
    forall p {:trigger CellAt(b, p)} :: OnGrid(b, p) ==> !CellAt(b, p).visited
  }

  /** `visited` only ever goes from false to true. */
  ghost predicate VisitedGrows(a: Board, b: Board)
    requires Rectangular(a.grid) && Rectangular(b.grid) && SameShape(a, b)
  {
    forall p {:trigger CellAt(a, p)} {:trigger CellAt(b, p)} :: OnGrid(a, p) && CellAt(a, p).visited ==> CellAt(b, p).visited
  }

  /** Under a valid board the source's "x >= 0" test means the cursor is on the grid. */
  lemma HasCursorOnGrid(b: Board)
    requires Valid(b)
    ensures HasCursor(b) <==> b.cursor != NoCursor
    ensures HasCursor(b) ==> OnGrid(b, b.cursor)
  {
  }

  /** Advancing never clears a `visited` flag. */
  lemma AdvanceKeepsVisited(b: Board)
    requires Valid(b)
    ensures VisitedGrows(b, AdvanceCursor(b).board)
  {
    AdvanceTouchesTwoCells(b);
  }

  /** Occupying a cell never clears a `visited` flag. */
  lemma OccupyKeepsVisited(b: Board, row: int, col: int)
    requires Valid(b) && OnGrid(b, Pos(row, col))
    ensures VisitedGrows(b, OccupyCell(b, row, col).value)
  {
  }

  /** If at most the cursor's cell is occupied before a step, the same holds after it. */
  lemma AdvanceKeepsOnlyCursorOccupied(b: Board)
    requires Valid(b) && OnlyCursorOccupied(b)
    ensures OnlyCursorOccupied(AdvanceCursor(b).board)
  {
    var t := AdvanceCursor(b);
    if HasCursor(b) && !b.ended && Target(b, b.cursor).Some? && !CellAt(b, Target(b, b.cursor).value).visited {
      var q := Target(b, b.cursor).value;
      AdvanceTouchesTwoCells(b);
    } else {
      assert forall p :: OnGrid(t.board, p) ==> CellAt(t.board, p) == CellAt(b, p);
    }
  }

  /** Seeding a board that has no occupied cell leaves exactly the
      cursor's cell occupied; `RunKeepsOneOccupant` carries this through
      the rest of the round. */
  lemma OccupyEmptyBoardGivesOneOccupant(b: Board, row: int, col: int)
    requires Valid(b) && OnGrid(b, Pos(row, col))
    requires forall p :: OnGrid(b, p) ==> !CellAt(b, p).occupied
    ensures OneOccupant(OccupyCell(b, row, col).value)
  {
  }

  /** A step keeps exactly the cursor's cell occupied. */
  lemma AdvanceKeepsOneOccupant(b: Board)
    requires Valid(b) && OneOccupant(b)
    ensures OneOccupant(AdvanceCursor(b).board)
  {
    AdvanceKeepsOnlyCursorOccupied(b);
  }

  // ---------------------------------------------------------------------
  // Every round ends
  // ---------------------------------------------------------------------

  /** The heartbeat: `n` successive calls of `advanceCursor`. */
  function Run(b: Board, n: nat): (r: Board)
    requires Valid(b)
    ensures Valid(r) && SameShape(r, b)
    ensures !HasCursor(b) || b.ended ==> r == b
    ensures b.ended ==> r.ended
    decreases n
  {
    if n == 0 then b else AdvanceCursor(Run(b, n - 1)).board
  }

  /** The cells not yet visited. */
  function Unvisited(b: Board): set<Pos>
    requires Rectangular(b.grid)
  {
    set r, c | 0 <= r < NumRows(b) && 0 <= c < NumColumns(b) && !b.grid[r][c].visited :: Pos(r, c)
  }

  /** Once a round has ended, later ticks leave it ended. */
  lemma {:induction false} EndedStays(b: Board, m: nat, n: nat)
    requires Valid(b) && m <= n && Run(b, m).ended
    ensures Run(b, n).ended
    decreases n
  {
    if n > m {
      EndedStays(b, m, n - 1);
    }
  }

  /** A step that does not end the round visits a cell that was unvisited. */
  lemma AdvanceShrinksUnvisited(b: Board)
    requires Valid(b) && HasCursor(b) && !AdvanceCursor(b).board.ended
    ensures HasCursor(AdvanceCursor(b).board)
    ensures |Unvisited(AdvanceCursor(b).board)| < |Unvisited(b)|
  {
    var t := AdvanceCursor(b);
    var q := Target(b, b.cursor).value;
    AdvanceTouchesTwoCells(b);
    assert Unvisited(t.board) <= Unvisited(b) - {q};
    assert q in Unvisited(b);
    Sets.SubsetCard(Unvisited(t.board), Unvisited(b) - {q});
  }

  /** After `k` ticks a round with a cursor has ended or has visited at
      least `k` more cells. */
  lemma {:induction false} RunProgress(b: Board, k: nat)
    requires Valid(b) && HasCursor(b)
    ensures Run(b, k).ended || (HasCursor(Run(b, k)) && |Unvisited(Run(b, k))| + k <= |Unvisited(b)|)
    decreases k
  {
    if k > 0 {
      RunProgress(b, k - 1);
      var prev := Run(b, k - 1);
      if prev.ended {
        assert Run(b, k) == prev;
      } else if !Run(b, k).ended {
        AdvanceShrinksUnvisited(prev);
      }
    }
  }

  /** A round that has a cursor ends after at most one more tick than there
      are unvisited cells: every tick either ends it or visits a new cell. */
  lemma RoundEnds(b: Board)
    requires Valid(b) && HasCursor(b)
    ensures Run(b, |Unvisited(b)| + 1).ended
  {
    RunProgress(b, |Unvisited(b)| + 1);
  }

  /** The heartbeat never touches the arrows. */
  lemma {:induction false} RunKeepsArrows(b: Board, n: nat)
    requires Valid(b)
    ensures SameArrows(b, Run(b, n))
    decreases n
  {
    if n > 0 {
      RunKeepsArrows(b, n - 1);
      AdvanceKeepsArrows(Run(b, n - 1));
      SameArrowsTransitive(b, Run(b, n - 1), Run(b, n));
    }
  }

  /** No number of heartbeats clears a `visited` flag. */
  lemma {:induction false} RunKeepsVisited(b: Board, n: nat)
    requires Valid(b)
    ensures VisitedGrows(b, Run(b, n))
    decreases n
  {
    if n > 0 {
      RunKeepsVisited(b, n - 1);
      AdvanceKeepsVisited(Run(b, n - 1));
    }
  }

  /** Exactly the cursor's cell stays occupied for the whole round. */
  lemma {:induction false} RunKeepsOneOccupant(b: Board, n: nat)
    requires Valid(b) && OneOccupant(b)
    ensures OneOccupant(Run(b, n))
    decreases n
  {
    if n > 0 {
      RunKeepsOneOccupant(b, n - 1);
      AdvanceKeepsOneOccupant(Run(b, n - 1));
    }
  }

  /** The heartbeat until the round is over: the tick that ends a round
      that has a cursor. It ends in an escape or a collision, never in a
      footstep. */
  function Finish(b: Board): (t: Tick)
    requires Valid(b) && HasCursor(b) && !b.ended
    ensures Valid(t.board) && t.board.ended
    ensures t.event == Some(Escape) || t.event == Some(Collision)
    decreases |Unvisited(b)|
  {
    var t := AdvanceCursor(b);
    if t.board.ended then t
    else
      AdvanceShrinksUnvisited(b);
      Finish(t.board)
  }

  /** The reset button calls `createBoard`, which leaves the round-ended
      flag alone: once a round has ended, a new board seeded anywhere never
      moves. */
  lemma ResetKeepsRoundOver(b: Board, numRows: int, numColumns: int, draw: Draw, row: int, col: int)
    requires b.ended
    requires OnGrid(CreateBoard(b, numRows, numColumns, draw), Pos(row, col))
    ensures var seeded := OccupyCell(CreateBoard(b, numRows, numColumns, draw), row, col).value;
            && seeded.ended
            && AdvanceCursor(seeded) == Tick(seeded, None)
  {
  }

  // ---------------------------------------------------------------------
  // Worked rounds on a 3 x 3 board
  // ---------------------------------------------------------------------

  /** (0,0) Right, (0,1) Down, (1,1) Up: two moves, then a collision with (0,1). */
  function LoopDraw(p: Pos): Direction {
    if p == Pos(0, 0) then Right
    else if p == Pos(0, 1) then Down
    else if p == Pos(1, 1) then Up
    else Left
  }

  lemma CollisionRound()
    ensures var b0 := ConstructChecked(3, 3, LoopDraw).value;
            var b1 := OccupyCell(b0, 0, 0).value;
            var t1 := AdvanceCursor(b1);
            var t2 := AdvanceCursor(t1.board);
            var t3 := AdvanceCursor(t2.board);
            && t1.board.cursor == Pos(0, 1) && !t1.board.ended
            && !CellAt(t1.board, Pos(0, 0)).occupied && CellAt(t1.board, Pos(0, 1)).occupied
            && CellAt(t1.board, Pos(0, 0)).visited && CellAt(t1.board, Pos(0, 1)).visited
            && t2.board.cursor == Pos(1, 1) && !t2.board.ended
            && !CellAt(t2.board, Pos(0, 1)).occupied && CellAt(t2.board, Pos(1, 1)).occupied
            && CellAt(t2.board, Pos(1, 1)).visited
            && t3.event == Some(Collision) && t3.board.ended
            && t3.board.cursor == Pos(1, 1) && CellAt(t3.board, Pos(1, 1)).occupied
  {
    var b0 := ConstructChecked(3, 3, LoopDraw).value;
    var b1 := OccupyCell(b0, 0, 0).value;
    assert Target(b1, Pos(0, 0)) == Some(Pos(0, 1));
    var t1 := AdvanceCursor(b1);
    assert Target(t1.board, Pos(0, 1)) == Some(Pos(1, 1));
    var t2 := AdvanceCursor(t1.board);
    assert Target(t2.board, Pos(1, 1)) == Some(Pos(0, 1));
  }

  /** A corner cell pointing outward ends the round at once. */
  lemma EscapeRound()
    ensures var b0 := ConstructChecked(3, 3, _ => Up).value;
            var b1 := OccupyCell(b0, 0, 2).value;
            var t := AdvanceCursor(b1);
            && t.event == Some(Escape) && t.board.ended
            && t.board.cursor == Pos(0, 2) && CellAt(t.board, Pos(0, 2)).occupied
  {
    var b0 := ConstructChecked(3, 3, _ => Up).value;
    var b1 := OccupyCell(b0, 0, 2).value;
    assert Target(b1, Pos(0, 2)) == None;
  }
}
