/**
 The loop probe: `probe(row, col)` hands the board's successor links to
 Floyd's detector, and `seedBoard` occupies a seed cell and probes it. The
 probe reads only the static links, so it is a function of the last
 shuffle; on a board whose links follow its pointers it predicts how a
 round started from the seed ends.
 */
module Probe {
  import opened Wrappers
  import opened Grid
  import opened Checkerboard
  import opened Cursor
  import opened Floyd

  /** All on-grid positions. */
  function Cells(b: Board): (s: set<Pos>)
    requires Rectangular(b.grid)
    ensures forall p :: p in s <==> OnGrid(b, p)
  {
    set r, c | 0 <= r < NumRows(b) && 0 <= c < NumColumns(b) :: Pos(r, c)
  }

  /** The successor graph the detector walks: each cell to its `next` link. */
  function Links(b: Board): (m: map<Pos, Option<Pos>>)
    requires Valid(b)
    ensures Closed(m)
    ensures forall p :: p in m <==> OnGrid(b, p)
    ensures forall p {:trigger m[p]} {:trigger CellAt(b, p)} :: OnGrid(b, p) ==> m[p] == CellAt(b, p).next
  {
    map p | p in Cells(b) :: CellAt(b, p).next
  }

  /** `probe(row, col)`: `None` where the source throws (a row off the
      grid); `willLoop(undefined)`, that is false, for a column off the
      grid; otherwise Floyd's answer for the cell's successor chain. */
  method Probe(b: Board, row: int, col: int) returns (r: Option<bool>)
    requires Valid(b)
    ensures r.None? <==> !(0 <= row < NumRows(b))
    ensures r.Some? && !OnGrid(b, Pos(row, col)) ==> r == Some(false)
    ensures OnGrid(b, Pos(row, col)) ==>
              && r == Some(Loops(Links(b), Some(Pos(row, col))))
              && r == Some(TraceLoops(Links(b), Some(Pos(row, col))))
  {
    match GetCell(b, row, col)
    case Thrown =>
      r := None;
    case Undefined =>
      var hasLoop := WillLoop(Links(b), None);
      r := Some(hasLoop);
    case Found(_) =>
      var hasLoop := WillLoop(Links(b), Some(Pos(row, col)));
      r := Some(hasLoop);
  }

  /** `seedBoard` on a given seed (the source draws it inside the grid):
      occupy the seed, then probe it. The probe's answer is the same as on
      the board before seeding. */
  method SeedBoard(b: Board, row: int, col: int) returns (seeded: Board, hasLoop: bool)
    requires Valid(b) && OnGrid(b, Pos(row, col))
    ensures Valid(seeded) && SameShape(seeded, b)
    ensures seeded.cursor == Pos(row, col) && CellAt(seeded, Pos(row, col)).occupied
    ensures CellAt(seeded, Pos(row, col)).visited
    ensures seeded == OccupyCell(b, row, col).value
    ensures Links(seeded) == Links(b)
    ensures hasLoop <==> Loops(Links(b), Some(Pos(row, col)))
    ensures WellLinked(b) && !b.ended && NothingVisited(b) ==>
              Finish(seeded).event == Some(if hasLoop then Collision else Escape)
  {
    seeded := OccupyCell(b, row, col).value;
    OccupyKeepsLinks(b, row, col);
    var r := Probe(seeded, row, col);
    hasLoop := r.value;
    if WellLinked(b) && !b.ended && NothingVisited(b) {
      ProbePredictsRound(b, Pos(row, col));
    }
  }

  // ---------------------------------------------------------------------
  // The probe reads only the shuffle
  // ---------------------------------------------------------------------

  /** Boards with the same arrows give the detector the same graph. */
  lemma SameArrowsSameLinks(a: Board, b: Board)
    requires Valid(a) && Valid(b) && SameArrows(a, b)
    ensures Links(a) == Links(b)
  {
  }

  lemma OccupyKeepsLinks(b: Board, row: int, col: int)
    requires Valid(b) && OnGrid(b, Pos(row, col))
    ensures Links(OccupyCell(b, row, col).value) == Links(b)
  {
    OccupyKeepsArrows(b, row, col);
    SameArrowsSameLinks(b, OccupyCell(b, row, col).value);
  }

  lemma AdvanceKeepsLinks(b: Board)
    requires Valid(b)
    ensures Links(AdvanceCursor(b).board) == Links(b)
  {
    AdvanceKeepsArrows(b);
    SameArrowsSameLinks(b, AdvanceCursor(b).board);
  }

  /** On a well-linked board the detector's graph is the graph of arrows
      the cursor follows. */
  lemma LinksFollowPointers(b: Board)
    requires Valid(b) && WellLinked(b)
    ensures forall p :: OnGrid(b, p) ==> Links(b)[p] == Target(b, p)
  {
  }

  // ---------------------------------------------------------------------
  // The probe predicts the round
  // ---------------------------------------------------------------------

  /** After `i` moves from seed `s` the round is still on, the cursor is on
      the `i`-th cell of the seed's chain in `links`, and every visited
      cell lies on the chain no later than that. */
  ghost predicate OnChain(b: Board, links: map<Pos, Option<Pos>>, s: Pos, i: nat)
    requires Valid(b)
  {
    && Closed(links) && s in links && !b.ended
    && Walk(links, Some(s), i) == Some(b.cursor)
    && forall p {:trigger CellAt(b, p)} :: OnGrid(b, p) && CellAt(b, p).visited ==> p in WalkNodes(links, Some(s), i)
  }

  /** One step along the chain, where the cursor's arrow is its link: an
      escape means the chain reaches null, a collision means it revisits a
      cell, and otherwise the cursor moves to the next cell of the chain. */
  lemma StepOnChain(b: Board, links: map<Pos, Option<Pos>>, s: Pos, i: nat)
    requires Valid(b) && OnChain(b, links, s, i)
    requires OnGrid(b, b.cursor) && links[b.cursor] == Target(b, b.cursor)
    ensures var t := AdvanceCursor(b);
            && (t.event == Some(Escape) ==> !Loops(links, Some(s)))
            && (t.event == Some(Collision) ==> Loops(links, Some(s)))
            && (t.board.ended || OnChain(t.board, links, s, i + 1))
  {
    assert Walk(links, Some(s), i + 1) == links[b.cursor];
    match Target(b, b.cursor)
    case None =>
      assert Walk(links, Some(s), i + 1).None?;
    case Some(x) =>
      if CellAt(b, x).visited {
        StepCollides(links, s, i, x);
      } else {
        StepMoves(b, links, s, i, x);
      }
  }

  /** Reaching a node already on the walk closes a cycle. */
  lemma StepCollides(links: map<Pos, Option<Pos>>, s: Pos, i: nat, x: Pos)
    requires Closed(links) && s in links
    requires Walk(links, Some(s), i + 1) == Some(x) && x in WalkNodes(links, Some(s), i)
    ensures Loops(links, Some(s))
  {
    var j := WalkNodesAt(links, Some(s), i, x);
    RepeatImpliesLoops(links, Some(s), j, i + 1);
  }

  lemma StepMoves(b: Board, links: map<Pos, Option<Pos>>, s: Pos, i: nat, x: Pos)
    requires Valid(b) && OnChain(b, links, s, i) && OnGrid(b, b.cursor)
    requires Target(b, b.cursor) == Some(x) && Walk(links, Some(s), i + 1) == Some(x)
    requires !CellAt(b, x).visited
    ensures OnChain(AdvanceCursor(b).board, links, s, i + 1)
  {
    MoveVisitsTarget(b, WalkNodes(links, Some(s), i), x);
    assert WalkNodes(links, Some(s), i + 1) == WalkNodes(links, Some(s), i) + {x};
  }

  /** A seeded board starts on the chain. */
  lemma SeedStartsChain(b: Board, s: Pos)
    requires Valid(b) && WellLinked(b) && !b.ended && OnGrid(b, s)
    requires NothingVisited(b)
    ensures var b1 := OccupyCell(b, s.row, s.col).value;
            WellLinked(b1) && OnChain(b1, Links(b1), s, 0)
  {
    var b1 := OccupyCell(b, s.row, s.col).value;
    OccupyKeepsLinks(b, s.row, s.col);
    OccupyKeepsArrows(b, s.row, s.col);
    SameArrowsKeepWellLinked(b, b1);
    assert Walk(Links(b), Some(s), 0) == Some(s);
  }

  /** From a well-linked board on the chain, the round ends in a collision
      exactly when the seed's chain loops. */
  lemma {:induction false} FinishOnChain(b: Board, s: Pos, i: nat)
    requires Valid(b) && WellLinked(b) && OnChain(b, Links(b), s, i)
    ensures HasCursor(b)
    ensures Finish(b).event == Some(if Loops(Links(b), Some(s)) then Collision else Escape)
    decreases |Unvisited(b)|
  {
    assert OnGrid(b, b.cursor) && Links(b)[b.cursor] == Target(b, b.cursor);
    StepOnChain(b, Links(b), s, i);
    var t := AdvanceCursor(b);
    if !t.board.ended {
      AdvanceShrinksUnvisited(b);
      AdvanceKeepsLinks(b);
      AdvanceKeepsWellLinked(b);
      FinishOnChain(t.board, s, i + 1);
    }
  }

  /** On a well-linked board with nothing visited, a round seeded at `s`
      ends in an escape exactly when the probe reports no loop from `s`,
      and in a collision exactly when it reports a loop. */
  lemma ProbePredictsRound(b: Board, s: Pos)
    requires Valid(b) && WellLinked(b) && !b.ended && OnGrid(b, s)
    requires NothingVisited(b)
    ensures var b1 := OccupyCell(b, s.row, s.col).value;
            Finish(b1).event == Some(if Loops(Links(b), Some(s)) then Collision else Escape)
  {
    SeedStartsChain(b, s);
    FinishOnChain(OccupyCell(b, s.row, s.col).value, s, 0);
    OccupyKeepsLinks(b, s.row, s.col);
  }

  // ---------------------------------------------------------------------
  // A stale link misleads the probe
  // ---------------------------------------------------------------------

  /** First draw: (0,0) points Right, everything else Left. */
  function FirstDraw(p: Pos): Direction {
    if p == Pos(0, 0) then Right else Left
  }

  /** Second draw: (0,0) now points Up, off the board. */
  function SecondDraw(p: Pos): Direction {
    if p == Pos(0, 0) then Up else Left
  }

  /** The board of the first draw: (0,0) and (0,1) link to each other. */
  lemma FirstBoardLinks()
    ensures ConstructChecked(3, 3, FirstDraw).Success?
    ensures var b0 := ConstructChecked(3, 3, FirstDraw).value;
            && NumRows(b0) == 3 && NumColumns(b0) == 3
            && CellAt(b0, Pos(0, 0)).next == Some(Pos(0, 1))
            && CellAt(b0, Pos(0, 1)).next == Some(Pos(0, 0))
  {
    var b0 := ConstructChecked(3, 3, FirstDraw).value;
    assert OnGrid(b0, Pos(0, 0)) && OnGrid(b0, Pos(0, 1));
    assert Target(b0, Pos(0, 0)) == Some(Pos(0, 1));
    assert Target(b0, Pos(0, 1)) == Some(Pos(0, 0));
  }

  /** After the source's reshuffle (0,0) points Up but the two links stay. */
  lemma StaleBoardLinks()
    ensures ConstructChecked(3, 3, FirstDraw).Success?
    ensures var stale := ShuffleArrowsAsWritten(ConstructChecked(3, 3, FirstDraw).value, SecondDraw);
            && NumRows(stale) == 3 && NumColumns(stale) == 3
            && !stale.ended && !CellAt(stale, Pos(0, 0)).visited
            && CellAt(stale, Pos(0, 0)).pointer == Some(Up)
            && CellAt(stale, Pos(0, 0)).next == Some(Pos(0, 1))
            && CellAt(stale, Pos(0, 1)).next == Some(Pos(0, 0))
  {
    FirstBoardLinks();
  }

  /** After the source's reshuffle, cell (0,0) points off the board, so a
      cursor there escapes at once, yet its stale link to (0,1) makes the
      probe report a loop. The corrected shuffle reports no loop. */
  lemma StaleLinkMisleadsProbe()
    ensures ConstructChecked(3, 3, FirstDraw).Success?
    ensures var b0 := ConstructChecked(3, 3, FirstDraw).value;
            var stale := ShuffleArrowsAsWritten(b0, SecondDraw);
            var fixed := ShuffleArrows(b0, SecondDraw);
            && Target(stale, Pos(0, 0)) == None
            && AdvanceCursor(OccupyCell(stale, 0, 0).value).event == Some(Escape)
            && Loops(Links(stale), Some(Pos(0, 0)))
            && !Loops(Links(fixed), Some(Pos(0, 0)))
  {
    var b0 := ConstructChecked(3, 3, FirstDraw).value;
    var stale := ShuffleArrowsAsWritten(b0, SecondDraw);
    StaleBoardLinks();
    var links := Links(stale);
    assert Walk(links, Some(Pos(0, 0)), 2) == Some(Pos(0, 0));
    RepeatImpliesLoops(links, Some(Pos(0, 0)), 0, 2);
    DeadEndDoesNotLoop(Links(ShuffleArrows(b0, SecondDraw)), Pos(0, 0));
  }
}
