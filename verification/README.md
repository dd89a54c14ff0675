# Checkerboard cursor puzzle: a verified model of the board engine

The program shows a grid of cells. Each cell holds an arrow pointing Up,
Down, Left or Right. A cursor is dropped on a random cell. On every tick it
follows the arrow of the cell it stands on. The round ends in one of two ways:
the arrow leads off the board (an *escape*), or it leads into a cell the
cursor has already visited (a *collision*). Before the round starts, a probe
runs Floyd's tortoise-and-hare cycle detector along the cells' `next` links
and predicts the outcome.

This project models the engine of `src/index.ts`:

- the `Checkerboard` class: constructor, `createBoard`, `shuffleArrows`,
  `advanceCursor`, `occupyCell`, `getCell`, `findNext` and `probe`;
- the `CheckerboardCell` record;
- `willLoop`;
- `seedBoard`, modelled as `occupyCell` followed by `probe`;
- the heartbeat's repeated `advanceCursor`.

It proves properties about all of these.

Modules:

- `Wrappers`: `Option` and `Result`.
- `Sets`: a subset is no larger than its superset.
- `Grid`: `Direction`, coordinates, and `FindNext`, the neighbour lookup.
- `Floyd`: the cycle detector over a finite functional graph
  `map<T, Option<T>>`, with a reference definition of "the chain loops".
- `Checkerboard`: cells and the board; `GetCell`; both shuffles (the
  source's and a corrected one); `CreateBoard`; the constructor.
- `Cursor`: `OccupyCell`, `AdvanceCursor`, the invariants of a round, `Run`
  (n ticks) and `Finish` (ticks until the round ends).
- `Probe`: the link graph of a board, `Probe`, `SeedBoard`, and the theorem
  that the probe predicts how a seeded round ends.

Modelling choices:

- **Coordinates.** The cursor's `PIXI.Point` and the points `findNext`
  returns keep the column in `x` and the row in `y`. The seed point in
  `seedBoard` is the other way round: `x` is the row
  (src/index.ts:333-334). A `Pos` names both fields. The cursor (-1, -1) is `NoCursor`. The source
  tests for a cursor by `x >= 0`, and `HasCursor` makes the same test.
- **Global round-over flag.** The source's global `hasEnded` is the board's
  `ended` field.
- **Sounds as events.** The sounds `advanceCursor` plays become an `Event`
  in the returned `Tick`: `Footstep` for "wetfoot", `Collision` for "tbone"
  and `Escape` for "tada".
- **Randomness as inputs.** The random directions are a `Draw`, a function
  from position to direction. The seed cell is a parameter.
- **Undefined direction.** A cell that has never been shuffled has an
  undefined `pointerDirection`. That is `pointer == None`. The `switch` in
  `findNext` then matches nothing, so `Target` is `None`: the cursor
  escapes.
- **Links as coordinates.** A `next` link is the coordinate of the linked
  cell. Object identity, as in `tortoise == hare`, becomes equality of
  coordinates.
- **JavaScript array access.** Reading `grid[row][col]` with the row out of
  range throws a TypeError. With only the column out of range it yields
  `undefined`. `GetCell` returns `Thrown` or `Undefined` for these cases.
  `probe` on an out-of-range column therefore calls `willLoop(undefined)`,
  which answers false.

Three behaviours of the code are worth stating plainly:

- **Reset.** The reset button calls `createBoard`, which draws new arrows;
  the line that would clear `hasEnded` is commented out
  (src/index.ts:462). `CreateBoard` keeps `ended`, and
  `ResetKeepsRoundOver` shows the consequence: once a round has ended, no
  later round moves.
- **Constructor.** The constructor throws only when there are too few rows
  (see Findings).
- **Reshuffled links.** When a new arrow points off the board, the cell
  keeps its previous link (see Findings).
- **Replaying an ended round.** When a round ends, `isRunning` becomes
  false (src/index.ts:130, :135), so pressing play calls `seedBoard` again
  (src/index.ts:449-451) on the same board. The new seed becomes occupied
  and the old cursor cell stays occupied. `OneOccupant` therefore holds
  only from a board where nothing is occupied, which is what
  `OccupyEmptyBoardGivesOneOccupant` assumes.

## Model

| member | source | states |
|---|---|---|
| Grid.FindNext | src/index.ts:156-181 | A result, when present, is the cell one step from (row, col) in `dir`, and it is grid-adjacent to the start; from an on-board start a result is present exactly when that step stays on the board |
| Grid.FindNextAtEdge | src/index.ts:158-179 | From an on-board cell there is no neighbour exactly for Up in row 0, Down in the last row, Left in column 0 and Right in the last column |
| Grid.FindNextReachesEveryNeighbour | src/index.ts:156-181 | Every on-board neighbour of an on-board cell is the answer for exactly one direction |
| Checkerboard.NumRows | src/index.ts:81-83 | The number of rows, the grid's length: never negative, and at least one on a rectangular grid |
| Checkerboard.NumColumns | src/index.ts:85-87 | The first row's length, which on a rectangular grid is the length of every row |
| Checkerboard.GetCell | src/index.ts:152-154 | Throws exactly when the row is out of range; yields a cell exactly when the position is on the grid, and then the cell stored there; otherwise `undefined` |
| Checkerboard.FreshGrid | src/index.ts:90-97 | `numRows` rows of `numColumns` blank cells; a non-positive row count leaves the single empty row `[[]]` |
| Checkerboard.CreateBoard | src/index.ts:89-99 | The requested shape, no cursor, the round-over flag unchanged, every pointer as drawn, every link where its pointer leads, and no cell occupied or visited |
| Checkerboard.ShuffleArrowsAsWritten | src/index.ts:101-114 | Every cell gets the drawn pointer; its link becomes the neighbour `findNext` gives when there is one and otherwise stays as it was; occupied, visited, cursor and round flag are untouched |
| Checkerboard.ShuffleArrows | src/index.ts:101-114 | Corrected shuffle: drawn pointers, every link where its pointer leads (null off the board), occupied, visited, cursor and round flag untouched |
| Checkerboard.ShuffleAgreesOnUnlinkedBoard | src/index.ts:98-110 | On a board whose links are all null, as `createBoard` makes it, the source's shuffle and the corrected one give the same board |
| Checkerboard.ShuffleAsWrittenLeavesStaleLink | src/index.ts:106-110 | After a second shuffle cell (0, 0) points Up, off the board, but still links to (0, 1), so links no longer follow pointers |
| Checkerboard.SameArrowsKeepWellLinked | src/index.ts:101-112 | A board with the same pointers and links as a board whose links follow its pointers also has its links following its pointers |
| Checkerboard.Construct | src/index.ts:63-79 | For integer sizes, the constructor throws exactly when `numRows < 3`; it builds a board exactly when both sizes lie in [3, 41], and that board has the requested shape, no cursor, round not over, links following pointers, nothing occupied or visited |
| Checkerboard.ConstructChecked | src/index.ts:63-79 | Corrected constructor: succeeds exactly when both sizes lie in [3, 41], and then builds the board the source builds |
| Checkerboard.ConstructLeavesBoardUngridded | src/index.ts:67-77 | A 3 x 42 request neither throws nor builds a grid in the source; the checked constructor reports it |
| Cursor.OccupyCell | src/index.ts:141-150 | Fails exactly off the grid; otherwise the cursor moves to (row, col), that cell becomes occupied and visited, every other cell and the round flag stay as they were |
| Cursor.AdvanceCursor | src/index.ts:116-139 | No cursor or round over: nothing changes. Off-board arrow: only the round flag changes, with an escape. Arrow into a visited cell: only the round flag changes, with a collision. Otherwise a footstep: the cursor moves to the target, which becomes occupied and visited, and the cell left is no longer occupied |
| Cursor.AdvanceTouchesTwoCells | src/index.ts:123-127 | A step changes no cell other than the one left and the one entered |
| Cursor.AdvanceKeepsArrows | src/index.ts:116-139 | A step never changes a pointer or a link |
| Cursor.AdvanceKeepsWellLinked | src/index.ts:116-139 | A board whose links follow its pointers still has that property after a step |
| Cursor.MoveVisitsTarget | src/index.ts:124-127 | A move to an unvisited cell adds no visited cell other than the one entered |
| Cursor.HasCursorOnGrid | src/index.ts:117-118 | On a valid board the test `x >= 0` holds exactly when there is a cursor, and the cursor is then on the grid |
| Cursor.AdvanceKeepsVisited | src/index.ts:125-127 | A step never clears a visited flag |
| Cursor.OccupyKeepsVisited | src/index.ts:144-145 | Occupying a cell never clears a visited flag |
| Cursor.AdvanceKeepsOnlyCursorOccupied | src/index.ts:125-127 | If no cell other than the cursor's is occupied before a step, the same holds after it |
| Cursor.OccupyEmptyBoardGivesOneOccupant | src/index.ts:141-150 | Occupying a cell of a board with nothing occupied leaves exactly the cursor's cell occupied, and visited |
| Cursor.AdvanceKeepsOneOccupant | src/index.ts:121-127 | Exactly-the-cursor's-cell-occupied is preserved by every step |
| Cursor.Run | src/index.ts:405-416 | n heartbeats keep a valid board of the same shape; with no cursor or with the round over they change nothing, and a round that is over stays over |
| Cursor.RunKeepsArrows | src/index.ts:413-416 | However many heartbeats run, every pointer and every link stay as the last shuffle left them |
| Cursor.RunKeepsVisited | src/index.ts:413-416 | However many heartbeats run, no `visited` flag is cleared |
| Cursor.RunKeepsOneOccupant | src/index.ts:413-416 | Once exactly the cursor's cell is occupied, it stays so for every later heartbeat |
| Cursor.EndedStays | src/index.ts:120-138 | Once the round is over, later ticks leave it over |
| Cursor.AdvanceShrinksUnvisited | src/index.ts:123-127 | A step that does not end the round keeps a cursor and strictly shrinks the set of unvisited cells |
| Cursor.RunProgress | src/index.ts:413-416 | After k ticks of a round with a cursor, either it is over or at least k more cells have been visited |
| Cursor.RoundEnds | src/index.ts:413-416 | A round with a cursor is over after at most one tick more than there are unvisited cells |
| Cursor.Finish | src/index.ts:413-416 | Ticking until the round is over ends it with an escape or a collision, never a footstep |
| Cursor.ResetKeepsRoundOver | src/index.ts:460-464 | After a round has ended, the reset button's `createBoard` keeps the flag, so a newly seeded board never moves |
| Cursor.CollisionRound | src/index.ts:116-150 | A worked 3 x 3 round: two footsteps, each clearing the cell left and marking the cell entered occupied and visited, then a collision that keeps the cursor in place |
| Cursor.EscapeRound | src/index.ts:133-137 | A corner cell pointing outward ends the round at once with an escape |
| Floyd.WillLoop | src/index.ts:216-252 | Answers false for a null start, and in general answers true exactly when following the links never reaches null, which is also exactly when a walk of as many links as there are nodes is still alive; the loop terminates, measured by the nodes left, with only the two cursors as state |
| Floyd.TraceLoopsCorrect | src/index.ts:216-252 | The reference definition (still alive after as many links as there are nodes) holds exactly when the chain never reaches null |
| Floyd.MeetImpliesLoops | src/index.ts:244-247 | If tortoise and hare meet on a node, the chain never reaches null |
| Floyd.RepeatImpliesLoops | src/index.ts:216-252 | A walk that revisits a node never reaches null |
| Floyd.DeadEndDoesNotLoop | src/index.ts:231-233 | A node whose link is null does not loop |
| Floyd.SelfLoopLoops | src/index.ts:244-247 | A node linked to itself loops |
| Probe.Links | src/index.ts:191-202 | The graph handed to the detector has exactly the board's cells as nodes, each mapped to its `next` link, and is closed |
| Probe.Probe | src/index.ts:183-185 | Throws exactly when the row is out of range; answers false for an out-of-range column; on the grid, answers whether the cell's chain loops |
| Probe.SeedBoard | src/index.ts:329-338 | The seeded board is the board `occupyCell` gives: the seed is the cursor, occupied and visited, and the links are as they were. It reports whether the seed's chain loops. On a well-linked board with the round not over and nothing visited, the round it starts ends in a collision when it reported a loop and in an escape otherwise |
| Probe.SameArrowsSameLinks | src/index.ts:101-112 | Boards with the same pointers and links give the detector the same graph |
| Probe.OccupyKeepsLinks | src/index.ts:141-150 | Occupying a cell does not change the graph the probe reads |
| Probe.AdvanceKeepsLinks | src/index.ts:116-139 | A step does not change the graph the probe reads |
| Probe.LinksFollowPointers | src/index.ts:101-112 | On a well-linked board the probe's graph sends each cell to where its arrow leads |
| Probe.StepOnChain | src/index.ts:120-137 | On a round following the seed's chain, an escape means the chain reaches null, a collision means it loops, and a footstep moves the cursor to the next cell of the chain |
| Probe.StepCollides | src/index.ts:124-131 | Stepping onto a cell already on the walk means the chain loops |
| Probe.StepMoves | src/index.ts:124-127 | A footstep keeps the round on the chain, one link further |
| Probe.SeedStartsChain | src/index.ts:333-334 | Seeding a well-linked, unvisited board puts the round at the start of the seed's chain |
| Probe.FinishOnChain | src/index.ts:413-416 | From any point on the chain, the round ends in a collision exactly when the chain loops, and in an escape otherwise |
| Probe.ProbePredictsRound | src/index.ts:329-338 | On a well-linked board with nothing visited, the round seeded at a cell ends in a collision exactly when the probe reports a loop there, and in an escape exactly when it does not |
| Probe.StaleLinkMisleadsProbe | src/index.ts:106-110 | After the source's reshuffle a cursor on (0, 0) escapes at once, yet the probe reports a loop; after the corrected reshuffle the probe reports no loop |

## Left out

- Rendering, sprites, the button layout and the press and release
  handlers. These are user interface and calls into the PIXI library.
- Playing the sounds and loading the audio files. The sounds played by
  `advanceCursor` come back as events. The footstep `occupyCell` itself plays
  is not reported by `OccupyCell`, because a move reports its footstep
  through `AdvanceCursor`.
- The `setInterval` scheduling of the heartbeat. `Run` is n ticks and
  `Finish` is "tick until the round is over"; the timing is left out.
- `Math.random`, `randomInt` and `randomDirection`. The drawn directions
  and the seed cell are inputs instead.
- The console logging in `seedBoard` and `drawBoard`.
- The `isDirty` and `isRunning` flags. They steer redrawing and the play
  button and change no simulation outcome.
- The `numRows` and `numColumns` getters on a board that was never given a
  grid. These throw in the source. `Construct` returns `Ungridded` for that
  board and offers no operations on it.
- Probe.SeedBoard: requires the seed cell to be on the grid, because the
  source only ever draws the seed inside the grid (src/index.ts:333).
- A reset that keeps the arrows and clears only the cell flags, the cursor
  and the round-over flag: the code has none.
- Sizes and coordinates are integers (`int`), not JavaScript `number`s.
  Every caller passes whole numbers: the literal 41 (src/index.ts:438),
  the board's own sizes (src/index.ts:464) and `randomInt`, which rounds
  down (src/index.ts:211). So `Construct` does not model a `NaN` size,
  which fails every comparison and so throws, and it does not model a
  fractional size such as 3.5, for which the loop at src/index.ts:92
  builds 4 rows. Its "throws exactly when `numRows < 3`" holds for integer
  sizes.

## Findings

| source | as written | input that shows it | evidently intended | confidence | as-written member | corrected member |
|---|---|---|---|---|---|---|
| src/index.ts:107-110 | `next` is only assigned when `findNext` finds a neighbour, so a cell whose new arrow points off the board keeps its old link | 3 x 3 board: (0, 0) first points Right and every other cell Left; the reshuffle turns (0, 0) Up. Its link still leads to (0, 1), so the probe reports a loop, while a cursor placed there escapes at once | the link becomes null when the arrow points off the board | medium: the code never reshuffles an existing board, so this is latent; not executed | Checkerboard.ShuffleArrowsAsWritten, Probe.StaleLinkMisleadsProbe | Checkerboard.ShuffleArrows |
| src/index.ts:67-77 | the nested size checks throw only in the outermost `else`, so too few columns or too many rows or columns fall through with no grid built | `new Checkerboard(3, 42)`: no exception, no grid, and the first `numColumns` read then fails | throw "Lousy board size" whenever either size lies outside [3, 41] | medium; not executed | Checkerboard.Construct, Checkerboard.ConstructLeavesBoardUngridded | Checkerboard.ConstructChecked |
