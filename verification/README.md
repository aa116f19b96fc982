# Randomized depth-first maze generator

This project models the core of a Rust maze generator. A `Maze` is a `height`-by-`width` grid of
cells. Each cell has four borders (`Passage` or `Wall`), a `visited` flag and its own (row, column)
address. The generator starts from the top-left cell and repeats three steps until every cell has
been visited:

- it lists the unvisited neighbours of the cursor in the order Left, Right, Up, Down;
- it picks one at random, opens the shared border on both sides, marks the neighbour visited, pushes
  it onto the `moves` stack and moves the cursor there;
- when no neighbour is left, it pops the stack and puts the cursor on the popped position.

Two bookkeeping fields ride along. `maxLen` is the largest stack length seen so far. `startPosition`
is the cell where that length was first reached.

The Dafny model is functional. Every operation takes a `Maze` value and returns a new one. The
original's panics become `None` results:

- a zero dimension in `New`;
- an unwrap of an empty pop in `Backtrack` and `Step`;
- a `Panicked` outcome of the generation loop.

The random source becomes a parameter. `ChooseMove` takes the drawn index `pick`, and the loop takes
any `pick` with `|available| > 1 ==> pick < |available|`. Every loop property therefore holds for
every possible sequence of draws.

After a forward move the top of the stack is the cursor itself. The first pop at a dead end
therefore leaves the cursor where it is, and only the second moves it back. The model keeps this
exactly as written, so a dead end costs two iterations.

Files:

- `options.dfy`: the `Option` type.
- `cells.dfy`: borders, directions and a single cell (`Cell::new`, one side of `set_cell_passage`).
- `maze.dfy`: the maze state and its operations: `Maze::new`, `get_available_moves`,
  `choose_move`, `make_move`, `set_cell_passage`, `get_next_index`, `get_cell`/`get_cell_mut`,
  `update_start_position`, and one iteration of `generate_maze`.
- `grid_sets.dfy`: the set of grid cells, the visited cells and the open shared borders, with their
  sizes.
- `invariants.dfy`: the invariant `Valid` and its preservation by each step. `Valid` covers:
  - neighbours agree on their shared border;
  - outer borders are walls;
  - unvisited cells are walled;
  - the counts agree;
  - the cursor, the marker and the stack sit on visited cells;
  - the open borders form a tree over the visited cells.
- `corridor.dfy`: one-row and one-column grids, where the generator walks straight along the line and never panics.
- `generate.dfy`: the generation loop, the build-then-generate sequence, and what a finished maze looks like.

The source column below cites `src/maze.rs` of the original repository.

## Model

| member | source | states |
|---|---|---|
| Cells.NewCell | src/maze.rs:41-51 | A new cell is walled on all four sides, is not visited and carries the address it was created with. |
| Mazes.At | src/maze.rs:242-244 | Reading an in-grid address yields the cell whose recorded row and column are that address. |
| Mazes.WithCell | src/maze.rs:246-248 | Writing through the mutable cell accessor changes only the addressed cell; every other cell and field stays as it was. |
| Mazes.New | src/maze.rs:55-86 | Construction fails exactly when a dimension is zero. Otherwise the result is a fully walled `height`×`width` grid, and the origin is the only visited cell. Count 1, stack `[(0,0)]`, cursor and marker at the origin, `maxLen` 1, cell count `width*height`. |
| Mazes.Candidates | src/maze.rs:163-180 | Filtering a direction list keeps exactly the members towards an in-grid, unvisited neighbour. The result is a subsequence of the list, so their order is kept, and a rank-sorted list stays rank-sorted. |
| Mazes.AvailableMoves | src/maze.rs:163-180 | A direction is listed if and only if its neighbour is inside the grid and unvisited. The list is strictly ordered Left, Right, Up, Down. |
| Mazes.NextIndex | src/maze.rs:233-240 | The next index is the cursor's neighbour in the given direction. A step left from column 0 or up from row 0 would underflow, so callers must rule it out. |
| Mazes.ChooseMove | src/maze.rs:182-191 | The result is `None` exactly when the list is empty. Otherwise it is a member of the list. With one candidate it is that candidate, whatever the draw. |
| Mazes.SetCellPassage | src/maze.rs:223-231 | The named side of the named cell becomes a passage. Its other sides, its visited flag, every other cell and every other field are unchanged. |
| Mazes.UpdateStartPosition | src/maze.rs:250-255 | `maxLen` grows, by exactly one, if and only if the stack is longer than `maxLen`. The marker then moves to the cursor. Otherwise nothing changes. |
| Mazes.MakeMove | src/maze.rs:193-221 | The cursor's side `d` and the neighbour's opposite side open. The neighbour becomes visited, the count rises by one, the neighbour is pushed and becomes the cursor, and the marker follows the stack's new maximum. No other cell changes. |
| Mazes.Backtrack | src/maze.rs:95-98 | Popping fails exactly on an empty stack. Otherwise the new stack plus the new cursor is the old stack, and nothing else changes. |
| Mazes.Step | src/maze.rs:90-100 | One loop iteration panics exactly at a dead end with an empty stack. With candidates it makes a forward move to one of them. At a dead end it pops the top into the cursor, and nothing else changes: not the cells, the count, the marker, `maxLen` or the dimensions. |
| Invariants.NewIsValid | src/maze.rs:55-86 | A newly built maze satisfies every invariant of `Valid`, including the tree shape (one visited cell, no open border). |
| Invariants.MakeMoveKeepsBordersAgree | src/maze.rs:196-213 | Because the move opens both halves of the shared border, neighbours still agree on every border after it. |
| Invariants.MakeMoveKeepsOuterWalls | src/maze.rs:193-221 | A move to an in-grid neighbour never opens a border that faces out of the grid. |
| Invariants.MakeMoveKeepsUnvisitedWalled | src/maze.rs:193-216 | Only the cursor and the newly visited cell gain passages, so unvisited cells stay walled. |
| Invariants.MakeMoveVisitedCells | src/maze.rs:215-217 | A move adds exactly one cell to the visited set, the target, and the target was not visited before. |
| Invariants.MakeMoveOpenEdges | src/maze.rs:194-213 | A move opens exactly one shared border, the one between the cursor and the target, and that border was closed before. |
| Invariants.MakeMoveGrows | src/maze.rs:193-221 | A move never closes a passage, never unvisits a cell and never lowers the count or `maxLen`. |
| Invariants.MakeMoveKeepsReachable | src/maze.rs:193-221 | After a move every visited cell, the new one included, is joined to the origin through open borders. |
| Invariants.MakeMoveKeepsPositions | src/maze.rs:215-220 | After a move the cursor, the marker and every stack entry are visited cells of the grid. |
| Invariants.MakeMoveKeepsCounts | src/maze.rs:215-220 | After a move the count still equals the number of visited cells and stays within the cell count. The stack length stays within `maxLen`, and `maxLen` within the count. |
| Invariants.MakeMoveKeepsValid | src/maze.rs:193-221 | A move to an available direction keeps every invariant and only grows the maze. |
| Invariants.SameGridKeepsInvariants | src/maze.rs:95-98 | Changing only the stack and the cursor keeps every grid invariant and the visited set. |
| Invariants.BacktrackKeepsValid | src/maze.rs:95-98 | Popping a non-empty stack succeeds and keeps every invariant. |
| Invariants.StepKeepsValid | src/maze.rs:90-100 | Every non-panicking iteration keeps every invariant, only grows the maze, and lowers the measure `2*(unvisited cells) + stack length` by exactly one. |
| Invariants.FullCountMeansAllVisited | src/maze.rs:90 | When the loop's exit test `visited_count < total_cell_count` fails, every cell of the grid is visited. |
| GridSets.AllCellsCount | src/maze.rs:83 | The grid has exactly `height*width` addresses, the value recorded as the cell count. |
| Generation.CompleteIsSpanningTree | src/maze.rs:89-101 | At loop exit every cell is visited and joined to the origin, and there are `width*height - 1` open shared borders. The passages therefore form a spanning tree. |
| Generation.Iterate | src/maze.rs:90-100 | An iteration with any random draw either panics at a stuck state, or keeps the invariants and strictly lowers the termination measure. On a corridor it never panics: it pushes the new cursor, counts one more visited cell, and the result is again a corridor. |
| Generation.GenerateMaze | src/maze.rs:89-101 | The loop terminates for every sequence of draws. A finished maze is a spanning tree that keeps the invariants. A full maze is returned unchanged. A panic happens only at a dead end with an empty stack. A run started on a corridor always finishes. |
| Generation.NewAndGenerate | src/maze.rs:55-101 | Building and then generating fails exactly on a zero dimension. Otherwise it ends in a spanning tree of the requested size or in the dead-end panic. A one-row or one-column grid always finishes. |
| Generation.TwoByOneOpensMiddle | src/maze.rs:89-101 | On a 2×1 grid a finished generation opens exactly the middle border, on both sides, and leaves the six outer borders walls. |
| Generation.OneOpenBorderIsTheMiddle | src/maze.rs:193-213 | On a 2×1 grid whose neighbours agree on borders and whose outer walls are intact, a single open shared border is the middle one, open on both sides. |
| Corridors.NewIsCorridor | src/maze.rs:55-86 | A new one-row or one-column maze is a corridor: its visited cells are exactly the first cells of the line, and the cursor is on the last of them. |
| Corridors.CorridorOnlyForward | src/maze.rs:163-180 | In a corridor that is not yet full, the next cell along the line is the only in-grid, unvisited neighbour. |
| Corridors.CorridorCandidates | src/maze.rs:163-180 | In a corridor that is not yet full, the candidate list is exactly the forward direction. |
| Corridors.ForwardExtendsCorridor | src/maze.rs:193-221 | A forward move extends a corridor by one cell. |
| Corridors.CorridorStep | src/maze.rs:90-100 | On a corridor that is not yet full, every iteration is the forward move `MakeMove(m, Forward(m))`, so it never pops and never reaches the empty-stack panic at line 96. The result is again a corridor. |

## Left out

- `draw` and `update_start_cells` (src/maze.rs:103-161, 257 onwards) render the maze into an image file. That is image I/O and pixel arithmetic, outside the generator's logic.
- `src/main.rs` handles the arguments and calls `new`, `generate_maze` and `draw` in sequence. It is not part of this model, apart from the build-then-generate sequence, which `Generation.NewAndGenerate` restates.
- The random generator `rand::thread_rng().gen_range(0, len)` is replaced by an arbitrary draw `pick` below `len`. No distribution is modelled.
- Mazes.New: requires `width`, `height` and `width*height` to fit a `u32`. The original computes `width * height` in `u32` arithmetic, which panics (debug) or wraps (release) on overflow. That overflow path is not modelled.
- Mazes.MakeMove: requires the neighbour in direction `d` to lie inside the grid. The original indexes out of bounds (a panic) otherwise, and its only caller passes an available direction.
- Mazes.UpdateStartPosition: compares `maxLen` with the stack length without the original's `as u32` cast. Under the invariants the stack is never longer than the `u32` cell count, so the cast never truncates.
- The `u32` increments of `visited_count` and `max_len` are modelled on unbounded integers. The invariants bound both by the cell count, which fits a `u32`.
- Generation.GenerateMaze: does not prove that the `Panicked` outcome is unreachable on a general grid, that is, that the stack is never empty at a dead end while cells remain unvisited. It proves that a panic can only happen in that state (`Stuck`), and that it never happens on a grid one cell high or one cell wide (`Corridor`). The original relies on this obligation at src/maze.rs:96 without justifying it.
- Generation.NewAndGenerate: inherits the gap of `Generation.GenerateMaze`. Its contract allows the `Panicked` outcome on every grid that is neither a single row nor a single column, although building and then generating is not expected to panic there.
- Generation.CompleteIsSpanningTree: states acyclicity in counting form (connected, with one open border fewer than cells) and not as a separate "no cycle" theorem. For a connected graph the two are equivalent.
