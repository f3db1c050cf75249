# Maze generator

A Dafny model of the maze-carving core of `index.js`: a square grid of `cells × cells`
cells, three boolean matrices (`grid` marks visited cells, `verticals[r][c]` opens the wall
between cells (r, c) and (r, c+1), `horizontals[r][c]` the wall between (r, c) and (r+1, c)),
a random start cell, and the recursive depth-first `traverse`. At each cell, `traverse`
shuffles the four candidate moves with an in-place Fisher–Yates `shuffle`. It skips the moves
that leave the grid or reach a visited cell, removes the wall towards every other move, and
recurses.

Files:

- `random.dfy` (module `RandomSource`): `Math.floor(Math.random() * n)` as the next value of a
  fixed stream of naturals, reduced below `n`. A `Random` object counts the draws made. Every
  sequence of in-range draws comes from some stream, so a property proved for every stream
  holds for every run.
- `shuffle.dfy` (module `Shuffling`): `shuffle` as an in-place method on an `array`, proved
  equal to a function `Shuffled` of the old contents and the draws. Lemmas show that `Shuffled`
  is a permutation and is determined by the draws, and that the remaining iterations
  (`ShuffleFrom`) leave the already placed suffix alone.
- `grid.dfy` (module `Grid`): cells, moves, passages and the sets of cells of the grid. Also
  the ghost invariant `Grown`: the open passages form a tree over the visited cells, connected
  to the start cell. The lemmas show each step of `traverse` preserves it and that, once
  finished, it is a spanning tree.
- `carve.dfy` (module `Carving`): a reference definition of `traverse` as ghost functions
  of the draws. `Carve` is one call, `CarveMoves` its loop over the shuffled moves and
  `CarveStep` one iteration. `Layout` is a whole run from a random start cell. Lemmas count
  the draws of a run and show that every in-grid target of the loop ends up visited.
- `maze.dfy` (module `MazeGenerator`): the `Maze` class holding the three matrices, with
  `traverse` as mutually recursive methods (`Traverse`, `ExploreNeighbours`,
  `ExploreInOrder`, `Explore`). Each is proved to end where the matching `Carving`
  function ends, so the carved maze is a function of the stream. A ghost record (`Progress`) mirrors the matrices and is threaded
  through the calls. `Generate` is the top level (lines 48-57 and 100).

## Model

| member | source | states |
|---|---|---|
| RandomSource.Draw | index.js:38 | a draw `Math.floor(Math.random() * n)` is a natural below `n` |
| RandomSource.Random.Below | index.js:56-57 | the value drawn is below `n`; it is the next value of the stream; exactly one draw is used |
| Shuffling.Swap | index.js:40-42 | the three assignments through `temp` exchange the elements at the two positions and keep the length |
| Shuffling.SwapIsPermutation | index.js:40-42 | an exchange keeps the multiset of elements |
| Shuffling.Exchange | index.js:40-42 | the in-place exchange on the array leaves exactly the swapped sequence |
| Shuffling.ShuffleFrom | index.js:35-43 | the remaining iterations of the loop keep the length |
| Shuffling.ShuffleFromKeepsPlaced | index.js:35-43 | positions at or above the counter are never touched again by the remaining iterations |
| Shuffling.ShuffleFromIsPermutation | index.js:35-43 | the remaining iterations keep the multiset of elements |
| Shuffling.ShuffledIsPermutation | index.js:34-46 | `shuffle` returns a permutation of its input: same length, same multiset, same members |
| Shuffling.ShuffleDeterministic | index.js:34-46 | two shuffles of the same array that see the same draws give the same order |
| Shuffling.Shuffle | index.js:34-46 | the loop runs `length` times, draws exactly one value per element, and leaves the array equal to `Shuffled` of its old contents (a permutation, by `ShuffledIsPermutation`) |
| MazeGenerator.ShuffledMoves | index.js:67-72 | the neighbour list is exactly `Shuffled` of up, right, down, left under the next four draws, holds exactly those four moves, and uses four draws |
| MazeGenerator.Enter | index.js:65 | visiting a fresh cell from a visited neighbour (or as the start cell) adds exactly that cell and the passage into it, and keeps the passages a tree connected to the start cell |
| MazeGenerator.Maze.constructor | index.js:48-52 | the three matrices are fresh, have sizes cells × cells, cells × (cells-1) and (cells-1) × cells, and every entry is false |
| MazeGenerator.Maze.Mark | index.js:65 | `grid[row][column] = true` turns that one entry from false to true and leaves every other entry as it was |
| MazeGenerator.Maze.OpenPassage | index.js:85-93 | the entry written is the one indexed by the upper or left of the two cells, it is in bounds, and it records exactly the passage between the cell and its neighbour |
| MazeGenerator.Maze.Traverse | index.js:59-97 | on a visited cell it returns and changes nothing; otherwise the cell is visited afterwards; entries only go from false to true; the passages stay a tree connected to the start cell; four draws per newly visited cell; the cells visited, walls removed and draws made are those of `Carving.Carve` from the same state and stream position; it terminates because each recursive call has one unvisited cell fewer |
| MazeGenerator.Maze.ExploreNeighbours | index.js:67-96 | after the loop, every in-grid neighbour of the cell is visited and the cell's call is finished; the loop runs over the moves in exactly the order the next four draws shuffle them into, ending where `Carving.CarveMoves` over that order ends |
| MazeGenerator.Maze.ExploreInOrder | index.js:74-96 | the loop over the shuffled moves, in their order, leaves the target of every in-grid move visited, and ends where `Carving.CarveMoves` over the same order ends |
| MazeGenerator.Maze.Explore | index.js:75-95 | an out-of-range neighbour is skipped; a neighbour in the grid is visited afterwards; a passage is opened only towards a neighbour that was unvisited, and it joins that neighbour to the current cell; it ends where `Carving.CarveStep` ends |
| MazeGenerator.Maze.OpenedIsOpen | index.js:85-93 | the walls the matrices record as removed are exactly the ghost record's open passages |
| MazeGenerator.Maze.TraversedAll | index.js:59-100 | once the top-level `traverse` returns, every cell is visited and the removed walls form a spanning tree |
| MazeGenerator.Generate | index.js:48-100 | `cells < 1` fails with `InvalidDimensions`; otherwise the start cell is the next two draws, every cell is visited, `cells*cells - 1` walls are removed and they connect every cell to the start cell, using `2 + 4*cells*cells` draws; the removed walls are `Carving.Layout` of the stream, so a fixed stream always carves the same maze |
| Grid.MovesAreSteps | index.js:68-71 | each of the four candidate moves goes one step in its own direction, and every neighbour of the cell is one of them |
| Grid.PermutedMoves | index.js:67-72 | a reordering of the four candidate moves holds exactly those four moves |
| Grid.TriedAll | index.js:74-83 | trying every move of a list holding the four candidate moves reaches every in-grid neighbour |
| Grid.BetweenEnds | index.js:85-93 | the passage between two adjacent cells separates exactly those two cells, is the same from either side, and has an in-bounds matrix entry |
| Grid.BetweenDetermines | index.js:85-93 | a matrix entry determines the pair of cells it separates |
| Grid.RowSize | index.js:48 | a row of the grid has `columns` cells |
| Grid.BlockSize | index.js:48 | a block of `rows` rows has `rows * columns` cells |
| Grid.AllCellsSize | index.js:48 | the grid has `cells * cells` cells |
| Grid.SubsetSize | index.js:61-65 | a subset of the cells is no larger than the set containing it, and strictly smaller when it is proper: each newly visited cell brings the count of unvisited cells down |
| Grid.WalkRows | index.js:74-96 | a set closed under neighbours that holds a cell holds the whole column of that cell |
| Grid.WalkColumns | index.js:74-96 | a set closed under neighbours that holds a cell holds the whole row of that cell |
| Grid.ClosedCoversGrid | index.js:74-96 | a set of cells closed under in-grid neighbours that holds one cell holds every cell of the grid |
| Grid.ConnectsMore | index.js:85-95 | opening more passages keeps every existing connection |
| Grid.ConnectsStep | index.js:85-95 | a cell joined by an open passage to a cell connected to the start is itself connected to it |
| Grid.GrowRoot | index.js:100 | the start cell alone, with no passages, is a tree rooted at it |
| Grid.ConnectsThrough | index.js:85-95 | after a passage into a new neighbour is opened, the new cell and every visited cell stay connected to the start |
| Grid.GrowChild | index.js:81-95 | entering an unvisited neighbour through a new passage adds one cell and one passage, and keeps the tree connected to the start |
| Grid.Finished | index.js:74-97 | a cell whose neighbours are all visited can return without breaking the invariant |
| Carving.Carve | index.js:59-97 | one call of `traverse` as a function of the draws: it only adds visited cells, keeps them in the grid, and its own cell is visited afterwards |
| Carving.CarveStep | index.js:75-95 | one iteration only adds visited cells, and it visits something new exactly when the target is in the grid and unvisited |
| Carving.CarveMoves | index.js:74-96 | the loop from a position on only adds visited cells and keeps them in the grid |
| Carving.CarveStepVisits | index.js:75-95 | the target of an in-grid move is visited once its iteration is over |
| Carving.CarveMovesVisits | index.js:74-96 | the loop leaves the target of every later in-grid move visited |
| Carving.CarveDraws | index.js:59-97 | a call of `traverse` makes exactly four draws per cell it newly visits |
| Carving.CarveStepDraws | index.js:75-95 | one iteration makes exactly four draws per cell it newly visits |
| Carving.CarveMovesDraws | index.js:74-96 | the loop makes exactly four draws per cell it newly visits |
| Carving.Layout | index.js:56-100 | a whole run: the start cell, made of the next two draws, is visited |
| Grid.SpanningTree | index.js:59-100 | when no call is running, all `cells*cells` cells are visited, there are `cells*cells - 1` open passages, and every cell is connected to the start cell |

## Left out

- The Matter.js engine, renderer and world setup (index.js:1-19) and the boundary walls
  (index.js:23-30): they are display, not generation.
- The unfinished loop over `horizontals` (index.js:102-110): for each closed entry it only reads
  `Bodies.rectangle` without calling it, so it creates nothing and changes no state.
- The pixel constants `width` and `height` (index.js:4-5): they play no part in carving.
- `Math.random` as a floating-point value: a draw is modelled as a natural below the bound, taken
  from a stream that is a parameter. The uniformity of the shuffle and of the start cell is not
  modelled.
- Rectangular grids: `index.js` uses a single `cells` for both dimensions, and so does the model.
  A generator with separate row and column counts is not modelled.
- `index.js` has no explicit check of `cells`: for `cells < 1` the JavaScript runtime throws a
  `RangeError` while the matrices are allocated, at `Array(cells)` (index.js:48) for a negative
  `cells` and at `Array(cells-1)` (index.js:52) for `cells = 0`, in both cases before the draws
  at index.js:56-57. `Generate` models that failure as `InvalidDimensions`, raised before any
  draw.
- Grid.SpanningTree: proves the tree through its two defining facts, connectivity and the edge
  count. That it has no cycle follows from these by graph theory and is not stated as a lemma of
  its own.
- Shuffling.Shuffle: states the permutation through `Shuffling.ShuffledIsPermutation` on
  `Shuffled` rather than in its own `ensures`.
- Shuffling.Swap: does not state in its `ensures` that the other positions are unchanged (its
  value is the sequence with just the two updates).
- The call stack depth of the recursion (up to `cells*cells` nested calls) is not bounded:
  Dafny's unbounded recursion stands in for the JavaScript runtime's stack.
