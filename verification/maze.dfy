/**
 * The maze generator of index.js: three boolean matrices (`grid`, `verticals`,
 * `horizontals`), a random start cell, and the recursive depth-first `traverse`
 * that carves a perfect maze into them.
 *
 * Ghost state mirrors the matrices (`visited`, `open`) and records the start cell and
 * the cells whose `traverse` call is still running, so that the result can be stated
 * as a spanning tree.
 */
module MazeGenerator {
  import opened Grid
  import opened RandomSource
  import opened Shuffling
  import opened Carving

  datatype Option<T> = None | Some(value: T)

  /**
   * The ghost record of a traversal: the cells marked in `grid` (`visited`), the
   * passages marked in `verticals`/`horizontals` (`open`), the start cell (`root`),
   * and the cells whose `traverse` call is still running (`active`).
   */
  datatype Progress = Progress(visited: set<Cell>, open: set<Passage>, root: Cell, active: set<Cell>)

  /** Nothing visited, nothing opened. */
  ghost function Initial(): Progress
  {
    Progress({}, {}, Cell(0, 0), {})
  }

  /** The passage opened towards `c` by the caller, if `c` is being entered from `from`. */
  ghost function Pending(from: Option<Cell>, c: Cell): set<Passage>
  {
    if from.Some? then {Between(from.value, c)} else {}
  }

  /**
   * The ghost record once a fresh cell `c` is visited: `c` is entered from a visited
   * neighbour through the passage just opened (or becomes the root of an empty record),
   * and is active. The record stays a tree connected to its root.
   */
  ghost function Enter(cells: int, s: Progress, c: Cell, from: Option<Cell>): (r: Progress)
    requires Grown(cells, s.visited, s.open, s.root, s.active) && c !in s.visited
    requires from.Some? ==> from.value in s.visited && Adjacent(from.value, c)
    requires from.None? ==> s.visited == {}
    ensures Grown(cells, r.visited, r.open, r.root, r.active)
    ensures r.visited == s.visited + {c} && r.open == s.open + Pending(from, c) && r.active == s.active + {c}
    ensures r.root == if from.Some? then s.root else c
  {
    if from.Some? then
      GrowChild(cells, s.visited, s.open, s.root, s.active, from.value, c);
      Progress(s.visited + {c}, s.open + {Between(from.value, c)}, s.root, s.active + {c})
    else
      GrowRoot(cells, s.open, s.root, s.active, c);
      assert s.open + {} == s.open;
      Progress({c}, s.open, c, s.active + {c})
  }

  /** Entering a fresh cell adds one visited cell, and the call on it is the only new active one. */
  lemma EnterCounts(cells: int, s: Progress, c: Cell, from: Option<Cell>)
    requires Grown(cells, s.visited, s.open, s.root, s.active) && c !in s.visited
    requires from.Some? ==> from.value in s.visited && Adjacent(from.value, c)
    requires from.None? ==> s.visited == {}
    ensures var r := Enter(cells, s, c, from);
            |r.visited| == |s.visited| + 1 && r.active - {c} == s.active
  {
  }

  /** The four candidate moves from (row, column), up, right, down, left, passed through `shuffle`. */
  method ShuffledMoves(row: int, column: int, rng: Random) returns (neighbours: array<Move>)
    modifies rng
    ensures fresh(neighbours)
    ensures neighbours[..] == Shuffled(Moves(Cell(row, column)), rng.stream, old(rng.drawn))
    ensures forall m :: m in neighbours[..] <==> m in Moves(Cell(row, column))
    ensures rng.drawn == old(rng.drawn) + 4
  {
    neighbours := new Move[] [Move(row - 1, column, Up), Move(row, column + 1, Right),
                              Move(row + 1, column, Down), Move(row, column - 1, Left)];
    assert neighbours[..] == Moves(Cell(row, column));
    Shuffle(neighbours, rng);
    ShuffledIsPermutation(Moves(Cell(row, column)), rng.stream, old(rng.drawn));
    PermutedMoves(Cell(row, column), neighbours[..]);
  }

  class Maze {
    const cells: nat
    const grid: array2<bool>
    const verticals: array2<bool>
    const horizontals: array2<bool>

    /** The matrices have the sizes index.js gives them: cells × cells, cells × (cells-1), (cells-1) × cells. */
    ghost predicate Sized()
    {
      1 <= cells &&
      grid.Length0 == cells && grid.Length1 == cells &&
      verticals.Length0 == cells && verticals.Length1 == cells - 1 &&
      horizontals.Length0 == cells - 1 && horizontals.Length1 == cells &&
      grid != verticals && grid != horizontals && verticals != horizontals
    }

    /** The matrices agree with a ghost record: `grid` holds `visited`, the wall matrices hold `open`. */
    ghost predicate Valid(visited: set<Cell>, open: set<Passage>)
      reads grid, verticals, horizontals
    {
      Sized() &&
      AllInGrid(cells, visited) &&
      (forall r, c {:trigger grid[r, c]} {:trigger Cell(r, c) in visited} ::
         0 <= r < cells && 0 <= c < cells ==> (grid[r, c] <==> Cell(r, c) in visited)) &&
      (forall p :: p in open ==> PassageInGrid(cells, p)) &&
      (forall r, c {:trigger verticals[r, c]} {:trigger Vertical(r, c) in open} ::
         0 <= r < cells && 0 <= c < cells - 1 ==> (verticals[r, c] <==> Vertical(r, c) in open)) &&
      (forall r, c {:trigger horizontals[r, c]} {:trigger Horizontal(r, c) in open} ::
         0 <= r < cells - 1 && 0 <= c < cells ==> (horizontals[r, c] <==> Horizontal(r, c) in open))
    }

    /**
     * What holds between steps of the traversal: the matrices hold the ghost record,
     * and its passages form a tree on the visited cells, connected to the root.
     */
    ghost predicate Inv(s: Progress)
      reads grid, verticals, horizontals
    {
      Valid(s.visited, s.open) && Grown(cells, s.visited, s.open, s.root, s.active)
    }

    /** The three matrices of index.js, every entry false: no cell visited, no wall removed. */
    constructor (cells: nat)
      requires cells >= 1
      ensures Inv(Initial()) && this.cells == cells
      ensures fresh(grid) && fresh(verticals) && fresh(horizontals)
    {
      this.cells := cells;
      grid := new bool[cells, cells]((r, c) => false);
      verticals := new bool[cells, cells - 1]((r, c) => false);
      horizontals := new bool[cells - 1, cells]((r, c) => false);
    }

    /**
     * `grid[row][column] = true` on a fresh cell, entered through the passage the
     * caller has just opened (or as the start cell).
     */
    method Mark(row: int, column: int, ghost s: Progress, ghost from: Option<Cell>) returns (ghost s': Progress)
      requires Valid(s.visited, s.open + Pending(from, Cell(row, column))) && Grown(cells, s.visited, s.open, s.root, s.active)
      requires InGrid(cells, Cell(row, column)) && Cell(row, column) !in s.visited
      requires from.Some? ==> from.value in s.visited && Adjacent(from.value, Cell(row, column))
      requires from.None? ==> s.visited == {}
      modifies grid
      ensures Inv(s') && s' == Enter(cells, s, Cell(row, column), from)
      // the only entry written is the cell's own, from false to true
      ensures forall r, c :: 0 <= r < cells && 0 <= c < cells ==> grid[r, c] == (old(grid[r, c]) || (r == row && c == column))
    {
      s' := Enter(cells, s, Cell(row, column), from);
      grid[row, column] := true;
    }

    /**
     * Removes the wall crossed by moving from (row, column) in `direction`: the
     * matrix entry written is always the one indexed by the upper or left cell.
     */
    method OpenPassage(row: int, column: int, direction: Direction, ghost visited: set<Cell>, ghost open: set<Passage>)
      requires Valid(visited, open) && InGrid(cells, Cell(row, column)) && InGrid(cells, Step(Cell(row, column), direction))
      modifies verticals, horizontals
      ensures Valid(visited, open + {Between(Cell(row, column), Step(Cell(row, column), direction))})
    {
      if direction == Left {
        verticals[row, column - 1] := true;
      } else if direction == Right {
        verticals[row, column] := true;
      } else if direction == Up {
        horizontals[row - 1, column] := true;
      } else if direction == Down {
        horizontals[row, column] := true;
      }
    }

    /**
     * `traverse(row, column)`. The ghost parameter `from` names the cell whose loop
     * opened the passage towards (row, column) just before this call; a call without
     * one is the top-level call on fresh matrices or a call on an already visited cell.
     */
    method Traverse(row: int, column: int, rng: Random, ghost s: Progress, ghost from: Option<Cell>)
      returns (ghost s': Progress)
      requires Valid(s.visited, s.open + Pending(from, Cell(row, column))) && Grown(cells, s.visited, s.open, s.root, s.active)
      requires InGrid(cells, Cell(row, column))
      requires from.Some? ==> Cell(row, column) !in s.visited && from.value in s.visited && Adjacent(from.value, Cell(row, column))
      requires from.None? ==> s.visited == {} || Cell(row, column) in s.visited
      modifies grid, verticals, horizontals, rng
      decreases Unvisited(cells, s.visited), 1
      ensures Inv(s') && s'.active == s.active
      ensures s'.root == if s.visited == {} then Cell(row, column) else s.root
      // an already visited cell: return at once, nothing changes
      ensures old(grid[row, column]) ==> s' == s && unchanged(grid, verticals, horizontals, rng)
      // the cell is visited afterwards, and the cells and passages already there stay
      ensures grid[row, column]
      ensures s.visited <= s'.visited && s.open + Pending(from, Cell(row, column)) <= s'.open
      // matrix entries only ever go from false to true
      ensures forall r, c :: 0 <= r < cells && 0 <= c < cells && old(grid[r, c]) ==> grid[r, c]
      ensures forall r, c :: 0 <= r < cells && 0 <= c < cells - 1 && old(verticals[r, c]) ==> verticals[r, c]
      ensures forall r, c :: 0 <= r < cells - 1 && 0 <= c < cells && old(horizontals[r, c]) ==> horizontals[r, c]
      // four draws (one shuffle) per newly visited cell
      ensures rng.drawn == old(rng.drawn) + 4 * (|s'.visited| - |s.visited|)
      // what it visits and opens, and the draws it makes, are those of the reference traversal
      ensures At(Carve(cells, s.visited, s.open + Pending(from, Cell(row, column)), Cell(row, column), rng.stream, old(rng.drawn)),
                s'.visited, s'.open, rng.drawn)
    {
      if grid[row, column] {
        assert s.open + Pending(from, Cell(row, column)) == s.open;
        s' := s;
        return;
      }
      // mark the cell, then shuffle its moves and explore them
      CarveEnter(cells, s.visited, s.open + Pending(from, Cell(row, column)), Cell(row, column), rng.stream, rng.drawn);
      EnterCounts(cells, s, Cell(row, column), from);
      ghost var marked := Mark(row, column, s, from);
      s' := ExploreNeighbours(row, column, rng, marked, old(rng.drawn));
      CarveDraws(cells, s.visited, s.open + Pending(from, Cell(row, column)), Cell(row, column), rng.stream, old(rng.drawn));
    }

    /**
     * The shuffle of the four candidate moves of an active cell and the loop over them:
     * afterwards every in-grid neighbour of the cell is visited, and the cell's call is finished.
     * `next` is the position in the stream of the shuffle's first draw.
     */
    method ExploreNeighbours(row: int, column: int, rng: Random, ghost s: Progress, ghost next: nat)
      returns (ghost s': Progress)
      requires Inv(s) && Cell(row, column) in s.active && rng.drawn == next
      modifies grid, verticals, horizontals, rng
      decreases Unvisited(cells, s.visited), 4
      ensures Inv(s') && s'.active == s.active - {Cell(row, column)} && s'.root == s.root
      ensures s.visited <= s'.visited && s.open <= s'.open
      ensures forall n :: InGrid(cells, n) && Adjacent(Cell(row, column), n) ==> n in s'.visited
      // the moves are tried in the order the next four draws shuffle them into
      ensures At(CarveMoves(cells, s.visited, s.open, Cell(row, column), Shuffled(Moves(Cell(row, column)), rng.stream, next),
                            0, rng.stream, next + 4),
                s'.visited, s'.open, rng.drawn)
    {
      var cell := Cell(row, column);
      var neighbours := ShuffledMoves(row, column, rng);
      ghost var order := neighbours[..];
      s' := ExploreInOrder(row, column, neighbours, rng, s, order, next + 4);
      TriedAll(cells, cell, order, s'.visited);
      // the end of `traverse` for this cell: it is no longer active
      Finished(cells, s'.visited, s'.open, s'.root, s'.active, cell);
      s' := s'.(active := s'.active - {cell});
    }

    /**
     * The loop of `traverse` over the shuffled moves of an active cell, in their order.
     * `next` is the position in the stream of the first draw the loop makes.
     */
    method ExploreInOrder(row: int, column: int, neighbours: array<Move>, rng: Random, ghost s: Progress, ghost order: seq<Move>, ghost next: nat)
      returns (ghost s': Progress)
      requires Inv(s) && Cell(row, column) in s.active && rng.drawn == next
      requires neighbours[..] == order && forall m :: m in order <==> m in Moves(Cell(row, column))
      modifies grid, verticals, horizontals, rng
      decreases Unvisited(cells, s.visited), 3
      ensures Inv(s') && s'.active == s.active && s'.root == s.root
      ensures s.visited <= s'.visited && s.open <= s'.open
      ensures forall j :: 0 <= j < neighbours.Length && InGrid(cells, Target(neighbours[j])) ==> Target(neighbours[j]) in s'.visited
      // the moves are tried one after the other, in the order of `neighbours`
      ensures At(CarveMoves(cells, s.visited, s.open, Cell(row, column), order, 0, rng.stream, next),
                s'.visited, s'.open, rng.drawn)
    {
      s' := s;
      for i := 0 to neighbours.Length
        invariant Inv(s') && s'.active == s.active && s'.root == s.root
        invariant s.visited <= s'.visited && s.open <= s'.open && |s.visited| <= |s'.visited|
        invariant CarveMoves(cells, s'.visited, s'.open, Cell(row, column), order, i, rng.stream, rng.drawn)
               == CarveMoves(cells, s.visited, s.open, Cell(row, column), order, 0, rng.stream, next)
      {
        ghost var before, drawn := s', rng.drawn;
        assert neighbours[i] in neighbours[..];
        s' := Explore(row, column, neighbours[i], rng, s');
        CarveMovesStep(cells, before.visited, before.open, Cell(row, column), order, i, rng.stream, drawn, s'.visited, s'.open, rng.drawn);
        SubsetSize(s.visited, s'.visited);
      }
      CarveMovesVisits(cells, s.visited, s.open, Cell(row, column), order, 0, rng.stream, next);
    }

    /**
     * One iteration of the neighbour loop of `traverse`: skip a neighbour outside the
     * grid or already visited (re-checked now, since earlier iterations may have
     * visited it); otherwise open the passage towards it and traverse it.
     */
    method Explore(row: int, column: int, next: Move, rng: Random, ghost s: Progress) returns (ghost s': Progress)
      requires Inv(s) && Cell(row, column) in s.active && next in Moves(Cell(row, column))
      modifies grid, verticals, horizontals, rng
      decreases Unvisited(cells, s.visited), 2
      ensures Inv(s') && s'.active == s.active && s'.root == s.root
      ensures s.visited <= s'.visited && s.open <= s'.open
      // a neighbour inside the grid is visited afterwards
      ensures InGrid(cells, Target(next)) ==> Target(next) in s'.visited
      // a passage is opened only towards a neighbour that was unvisited, and it leads there from this cell
      ensures s'.open != s.open ==> InGrid(cells, Target(next)) && Target(next) !in s.visited &&
                                    Between(Cell(row, column), Target(next)) in s'.open
      ensures At(CarveStep(cells, s.visited, s.open, Cell(row, column), next, rng.stream, old(rng.drawn)),
                s'.visited, s'.open, rng.drawn)
    {
      s' := s;
      if next.row < 0 || next.row >= cells || next.column < 0 || next.column >= cells {
        return;
      }

      if grid[next.row, next.column] {
        return;
      }

      MovesAreSteps(Cell(row, column));
      OpenPassage(row, column, next.direction, s.visited, s.open);
      s' := Traverse(next.row, next.column, rng, s, Some(Cell(row, column)));
    }

    /** The passages whose walls the matrices record as removed. */
    ghost function Opened(): set<Passage>
      reads verticals, horizontals
    {
      (set r, c | 0 <= r < verticals.Length0 && 0 <= c < verticals.Length1 && verticals[r, c] :: Vertical(r, c)) +
      (set r, c | 0 <= r < horizontals.Length0 && 0 <= c < horizontals.Length1 && horizontals[r, c] :: Horizontal(r, c))
    }

    /**
     * The finished maze, read off the matrices alone: every cell is marked in `grid`,
     * and the removed walls are `cells * cells - 1` passages that connect every cell
     * to `start` — a spanning tree of the grid.
     */
    ghost predicate Carved(start: Cell)
      reads grid, verticals, horizontals
    {
      Sized() && InGrid(cells, start) &&
      (forall r, c :: 0 <= r < cells && 0 <= c < cells ==> grid[r, c]) &&
      |Opened()| == cells * cells - 1 &&
      (forall c :: InGrid(cells, c) ==> Connects(Opened(), c, start))
    }

    /** The removed walls the matrices record are the ghost record's open passages. */
    lemma OpenedIsOpen(visited: set<Cell>, open: set<Passage>)
      requires Valid(visited, open)
      ensures Opened() == open
    {
      forall p | p in open
        ensures p in Opened()
      {
        match p
        case Vertical(r, c) => assert verticals[r, c];
        case Horizontal(r, c) => assert horizontals[r, c];
      }
    }

    /**
     * A traversal from `start` that has returned leaves a carved maze: its open
     * passages are exactly the removed walls, and every cell is visited.
     */
    lemma TraversedAll(start: Cell, s: Progress)
      requires Inv(s) && s.active == {} && start in s.visited && s.root == start
      ensures Carved(start) && Opened() == s.open
      ensures s.visited == AllCells(cells) && |s.visited| == cells * cells
    {
      SpanningTree(cells, s.visited, s.open, start);
      OpenedIsOpen(s.visited, s.open);
      forall r, c | 0 <= r < cells && 0 <= c < cells
        ensures grid[r, c]
      {
        assert Cell(r, c) in s.visited;
      }
    }
  }

  /** The result of generation: the carved maze and its start cell, or the failure index.js meets when `cells < 1`. */
  datatype Outcome = Generated(maze: Maze, start: Cell) | InvalidDimensions

  /**
   * The top level of index.js: allocate the three matrices, draw a start row and a
   * start column, and traverse from there.
   */
  method Generate(cells: int, rng: Random) returns (outcome: Outcome)
    modifies rng
    ensures outcome.InvalidDimensions? <==> cells < 1
    ensures outcome.InvalidDimensions? ==> rng.drawn == old(rng.drawn)
    ensures outcome.Generated? ==> fresh(outcome.maze) && fresh(outcome.maze.grid)
    ensures outcome.Generated? ==> fresh(outcome.maze.verticals) && fresh(outcome.maze.horizontals)
    // the start row and the start column are the next two draws below `cells`
    ensures outcome.Generated? ==> outcome.start == Cell(Draw(rng.stream, old(rng.drawn), cells), Draw(rng.stream, old(rng.drawn) + 1, cells))
    // the matrices hold a spanning tree of the grid, reaching the start cell
    ensures outcome.Generated? ==> outcome.maze.cells == cells && outcome.maze.Carved(outcome.start)
    // the removed walls are those of the reference run: a fixed stream always carves the same maze
    ensures outcome.Generated? ==> outcome.maze.Opened() == Layout(cells, rng.stream, old(rng.drawn)).1
    // two draws for the start cell, four for each cell's shuffle
    ensures outcome.Generated? ==> rng.drawn == old(rng.drawn) + 2 + 4 * (cells * cells)
  {
    if cells < 1 {
      return InvalidDimensions;
    }
    var maze := new Maze(cells);
    var startRow := rng.Below(cells);
    var startCol := rng.Below(cells);
    var start := Cell(startRow, startCol);
    assert start == Cell(Draw(rng.stream, old(rng.drawn), cells), Draw(rng.stream, old(rng.drawn) + 1, cells));
    ghost var s := maze.Traverse(startRow, startCol, rng, Initial(), None);
    maze.TraversedAll(start, s);
    outcome := Generated(maze, start);
  }
}
