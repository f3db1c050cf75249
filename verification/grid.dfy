/**
 * The square grid the maze is carved on: cells, the four moves `traverse` tries,
 * the passages between neighbouring cells, and the tree of passages the depth-first
 * traversal leaves behind.
 *
 * A passage is named by the matrix entry that records it:
 * `Vertical(r, c)` is `verticals[r][c]`, the wall between cells (r, c) and (r, c+1);
 * `Horizontal(r, c)` is `horizontals[r][c]`, the wall between cells (r, c) and (r+1, c).
 */
module Grid {

  datatype Cell = Cell(row: int, column: int)

  datatype Direction = Up | Right | Down | Left

  /** A candidate move as `traverse` builds it: `[nextRow, nextColumn, direction]`. */
  datatype Move = Move(row: int, column: int, direction: Direction)

  datatype Passage = Vertical(row: int, column: int) | Horizontal(row: int, column: int)

  predicate InGrid(cells: int, c: Cell)
  {
    0 <= c.row < cells && 0 <= c.column < cells
  }

  /** The matrix entry of `p` exists: `verticals` is cells × (cells-1), `horizontals` (cells-1) × cells. */
  predicate PassageInGrid(cells: int, p: Passage)
  {
    match p
    case Vertical(r, c) => 0 <= r < cells && 0 <= c < cells - 1
    case Horizontal(r, c) => 0 <= r < cells - 1 && 0 <= c < cells
  }

  /** The cell one move in direction `d` away from `c`. */
  function Step(c: Cell, d: Direction): Cell
  {
    match d
    case Up => Cell(c.row - 1, c.column)
    case Right => Cell(c.row, c.column + 1)
    case Down => Cell(c.row + 1, c.column)
    case Left => Cell(c.row, c.column - 1)
  }

  function Target(m: Move): Cell
  {
    Cell(m.row, m.column)
  }

  /** The four candidate neighbours of `c`, in the order `traverse` lists them. */
  function Moves(c: Cell): seq<Move>
  {
    [Move(c.row - 1, c.column, Up), Move(c.row, c.column + 1, Right),
     Move(c.row + 1, c.column, Down), Move(c.row, c.column - 1, Left)]
  }

  /** The 4-neighbour relation of the grid. */
  predicate Adjacent(a: Cell, b: Cell)
  {
    (a.row == b.row && (a.column + 1 == b.column || b.column + 1 == a.column)) ||
    (a.column == b.column && (a.row + 1 == b.row || b.row + 1 == a.row))
  }

  function Min(x: int, y: int): int
  {
    if x <= y then x else y
  }

  /** The passage between two adjacent cells, indexed by the upper or left one of the two. */
  function Between(a: Cell, b: Cell): Passage
  {
    if a.row == b.row then Vertical(a.row, Min(a.column, b.column))
    else Horizontal(Min(a.row, b.row), a.column)
  }

  /** The two cells a passage separates, upper or left one first. */
  function Ends(p: Passage): (Cell, Cell)
  {
    match p
    case Vertical(r, c) => (Cell(r, c), Cell(r, c + 1))
    case Horizontal(r, c) => (Cell(r, c), Cell(r + 1, c))
  }

  /** Every candidate move of `c` goes one step in its own direction, and reaches a neighbour. */
  lemma MovesAreSteps(c: Cell)
    ensures |Moves(c)| == 4
    ensures forall m :: m in Moves(c) ==> Target(m) == Step(c, m.direction) && Adjacent(c, Target(m))
    ensures forall n :: Adjacent(c, n) ==> exists k :: 0 <= k < 4 && Target(Moves(c)[k]) == n
  {
    forall n | Adjacent(c, n)
      ensures exists k :: 0 <= k < 4 && Target(Moves(c)[k]) == n
    {
      if n.row + 1 == c.row {
        assert Target(Moves(c)[0]) == n;
      } else if n.column == c.column + 1 {
        assert Target(Moves(c)[1]) == n;
      } else if n.row == c.row + 1 {
        assert Target(Moves(c)[2]) == n;
      } else {
        assert Target(Moves(c)[3]) == n;
      }
    }
  }

  /** A reordering of the four candidate moves holds the same four moves. */
  lemma PermutedMoves(c: Cell, order: seq<Move>)
    requires multiset(order) == multiset(Moves(c))
    ensures |order| == 4
    ensures forall m :: m in order <==> m in Moves(c)
  {
    assert |order| == |multiset(order)|;
    forall m
      ensures m in order <==> m in Moves(c)
    {
      assert m in order <==> m in multiset(order);
      assert m in Moves(c) <==> m in multiset(Moves(c));
    }
  }

  /**
   * Trying every move of a list that holds the four candidate moves reaches every
   * neighbour of `c` in the grid.
   */
  lemma TriedAll(cells: int, c: Cell, order: seq<Move>, reached: set<Cell>)
    requires forall m :: m in Moves(c) ==> m in order
    requires forall j :: 0 <= j < |order| && InGrid(cells, Target(order[j])) ==> Target(order[j]) in reached
    ensures forall n :: InGrid(cells, n) && Adjacent(c, n) ==> n in reached
  {
    MovesAreSteps(c);
    forall n | InGrid(cells, n) && Adjacent(c, n)
      ensures n in reached
    {
      var k :| 0 <= k < 4 && Target(Moves(c)[k]) == n;
      assert Moves(c)[k] in order;
      var j :| 0 <= j < |order| && order[j] == Moves(c)[k];
    }
  }

  /**
   * The passage between two adjacent cells separates exactly those two cells, and
   * when both cells lie in the grid its matrix entry exists.
   */
  lemma BetweenEnds(cells: int, a: Cell, b: Cell)
    requires Adjacent(a, b)
    ensures Ends(Between(a, b)) == (a, b) || Ends(Between(a, b)) == (b, a)
    ensures Between(a, b) == Between(b, a)
    ensures InGrid(cells, a) && InGrid(cells, b) ==> PassageInGrid(cells, Between(a, b))
  {
  }

  /** A passage determines the unordered pair of adjacent cells it separates. */
  lemma BetweenDetermines(a: Cell, b: Cell, x: Cell, y: Cell)
    requires Adjacent(a, b) && Adjacent(x, y) && Between(a, b) == Between(x, y)
    ensures (a == x && b == y) || (a == y && b == x)
  {
    BetweenEnds(0, a, b);
    BetweenEnds(0, x, y);
  }

  /** Every cell of the grid. */
  ghost function AllCells(cells: int): set<Cell>
  {
    Block(cells, cells)
  }

  ghost function Block(rows: int, columns: int): set<Cell>
  {
    set r, c | 0 <= r < rows && 0 <= c < columns :: Cell(r, c)
  }

  ghost function RowOf(r: int, columns: int): set<Cell>
  {
    set c | 0 <= c < columns :: Cell(r, c)
  }

  /** A row of cells is the row one cell shorter plus its last cell, which is new. */
  lemma RowColumns(r: int, columns: nat)
    requires columns > 0
    ensures RowOf(r, columns) == RowOf(r, columns - 1) + {Cell(r, columns - 1)}
    ensures Cell(r, columns - 1) !in RowOf(r, columns - 1)
  {
  }

  lemma {:induction false} RowSize(r: int, columns: nat)
    ensures |RowOf(r, columns)| == columns
  {
    if columns > 0 {
      RowSize(r, columns - 1);
      RowColumns(r, columns);
    } else {
      assert RowOf(r, columns) == {};
    }
  }

  /** A block of rows is the block one row shorter plus its last row, and the two do not overlap. */
  lemma BlockRows(rows: nat, columns: nat)
    requires rows > 0
    ensures Block(rows, columns) == Block(rows - 1, columns) + RowOf(rows - 1, columns)
    ensures Block(rows - 1, columns) !! RowOf(rows - 1, columns)
  {
  }

  lemma {:induction false} BlockSize(rows: nat, columns: nat)
    ensures |Block(rows, columns)| == rows * columns
  {
    if rows > 0 {
      BlockSize(rows - 1, columns);
      RowSize(rows - 1, columns);
      BlockRows(rows, columns);
      assert (rows - 1) * columns + columns == rows * columns;
    } else {
      assert Block(rows, columns) == {};
    }
  }

  /** The grid has `cells * cells` cells, and they are exactly the cells `InGrid` admits. */
  lemma AllCellsSize(cells: nat)
    ensures |AllCells(cells)| == cells * cells
    ensures forall c :: c in AllCells(cells) <==> InGrid(cells, c)
  {
    BlockSize(cells, cells);
    forall c | InGrid(cells, c)
      ensures c in AllCells(cells)
    {
      assert c == Cell(c.row, c.column);
    }
  }

  /** A subset is no larger than its superset, and a proper subset is smaller. */
  lemma SubsetSize<T>(a: set<T>, b: set<T>)
    requires a <= b
    ensures |a| <= |b| && (a != b ==> |a| < |b|)
  {
    assert b == a + (b - a);
    assert a !! (b - a);
    if a != b {
      var x :| x in b - a;
      assert |b - a| >= |{x}|;
    }
  }

  /** Every cell of `s` lies in the grid. */
  ghost predicate AllInGrid(cells: int, s: set<Cell>)
  {
    forall c :: c in s ==> InGrid(cells, c)
  }

  /** How many grid cells lie outside `visited`, a set of grid cells. */
  ghost function Unvisited(cells: nat, visited: set<Cell>): nat
    requires AllInGrid(cells, visited)
  {
    AllCellsSize(cells);
    SubsetSize(visited, AllCells(cells));
    cells * cells - |visited|
  }

  /** A set of cells that contains every in-grid neighbour of each of its members. */
  ghost predicate ClosedUnderNeighbours(cells: int, s: set<Cell>)
  {
    forall a, b {:trigger Adjacent(a, b)} :: a in s && InGrid(cells, b) && Adjacent(a, b) ==> b in s
  }

  /** Every member of `s` outside `pending` has all its in-grid neighbours in `s`. */
  ghost predicate ClosedExcept(cells: int, s: set<Cell>, pending: set<Cell>)
  {
    forall a, b {:trigger Adjacent(a, b)} :: a in s && a !in pending && InGrid(cells, b) && Adjacent(a, b) ==> b in s
  }

  lemma {:induction false} WalkRows(cells: int, s: set<Cell>, from: Cell, row: int)
    requires InGrid(cells, from) && from in s && ClosedUnderNeighbours(cells, s)
    requires 0 <= row < cells
    ensures Cell(row, from.column) in s
    decreases if from.row <= row then row - from.row else from.row - row
  {
    if from.row < row {
      var next := Cell(from.row + 1, from.column);
      assert Adjacent(from, next);
      WalkRows(cells, s, next, row);
    } else if from.row > row {
      var next := Cell(from.row - 1, from.column);
      assert Adjacent(from, next);
      WalkRows(cells, s, next, row);
    }
  }

  lemma {:induction false} WalkColumns(cells: int, s: set<Cell>, from: Cell, column: int)
    requires InGrid(cells, from) && from in s && ClosedUnderNeighbours(cells, s)
    requires 0 <= column < cells
    ensures Cell(from.row, column) in s
    decreases if from.column <= column then column - from.column else from.column - column
  {
    if from.column < column {
      var next := Cell(from.row, from.column + 1);
      assert Adjacent(from, next);
      WalkColumns(cells, s, next, column);
    } else if from.column > column {
      var next := Cell(from.row, from.column - 1);
      assert Adjacent(from, next);
      WalkColumns(cells, s, next, column);
    }
  }

  /**
   * The grid is connected: a set of cells that holds one grid cell and is closed
   * under the 4-neighbour relation holds every grid cell.
   */
  lemma ClosedCoversGrid(cells: int, s: set<Cell>, start: Cell)
    requires InGrid(cells, start) && start in s && ClosedUnderNeighbours(cells, s)
    ensures forall c :: InGrid(cells, c) ==> c in s
  {
    forall c | InGrid(cells, c)
      ensures c in s
    {
      WalkRows(cells, s, start, c.row);
      WalkColumns(cells, s, Cell(c.row, start.column), c.column);
    }
  }

  /** A path: consecutive cells are neighbours joined by an open passage. */
  ghost predicate IsPath(open: set<Passage>, path: seq<Cell>)
  {
    |path| >= 1 &&
    forall i :: 0 <= i < |path| - 1 ==> Adjacent(path[i], path[i + 1]) && Between(path[i], path[i + 1]) in open
  }

  ghost predicate Connects(open: set<Passage>, a: Cell, b: Cell)
  {
    exists path :: IsPath(open, path) && path[0] == a && path[|path| - 1] == b
  }

  /** Opening more passages keeps every connection. */
  lemma ConnectsMore(open: set<Passage>, more: set<Passage>, a: Cell, b: Cell)
    requires open <= more && Connects(open, a, b)
    ensures Connects(more, a, b)
  {
    var path :| IsPath(open, path) && path[0] == a && path[|path| - 1] == b;
    assert IsPath(more, path);
  }

  /** A cell joined to `a` by an open passage is connected to whatever `a` is connected to. */
  lemma ConnectsStep(open: set<Passage>, c: Cell, a: Cell, b: Cell)
    requires Adjacent(c, a) && Between(c, a) in open && Connects(open, a, b)
    ensures Connects(open, c, b)
  {
    var path :| IsPath(open, path) && path[0] == a && path[|path| - 1] == b;
    var longer := [c] + path;
    forall i | 0 <= i < |longer| - 1
      ensures Adjacent(longer[i], longer[i + 1]) && Between(longer[i], longer[i + 1]) in open
    {
      if i > 0 {
        assert longer[i] == path[i - 1] && longer[i + 1] == path[i];
      }
    }
    assert IsPath(open, longer) && longer[0] == c && longer[|longer| - 1] == b;
  }

  /**
   * The tree the traversal grows, stated on its passages: every open passage joins two
   * visited cells, there is one passage fewer than there are visited cells, and every
   * visited cell is connected to `root`. The unfinished cells `active` are the only
   * visited cells that may still have unvisited neighbours.
   */
  ghost predicate Grown(cells: int, visited: set<Cell>, open: set<Passage>, root: Cell, active: set<Cell>)
  {
    (visited == {} ==> open == {}) &&
    (visited != {} ==> root in visited && |visited| == |open| + 1) &&
    (forall p :: p in open ==> Ends(p).0 in visited && Ends(p).1 in visited) &&
    (forall c {:trigger Connects(open, c, root)} :: c in visited ==> Connects(open, c, root)) &&
    active <= visited && ClosedExcept(cells, visited, active)
  }

  /** Visiting the first cell makes it the root. */
  lemma GrowRoot(cells: int, open: set<Passage>, root: Cell, active: set<Cell>, c: Cell)
    requires Grown(cells, {}, open, root, active)
    ensures Grown(cells, {c}, open, c, active + {c})
  {
    assert active == {};
    assert IsPath(open, [c]) && [c][0] == c;
  }

  /** Opening the passage from a connected cell `p` to its neighbour `c` connects `c` too, and keeps every other connection. */
  lemma ConnectsThrough(visited: set<Cell>, open: set<Passage>, root: Cell, p: Cell, c: Cell)
    requires forall d {:trigger Connects(open, d, root)} :: d in visited ==> Connects(open, d, root)
    requires p in visited && Adjacent(p, c)
    ensures forall d {:trigger Connects(open + {Between(p, c)}, d, root)} ::
              d in visited + {c} ==> Connects(open + {Between(p, c)}, d, root)
  {
    var open' := open + {Between(p, c)};
    BetweenEnds(0, p, c);
    forall d | d in visited + {c}
      ensures Connects(open', d, root)
    {
      if d == c {
        ConnectsMore(open, open', p, root);
        ConnectsStep(open', c, p, root);
      } else {
        ConnectsMore(open, open', d, root);
      }
    }
  }

  /**
   * Visiting a fresh cell `c` from a visited neighbour `p`, through the passage between
   * them, adds one cell and one passage and keeps everything connected to the root.
   */
  lemma GrowChild(cells: int, visited: set<Cell>, open: set<Passage>, root: Cell, active: set<Cell>, p: Cell, c: Cell)
    requires Grown(cells, visited, open, root, active)
    requires p in visited && c !in visited && Adjacent(p, c)
    ensures Grown(cells, visited + {c}, open + {Between(p, c)}, root, active + {c})
  {
    var e := Between(p, c);
    BetweenEnds(cells, p, c);
    assert Ends(e).0 == c || Ends(e).1 == c;
    assert e !in open;
    ConnectsThrough(visited, open, root, p, c);
  }

  /** A cell whose neighbours are all visited need no longer be active. */
  lemma Finished(cells: int, visited: set<Cell>, open: set<Passage>, root: Cell, active: set<Cell>, c: Cell)
    requires Grown(cells, visited, open, root, active)
    requires forall n :: InGrid(cells, n) && Adjacent(c, n) ==> n in visited
    ensures Grown(cells, visited, open, root, active - {c})
  {
  }

  /**
   * A traversal that has finished every cell it visited has built a spanning tree of
   * the grid: every cell is visited, there are `cells * cells - 1` passages, and they
   * connect every cell to the root.
   */
  lemma SpanningTree(cells: nat, visited: set<Cell>, open: set<Passage>, root: Cell)
    requires Grown(cells, visited, open, root, {}) && root in visited
    requires AllInGrid(cells, visited)
    ensures visited == AllCells(cells) && |visited| == cells * cells
    ensures |open| == cells * cells - 1
    ensures forall c :: InGrid(cells, c) ==> Connects(open, c, root)
  {
    AllCellsSize(cells);
    assert ClosedUnderNeighbours(cells, visited);
    ClosedCoversGrid(cells, visited, root);
    forall c | InGrid(cells, c)
      ensures Connects(open, c, root)
    {
      assert c in visited;
    }
  }
}
