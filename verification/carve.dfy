/**
 * What `traverse` computes, as a function of the draws it sees: the cells it visits,
 * the walls it removes and how far into the stream it has drawn. `Carve` is one call
 * of `traverse`, `CarveMoves` its loop over the shuffled moves from position `i` on,
 * `CarveStep` one iteration of that loop.
 */
module Carving {
  import opened Grid
  import opened RandomSource
  import opened Shuffling

  /** A point of the traversal: visited cells, open passages, the position of the next draw. */
  type Stage = (set<Cell>, set<Passage>, nat)

  /** `r` is the point the traversal has reached when it has visited `visited`, opened `open` and drawn up to `next`. */
  ghost predicate At(r: Stage, visited: set<Cell>, open: set<Passage>, next: nat)
  {
    r.0 == visited && r.1 == open && r.2 == next
  }

  /**
   * `traverse(c)`: nothing on a visited cell; otherwise mark `c`, shuffle its four
   * candidate moves with the next four draws, and try them in that order.
   */
  ghost function Carve(cells: nat, visited: set<Cell>, open: set<Passage>, c: Cell, stream: nat -> nat, next: nat): (r: Stage)
    requires AllInGrid(cells, visited) && InGrid(cells, c)
    ensures visited <= r.0 && AllInGrid(cells, r.0) && c in r.0
    decreases Unvisited(cells, visited), 0, 0
  {
    if c in visited then (visited, open, next)
    else
      SubsetSize(visited, visited + {c});
      CarveMoves(cells, visited + {c}, open, c, Shuffled(Moves(c), stream, next), 0, stream, next + 4)
  }

  /** `traverse` on an unvisited cell marks it and runs its loop over the moves the next four draws shuffle. */
  lemma CarveEnter(cells: nat, visited: set<Cell>, open: set<Passage>, c: Cell, stream: nat -> nat, next: nat)
    requires AllInGrid(cells, visited) && InGrid(cells, c) && c !in visited
    ensures Carve(cells, visited, open, c, stream, next)
         == CarveMoves(cells, visited + {c}, open, c, Shuffled(Moves(c), stream, next), 0, stream, next + 4)
  {
  }

  /** One iteration of the loop over the moves of `c`: skip a target outside the grid or already visited, otherwise open the wall towards it and traverse it. */
  ghost function CarveStep(cells: nat, visited: set<Cell>, open: set<Passage>, c: Cell, m: Move, stream: nat -> nat, next: nat): (r: Stage)
    requires AllInGrid(cells, visited)
    ensures visited <= r.0 && AllInGrid(cells, r.0)
    ensures r.0 == visited <==> !InGrid(cells, Target(m)) || Target(m) in visited
    decreases Unvisited(cells, visited), 1, 0
  {
    var t := Target(m);
    if !InGrid(cells, t) || t in visited then (visited, open, next)
    else Carve(cells, visited, open + {Between(c, t)}, t, stream, next)
  }

  /** The loop of `traverse(c)` over `order`, from position `i` on. */
  ghost function CarveMoves(cells: nat, visited: set<Cell>, open: set<Passage>, c: Cell, order: seq<Move>, i: nat, stream: nat -> nat, next: nat): (r: Stage)
    requires AllInGrid(cells, visited) && i <= |order|
    ensures visited <= r.0 && AllInGrid(cells, r.0)
    decreases Unvisited(cells, visited), 2, |order| - i
  {
    if i == |order| then (visited, open, next)
    else
      var s := CarveStep(cells, visited, open, c, order[i], stream, next);
      SubsetSize(visited, s.0);
      CarveMoves(cells, s.0, s.1, c, order, i + 1, stream, s.2)
  }

  /**
   * The loop over the moves from position `i` is the iteration at `i` followed by the loop
   * from `i + 1`, started where that iteration left off.
   */
  lemma CarveMovesStep(cells: nat, visited: set<Cell>, open: set<Passage>, c: Cell, order: seq<Move>, i: nat, stream: nat -> nat, next: nat,
                       visited': set<Cell>, open': set<Passage>, next': nat)
    requires AllInGrid(cells, visited) && i < |order|
    requires At(CarveStep(cells, visited, open, c, order[i], stream, next), visited', open', next')
    ensures AllInGrid(cells, visited')
    ensures CarveMoves(cells, visited', open', c, order, i + 1, stream, next') == CarveMoves(cells, visited, open, c, order, i, stream, next)
  {
  }

  /** The target of a move, when it is in the grid, is visited once the iteration for that move is over. */
  lemma CarveStepVisits(cells: nat, visited: set<Cell>, open: set<Passage>, c: Cell, m: Move, stream: nat -> nat, next: nat)
    requires AllInGrid(cells, visited) && InGrid(cells, Target(m))
    ensures Target(m) in CarveStep(cells, visited, open, c, m, stream, next).0
  {
  }

  /** The loop over the moves from position `i` leaves the target of every later in-grid move visited. */
  lemma {:induction false} CarveMovesVisits(cells: nat, visited: set<Cell>, open: set<Passage>, c: Cell, order: seq<Move>, i: nat, stream: nat -> nat, next: nat)
    requires AllInGrid(cells, visited) && i <= |order|
    ensures var r := CarveMoves(cells, visited, open, c, order, i, stream, next);
            forall j :: i <= j < |order| && InGrid(cells, Target(order[j])) ==> Target(order[j]) in r.0
    decreases |order| - i
  {
    if i < |order| {
      var s := CarveStep(cells, visited, open, c, order[i], stream, next);
      if InGrid(cells, Target(order[i])) {
        CarveStepVisits(cells, visited, open, c, order[i], stream, next);
      }
      CarveMovesVisits(cells, s.0, s.1, c, order, i + 1, stream, s.2);
    }
  }

  /** `traverse` makes four draws, for one shuffle, per cell it newly visits. */
  lemma {:induction false} CarveDraws(cells: nat, visited: set<Cell>, open: set<Passage>, c: Cell, stream: nat -> nat, next: nat)
    requires AllInGrid(cells, visited) && InGrid(cells, c)
    ensures var r := Carve(cells, visited, open, c, stream, next);
            r.2 == next + 4 * (|r.0| - |visited|)
    decreases Unvisited(cells, visited), 0, 0
  {
    if c !in visited {
      assert |visited + {c}| == |visited| + 1;
      SubsetSize(visited, visited + {c});
      CarveMovesDraws(cells, visited + {c}, open, c, Shuffled(Moves(c), stream, next), 0, stream, next + 4);
    }
  }

  lemma {:induction false} CarveStepDraws(cells: nat, visited: set<Cell>, open: set<Passage>, c: Cell, m: Move, stream: nat -> nat, next: nat)
    requires AllInGrid(cells, visited)
    ensures var r := CarveStep(cells, visited, open, c, m, stream, next);
            r.2 == next + 4 * (|r.0| - |visited|)
    decreases Unvisited(cells, visited), 1, 0
  {
    var t := Target(m);
    if InGrid(cells, t) && t !in visited {
      CarveDraws(cells, visited, open + {Between(c, t)}, t, stream, next);
    }
  }

  lemma {:induction false} CarveMovesDraws(cells: nat, visited: set<Cell>, open: set<Passage>, c: Cell, order: seq<Move>, i: nat, stream: nat -> nat, next: nat)
    requires AllInGrid(cells, visited) && i <= |order|
    ensures var r := CarveMoves(cells, visited, open, c, order, i, stream, next);
            r.2 == next + 4 * (|r.0| - |visited|)
    decreases Unvisited(cells, visited), 2, |order| - i
  {
    if i < |order| {
      var s := CarveStep(cells, visited, open, c, order[i], stream, next);
      CarveStepDraws(cells, visited, open, c, order[i], stream, next);
      SubsetSize(visited, s.0);
      CarveMovesDraws(cells, s.0, s.1, c, order, i + 1, stream, s.2);
    }
  }

  /** The walls removed by a whole run on a `cells × cells` grid: the start cell is the next two draws, then `traverse` from it. */
  ghost function Layout(cells: nat, stream: nat -> nat, next: nat): (r: Stage)
    requires cells >= 1
    ensures Cell(Draw(stream, next, cells), Draw(stream, next + 1, cells)) in r.0
  {
    var start := Cell(Draw(stream, next, cells), Draw(stream, next + 1, cells));
    Carve(cells, {}, {}, start, stream, next + 2)
  }
}
