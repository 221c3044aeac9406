/** Cells of the grid in [row, col] order, the four cardinal moves between
    them, and the Manhattan distance that both search strategies use as
    their heuristic. */
module Coords {

  /** A cell, always in [row, col] order. Equality is by value, which is
      what the coordinate lists and tuple hashes of grid/a_star.py give. */
  datatype Coord = Coord(row: int, col: int)

  /** The four cardinal moves, in the order the search enumerates them. */
  datatype Dir = Up | Down | Left | Right

  function Abs(x: int): nat {
    if x < 0 then -x else x
  }

  /** The [row, col] offset of one move: up is one row towards row 0. */
  function Delta(d: Dir): Coord {
    match d
    case Up => Coord(-1, 0)
    case Down => Coord(1, 0)
    case Left => Coord(0, -1)
    case Right => Coord(0, 1)
  }

  function Add(a: Coord, b: Coord): Coord {
    Coord(a.row + b.row, a.col + b.col)
  }

  function Step(c: Coord, d: Dir): Coord {
    Add(c, Delta(d))
  }

  /** Position of a direction in the enumeration order up, down, left, right. */
  function Rank(d: Dir): nat {
    match d
    case Up => 0
    case Down => 1
    case Left => 2
    case Right => 3
  }

  /** Number of unit moves between a and b when nothing is in the way. */
  function Manhattan(a: Coord, b: Coord): (d: nat)
    ensures d == 0 <==> a == b
    ensures Abs(a.row - b.row) <= d && Abs(a.col - b.col) <= d
  {
    Abs(a.row - b.row) + Abs(a.col - b.col)
  }

  /** a and b differ by exactly one unit in exactly one axis. */
  predicate Adjacent(a: Coord, b: Coord) {
    (a.row == b.row && Abs(a.col - b.col) == 1) ||
    (a.col == b.col && Abs(a.row - b.row) == 1)
  }

  /** The move that leads from a to an adjacent b. */
  function DirTo(a: Coord, b: Coord): (d: Dir)
    requires Adjacent(a, b)
    ensures Step(a, d) == b
  {
    if b.row < a.row then Up
    else if b.row > a.row then Down
    else if b.col < a.col then Left
    else Right
  }

  lemma StepIsAdjacent(c: Coord, d: Dir)
    ensures Adjacent(c, Step(c, d))
    ensures DirTo(c, Step(c, d)) == d
  {
  }

  lemma AdjacentSymmetric(a: Coord, b: Coord)
    ensures Adjacent(a, b) <==> Adjacent(b, a)
  {
  }

  /** Adjacent cells are exactly the cells at Manhattan distance one. */
  lemma AdjacentIsUnitDistance(a: Coord, b: Coord)
    ensures Adjacent(a, b) <==> Manhattan(a, b) == 1
  {
  }

  /** One move changes the distance to any fixed cell by exactly one. */
  lemma ManhattanStep(x: Coord, a: Coord, b: Coord)
    requires Adjacent(a, b)
    ensures Manhattan(x, b) == Manhattan(x, a) + 1 || Manhattan(x, b) + 1 == Manhattan(x, a)
  {
  }

  lemma ManhattanTriangle(a: Coord, b: Coord, c: Coord)
    ensures Manhattan(a, c) <= Manhattan(a, b) + Manhattan(b, c)
  {
  }

  lemma ManhattanSymmetric(a: Coord, b: Coord)
    ensures Manhattan(a, b) == Manhattan(b, a)
  {
  }

  /** One move from p towards q, closing the row gap first. */
  function Toward(p: Coord, q: Coord): (r: Coord)
    requires p != q
    ensures Adjacent(p, r)
    ensures Manhattan(r, q) + 1 == Manhattan(p, q)
  {
    if p.row < q.row then Coord(p.row + 1, p.col)
    else if p.row > q.row then Coord(p.row - 1, p.col)
    else if p.col < q.col then Coord(p.row, p.col + 1)
    else Coord(p.row, p.col - 1)
  }

  /** A cell on a shortest route from s to q lies between them in both
      axes, and the move from it towards q takes it one step further from s. */
  lemma TowardOnRoute(s: Coord, p: Coord, q: Coord)
    requires p != q && Manhattan(s, p) + Manhattan(p, q) == Manhattan(s, q)
    ensures Manhattan(s, Toward(p, q)) == Manhattan(s, p) + 1
    ensures Manhattan(s, Toward(p, q)) + Manhattan(Toward(p, q), q) == Manhattan(s, q)
  {
  }

  /** Every non-empty set of cells has one farthest from s. */
  lemma {:induction false} FarthestExists(s: Coord, cells: set<Coord>)
    requires cells != {}
    ensures exists p :: p in cells && forall q :: q in cells ==> Manhattan(s, q) <= Manhattan(s, p)
    decreases |cells|
  {
    var x :| x in cells;
    var rest := cells - {x};
    if rest == {} {
      assert cells == {x};
      assert forall q :: q in cells ==> Manhattan(s, q) <= Manhattan(s, x);
    } else {
      FarthestExists(s, rest);
      var y :| y in rest && forall q :: q in rest ==> Manhattan(s, q) <= Manhattan(s, y);
      if Manhattan(s, x) <= Manhattan(s, y) {
        assert forall q :: q in cells ==> Manhattan(s, q) <= Manhattan(s, y);
      } else {
        assert forall q :: q in cells ==> Manhattan(s, q) <= Manhattan(s, x);
      }
    }
  }
}
