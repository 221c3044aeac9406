/** The 0/1 table both searches read, the neighbour enumeration they share,
    and walks through free cells. */
module Mazes {
  import opened Coords

  /** Rows of cells; the value 1 blocks a cell and every other value is free. */
  type Maze = seq<seq<int>>

  function Height(m: Maze): nat {
    |m|
  }

  /** The column bound is taken from the first row, as get_neighbors in grid/a_star.py does. */
  function Width(m: Maze): nat {
    if |m| == 0 then 0 else |m[0]|
  }

  predicate Rectangular(m: Maze) {
    forall r :: 0 <= r < |m| ==> |m[r]| == Width(m)
  }

  predicate InBounds(m: Maze, c: Coord) {
    0 <= c.row < Height(m) && 0 <= c.col < Width(m)
  }

  /** In bounds and not holding the value 1. */
  predicate Free(m: Maze, c: Coord)
    requires Rectangular(m)
  {
    InBounds(m, c) && m[c.row][c.col] != 1
  }

  ghost predicate ObstacleFree(m: Maze)
    requires Rectangular(m)
  {
    forall c :: InBounds(m, c) ==> Free(m, c)
  }

  /** Every in-bounds cell. */
  ghost function AllCells(m: Maze): (s: set<Coord>)
    ensures forall c {:trigger c in s} :: c in s <==> InBounds(m, c)
    ensures |s| == Height(m) * Width(m)
  {
    CellBlock(Height(m), Width(m))
  }

  ghost function CellBlock(h: nat, w: nat): (s: set<Coord>)
    ensures forall c {:trigger c in s} :: c in s <==> 0 <= c.row < h && 0 <= c.col < w
    ensures |s| == h * w
  {
    if h == 0 then {}
    else
      var above := CellBlock(h - 1, w);
      var row := RowCells(h - 1, w);
      assert above * row == {};
      above + row
  }

  ghost function RowCells(r: int, w: nat): (s: set<Coord>)
    ensures forall c {:trigger c in s} :: c in s <==> c.row == r && 0 <= c.col < w
    ensures |s| == w
  {
    if w == 0 then {} else RowCells(r, w - 1) + {Coord(r, w - 1)}
  }

  /** The cell one move away in direction d, if that cell is free. */
  function OpenStep(m: Maze, c: Coord, d: Dir): seq<Coord>
    requires Rectangular(m)
  {
    if Free(m, Step(c, d)) then [Step(c, d)] else []
  }

  /** The free cells one move away from c, up and down first, then left and right. */
  function Neighbours(m: Maze, c: Coord): (r: seq<Coord>)
    requires Rectangular(m) && InBounds(m, c)
    ensures forall n {:trigger n in r} :: n in r <==> Free(m, n) && Adjacent(c, n)
    ensures |r| <= 4
  {
    var r := OpenStep(m, c, Up) + OpenStep(m, c, Down) + OpenStep(m, c, Left) + OpenStep(m, c, Right);
    forall n | Free(m, n) && Adjacent(c, n)
      ensures n in r
    {
      assert n == Step(c, DirTo(c, n));
    }
    r
  }

  /** Neighbours come in the order up, down, left, right, so none repeats. */
  lemma NeighbourOrder(m: Maze, c: Coord)
    requires Rectangular(m) && InBounds(m, c)
    ensures forall i, j :: 0 <= i < j < |Neighbours(m, c)| ==>
      Rank(DirTo(c, Neighbours(m, c)[i])) < Rank(DirTo(c, Neighbours(m, c)[j]))
  {
    var nb := Neighbours(m, c);
    forall d | true
      ensures Step(c, d) in nb ==> DirTo(c, Step(c, d)) == d
    {
      StepIsAdjacent(c, d);
    }
  }

  /** Free neighbours are mutual: a free cell is a neighbour of each of its neighbours. */
  lemma NeighbourSymmetric(m: Maze, a: Coord, b: Coord)
    requires Rectangular(m) && Free(m, a) && InBounds(m, b)
    requires b in Neighbours(m, a)
    ensures a in Neighbours(m, b)
  {
    AdjacentSymmetric(a, b);
  }

  /** Consecutive cells differ by one unit in one axis. */
  predicate Chain(w: seq<Coord>) {
    forall i :: 0 <= i < |w| - 1 ==> Adjacent(w[i], w[i + 1])
  }

  /** A chain that stays on free cells of the maze. */
  predicate IsWalk(m: Maze, w: seq<Coord>)
    requires Rectangular(m)
  {
    Chain(w) && forall i :: 0 <= i < |w| ==> Free(m, w[i])
  }

  /** Dropping the first cell of a walk leaves a walk. */
  lemma WalkTail(m: Maze, w: seq<Coord>)
    requires Rectangular(m) && IsWalk(m, w) && |w| > 0
    ensures IsWalk(m, w[1..])
  {
    var rest := w[1..];
    forall i | 0 <= i < |rest| - 1
      ensures Adjacent(rest[i], rest[i + 1])
    {
      assert rest[i] == w[i + 1] && rest[i + 1] == w[i + 2];
    }
  }

  lemma WalkCons(m: Maze, c: Coord, w: seq<Coord>)
    requires Rectangular(m) && IsWalk(m, w) && |w| > 0
    requires Free(m, c) && Adjacent(c, w[0])
    ensures IsWalk(m, [c] + w)
  {
    var r := [c] + w;
    assert forall i :: 0 < i < |r| ==> r[i] == w[i - 1];
  }

  predicate WalkFromTo(m: Maze, w: seq<Coord>, a: Coord, b: Coord)
    requires Rectangular(m)
  {
    |w| > 0 && w[0] == a && w[|w| - 1] == b && IsWalk(m, w)
  }

  ghost predicate Reachable(m: Maze, a: Coord, b: Coord)
    requires Rectangular(m)
  {
    exists w :: WalkFromTo(m, w, a, b)
  }

  /** The search's exit condition can fire: end is a free neighbour of some
      cell reachable from start. */
  ghost predicate Discoverable(m: Maze, start: Coord, end: Coord)
    requires Rectangular(m)
  {
    exists x :: Reachable(m, start, x) && Free(m, x) && end in Neighbours(m, x)
  }

  function Reverse<T>(s: seq<T>): (r: seq<T>)
    ensures |r| == |s|
    ensures forall i :: 0 <= i < |s| ==> r[i] == s[|s| - 1 - i]
  {
    if s == [] then [] else Reverse(s[1..]) + [s[0]]
  }

  lemma ReverseWalk(m: Maze, w: seq<Coord>)
    requires Rectangular(m) && IsWalk(m, w)
    ensures IsWalk(m, Reverse(w))
  {
    var r := Reverse(w);
    forall i | 0 <= i < |r| - 1
      ensures Adjacent(r[i], r[i + 1])
    {
      assert r[i] == w[|w| - 1 - i] && r[i + 1] == w[|w| - 1 - i - 1];
      AdjacentSymmetric(w[|w| - 2 - i], w[|w| - 1 - i]);
    }
  }

  /** Every chain is at least as long as the Manhattan distance between its
      ends, and the two have the same parity. */
  lemma {:induction false} ChainLength(w: seq<Coord>)
    requires Chain(w) && |w| > 0
    ensures |w| - 1 >= Manhattan(w[0], w[|w| - 1])
    ensures (|w| - 1 - Manhattan(w[0], w[|w| - 1])) % 2 == 0
  {
    if |w| > 1 {
      var last := w[|w| - 1];
      var rest := w[1..];
      assert Chain(rest) by {
        forall i | 0 <= i < |rest| - 1
          ensures Adjacent(rest[i], rest[i + 1])
        {
          assert rest[i] == w[i + 1] && rest[i + 1] == w[i + 2];
        }
      }
      ChainLength(rest);
      assert rest[|rest| - 1] == last;
      assert Adjacent(w[0], w[1]);
      ManhattanStep(last, w[0], w[1]);
      ManhattanSymmetric(last, w[0]);
      ManhattanSymmetric(last, w[1]);
    }
  }

  lemma ReachableSelf(m: Maze, a: Coord)
    requires Rectangular(m) && Free(m, a)
    ensures Reachable(m, a, a)
  {
    assert WalkFromTo(m, [a], a, a);
  }

  lemma ReachableStep(m: Maze, a: Coord, b: Coord, c: Coord)
    requires Rectangular(m) && Reachable(m, a, b) && Free(m, c) && Adjacent(b, c)
    ensures Reachable(m, a, c)
  {
    var w :| WalkFromTo(m, w, a, b);
    var w' := w + [c];
    assert w'[|w'| - 2] == b;
    assert WalkFromTo(m, w', a, c);
  }

  /** A set that holds a and the neighbours of each of its cells holds every
      cell reachable from a. */
  lemma ClosedSetHoldsReachable(m: Maze, s: set<Coord>, a: Coord, b: Coord)
    requires Rectangular(m) && a in s
    requires forall x :: x in s ==> Free(m, x) && forall n :: n in Neighbours(m, x) ==> n in s
    requires Reachable(m, a, b)
    ensures b in s
  {
    var w :| WalkFromTo(m, w, a, b);
    var i := 0;
    while i < |w| - 1
      invariant 0 <= i <= |w| - 1
      invariant w[i] in s
    {
      assert Adjacent(w[i], w[i + 1]) && Free(m, w[i + 1]);
      assert w[i + 1] in Neighbours(m, w[i]);
      i := i + 1;
    }
  }

  /** For a goal other than the start, the exit condition can fire exactly
      when the goal is reachable. */
  lemma DiscoverableIffReachable(m: Maze, start: Coord, end: Coord)
    requires Rectangular(m) && Free(m, start) && end != start
    ensures Discoverable(m, start, end) <==> Reachable(m, start, end)
  {
    if Discoverable(m, start, end) {
      var x :| Reachable(m, start, x) && Free(m, x) && end in Neighbours(m, x);
      ReachableStep(m, start, x, end);
    }
    if Reachable(m, start, end) {
      var w :| WalkFromTo(m, w, start, end);
      assert |w| >= 2;
      var x := w[|w| - 2];
      var p := w[..|w| - 1];
      assert WalkFromTo(m, p, start, x) by {
        assert forall i :: 0 <= i < |p| ==> p[i] == w[i];
      }
      assert Adjacent(x, end);
      assert end in Neighbours(m, x);
    }
  }

  /** When the goal is the start, the exit condition can fire exactly when the
      start has a free neighbour. */
  lemma DiscoverableSelfIffNeighbour(m: Maze, start: Coord)
    requires Rectangular(m) && Free(m, start)
    ensures Discoverable(m, start, start) <==> |Neighbours(m, start)| > 0
  {
    if Discoverable(m, start, start) {
      var x :| Reachable(m, start, x) && Free(m, x) && start in Neighbours(m, x);
      NeighbourSymmetric(m, x, start);
      assert x in Neighbours(m, start);
    }
    if |Neighbours(m, start)| > 0 {
      var x := Neighbours(m, start)[0];
      ReachableSelf(m, start);
      ReachableStep(m, start, start, x);
      NeighbourSymmetric(m, start, x);
    }
  }

  /** A blocked or out-of-bounds goal is never discovered. */
  lemma NotFreeNotDiscoverable(m: Maze, start: Coord, end: Coord)
    requires Rectangular(m) && !Free(m, end)
    ensures !Discoverable(m, start, end)
  {
  }

  /** Cells on a shortest route between two in-bounds cells are in bounds. */
  lemma OnRouteInBounds(m: Maze, s: Coord, q: Coord, p: Coord)
    requires InBounds(m, s) && InBounds(m, q)
    requires Manhattan(s, p) + Manhattan(p, q) == Manhattan(s, q)
    ensures InBounds(m, p)
  {
  }

  /** Without obstacles, walking from any cell on a shortest route towards
      the goal reaches it. */
  lemma {:induction false} ReachableAlongRoute(m: Maze, start: Coord, end: Coord, p: Coord)
    requires Rectangular(m) && ObstacleFree(m) && InBounds(m, start) && InBounds(m, end)
    requires Manhattan(start, p) + Manhattan(p, end) == Manhattan(start, end)
    requires Reachable(m, start, p)
    ensures Reachable(m, start, end)
    decreases Manhattan(p, end)
  {
    if p != end {
      var y := Toward(p, end);
      TowardOnRoute(start, p, end);
      OnRouteInBounds(m, start, end, y);
      ReachableStep(m, start, p, y);
      ReachableAlongRoute(m, start, end, y);
    }
  }

  /** Without obstacles, every in-bounds goal other than the start is discoverable. */
  lemma OpenDiscoverable(m: Maze, start: Coord, end: Coord)
    requires Rectangular(m) && ObstacleFree(m) && InBounds(m, start) && InBounds(m, end)
    requires start != end
    ensures Discoverable(m, start, end)
  {
    ReachableSelf(m, start);
    ReachableAlongRoute(m, start, end, start);
    DiscoverableIffReachable(m, start, end);
  }
}
