/** solution.py: the heuristic-only instance of the shared search, whose
    frontier priority is the Manhattan distance left to the goal alone. It
    is a greedy best-first search, so only validity, the length floor and
    completeness are claimed for it, not shortness. */
module Solution {
  import opened Coords
  import opened Mazes
  import opened Optional
  import Search

  /** The route from start to end, in walking order, or None when the goal
      cannot be met. */
  method Djikstra(maze: Maze, start: Coord, end: Coord) returns (r: Option<seq<Coord>>)
    requires Rectangular(maze) && Free(maze, start)
    ensures r.Some? <==> Discoverable(maze, start, end)
    ensures r.Some? ==> WalkFromTo(maze, r.value, start, end)
    ensures r.Some? ==> |r.value| - 1 >= Manhattan(start, end) && (|r.value| - 1 - Manhattan(start, end)) % 2 == 0
    ensures !Free(maze, end) ==> r == None
    ensures end != start ==> (r.Some? <==> Reachable(maze, start, end))
    ensures end == start ==> (r.Some? <==> |Neighbours(maze, start)| > 0)
    ensures end == start && r.Some? ==> r.value == [start]
  {
    var found, t, path := Search.Run(Search.HeuristicOnly, maze, start, end);
    r := if found then Some(path) else None;
    if !Free(maze, end) {
      NotFreeNotDiscoverable(maze, start, end);
    }
    if end != start {
      DiscoverableIffReachable(maze, start, end);
    } else {
      DiscoverableSelfIffNeighbour(maze, start);
    }
  }

  /** The 5 by 4 maze of the module's example run, searched from (0,0) to (4,3). */
  function ExampleMaze(): Maze {
    [[0, 0, 1, 1], [0, 1, 0, 0], [0, 0, 0, 0], [0, 1, 0, 0], [0, 0, 0, 0]]
  }

  /** A route of seven moves through the example maze: down the left
      column, across the middle row, then down and right to the goal. */
  function ExampleRoute(): seq<Coord> {
    [Coord(0, 0), Coord(1, 0), Coord(2, 0), Coord(2, 1), Coord(2, 2), Coord(3, 2), Coord(4, 2), Coord(4, 3)]
  }

  /** The example's goal is reachable in seven moves, the Manhattan
      distance between its corners, so no route through it is shorter. */
  lemma ExampleShortest()
    ensures Rectangular(ExampleMaze()) && Free(ExampleMaze(), Coord(0, 0))
    ensures WalkFromTo(ExampleMaze(), ExampleRoute(), Coord(0, 0), Coord(4, 3))
    ensures |ExampleRoute()| - 1 == Manhattan(Coord(0, 0), Coord(4, 3)) == 7
  {
    var m := ExampleMaze();
    var w := ExampleRoute();
    ExampleRouteFree();
    assert forall i :: 0 <= i < |w| - 1 ==> Adjacent(w[i], w[i + 1]);
  }

  /** The example maze is 5 by 4, and the route avoids its blocked cells. */
  lemma ExampleRouteFree()
    ensures Rectangular(ExampleMaze())
    ensures forall i :: 0 <= i < |ExampleRoute()| ==> Free(ExampleMaze(), ExampleRoute()[i])
  {
    var m := ExampleMaze();
    assert |m| == 5 && Width(m) == 4;
    assert Rectangular(m);
    var w := ExampleRoute();
    forall i | 0 <= i < |w|
      ensures Free(m, w[i])
    {
      assert m[w[i].row][w[i].col] == 0;
    }
  }

  lemma OddAboveSeven(k: int)
    requires k >= 7 && (k - 7) % 2 == 0
    ensures k % 2 == 1
  {
  }

  /** The example run finds a route, and whatever the tie order, it makes an
      odd number of moves, at least seven. */
  method Example() returns (r: Option<seq<Coord>>)
    ensures Rectangular(ExampleMaze())
    ensures r.Some? && WalkFromTo(ExampleMaze(), r.value, Coord(0, 0), Coord(4, 3))
    ensures |r.value| - 1 >= 7 && (|r.value| - 1) % 2 == 1
  {
    ExampleShortest();
    assert Reachable(ExampleMaze(), Coord(0, 0), Coord(4, 3)) by {
      assert WalkFromTo(ExampleMaze(), ExampleRoute(), Coord(0, 0), Coord(4, 3));
    }
    r := Djikstra(ExampleMaze(), Coord(0, 0), Coord(4, 3));
    OddAboveSeven(|r.value| - 1);
  }
}
