/** grid/a_star.py: the cost-aware instance of the shared search, whose
    frontier priority is the steps taken so far plus the Manhattan distance
    left to the goal. */
module AStar {
  import opened Coords
  import opened Mazes
  import Search

  /** The route from start to end, in walking order, or the empty list when
      the goal cannot be met. The start must be a free cell in bounds; the
      goal may be anything. */
  method AStar(maze: Maze, start: Coord, end: Coord) returns (path: seq<Coord>)
    requires Rectangular(maze) && Free(maze, start)
    ensures path != [] <==> Discoverable(maze, start, end)
    ensures path != [] ==> WalkFromTo(maze, path, start, end)
    ensures path != [] ==> |path| - 1 >= Manhattan(start, end) && (|path| - 1 - Manhattan(start, end)) % 2 == 0
    ensures !Free(maze, end) ==> path == []
    ensures end != start ==> (path != [] <==> Reachable(maze, start, end))
    ensures end == start ==> (path != [] <==> |Neighbours(maze, start)| > 0)
    ensures end == start && path != [] ==> path == [start]
    ensures ObstacleFree(maze) && InBounds(maze, end) && end != start ==> |path| == Manhattan(start, end) + 1
  {
    var found, t;
    found, t, path := Search.Run(Search.CostAware, maze, start, end);
    if !Free(maze, end) {
      NotFreeNotDiscoverable(maze, start, end);
    }
    if end != start {
      DiscoverableIffReachable(maze, start, end);
      if ObstacleFree(maze) && InBounds(maze, end) {
        OpenDiscoverable(maze, start, end);
      }
    } else {
      DiscoverableSelfIffNeighbour(maze, start);
    }
  }
}
