/** gui/gui.py, class Scene: the robot, the goal and the obstacle grid, the
    moves the keyboard and the autopilot make, and the edits a mouse click
    makes. Internally every cell is [row, col]; the mouse hands in [x, y]. */
module Scenes {
  import opened Coords
  import opened Mazes
  import opened Grids
  import AStar

  /** A point as the mouse reports it, x along a row and y down the rows. */
  datatype Point = Point(x: int, y: int)

  /** The [row, col] cell under an [x, y] point. */
  function CellAt(p: Point): Coord {
    Coord(p.y, p.x)
  }

  datatype Scene = Scene(grid: Grid, robot: Coord, goal: Coord, path: seq<Coord>)

  /** What every scene keeps: the robot stands inside the grid, neither the
      robot nor the goal is on an obstacle, and no obstacle is listed twice. */
  predicate Inv(s: Scene) {
    InGrid(s.grid, s.robot) && !IsObstacle(s.grid, s.robot) && !IsObstacle(s.grid, s.goal)
    && NoDup(s.grid.obstacles)
  }

  /** The cell a uniform draw from 0 to width * height - 1 names: row by
      floor division, column by remainder. */
  function CellOf(width: int, choice: int): (c: Coord)
    requires width > 0
    ensures width * c.row + c.col == choice && 0 <= c.col < width
    ensures choice >= 0 ==> c.row >= 0
  {
    Coord(choice / width, choice % width)
  }

  /** Every draw in range names a cell of the grid. */
  lemma CellOfInGrid(width: int, height: int, a: int)
    requires width > 0 && height > 0 && 0 <= a < width * height
    ensures InGrid(Grid(height, width, []), CellOf(width, a))
  {
    var q := a / width;
    assert a == width * q + a % width;
    MulMono(width, height, q);
  }

  /** Different draws name different cells. */
  lemma CellOfInjective(width: int, a: int, b: int)
    requires width > 0
    ensures CellOf(width, a) == CellOf(width, b) ==> a == b
  {
    assert a == width * (a / width) + a % width;
    assert b == width * (b / width) + b % width;
  }

  lemma MulMono(w: int, x: int, y: int)
    requires w >= 0
    ensures x <= y ==> w * x <= w * y
  {
    if x <= y {
      assert w * y == w * x + w * (y - x);
    }
  }

  /** Adds each cell in turn, as the constructor's placement loop does. */
  function AddAll(g: Grid, cells: seq<Coord>): (r: Grid)
    ensures r.height == g.height && r.width == g.width
    ensures forall d :: IsObstacle(r, d) <==> IsObstacle(g, d) || d in cells
    ensures NoDup(g.obstacles) ==> NoDup(r.obstacles)
    decreases |cells|
  {
    if cells == [] then g
    else
      var r := AddAll(AddObstacle(g, cells[0]), cells[1..]);
      assert forall d :: d in cells <==> d == cells[0] || d in cells[1..];
      r
  }

  /** The accepted draws of a new scene: each in range and naming a cell no
      earlier draw named, which is what the rejection loop of the coordinate
      picker guarantees. */
  predicate Unique(width: int, height: int, draws: seq<int>)
    requires width > 0
  {
    (forall i :: 0 <= i < |draws| ==> 0 <= draws[i] < width * height)
    && forall i, j :: 0 <= i < j < |draws| ==> CellOf(width, draws[i]) != CellOf(width, draws[j])
  }

  /** A new scene: the first draw places the goal, the second the robot and
      the rest the obstacles, with no path shown. The draws are parameters;
      how many obstacles the rate asks for is left to their number. */
  function NewScene(width: int, height: int, draws: seq<int>): (s: Scene)
    requires width > 0 && height > 0 && |draws| >= 2 && Unique(width, height, draws)
    ensures Inv(s)
    ensures s.grid.height == height && s.grid.width == width && s.path == []
    ensures s.goal != s.robot && InGrid(s.grid, s.goal)
    ensures s.goal == CellOf(width, draws[0]) && s.robot == CellOf(width, draws[1])
    ensures forall d :: IsObstacle(s.grid, d) <==> exists i :: 2 <= i < |draws| && d == CellOf(width, draws[i])
  {
    var cells := Drawn(width, draws[2..]);
    DrawnCells(width, height, draws);
    Scene(AddAll(Grid(height, width, []), cells), CellOf(width, draws[1]), CellOf(width, draws[0]), [])
  }

  /** The cells some draws name, in order. */
  function Drawn(width: int, draws: seq<int>): (cells: seq<Coord>)
    requires width > 0
    ensures |cells| == |draws|
    ensures forall i :: 0 <= i < |draws| ==> cells[i] == CellOf(width, draws[i])
  {
    seq(|draws|, i requires 0 <= i < |draws| => CellOf(width, draws[i]))
  }

  /** The obstacle draws name exactly the cells placed, and the goal and the
      robot draws name distinct cells of the grid, neither among them. */
  lemma DrawnCells(width: int, height: int, draws: seq<int>)
    requires width > 0 && height > 0 && |draws| >= 2 && Unique(width, height, draws)
    ensures forall d :: d in Drawn(width, draws[2..]) <==> exists i :: 2 <= i < |draws| && d == CellOf(width, draws[i])
    ensures CellOf(width, draws[0]) !in Drawn(width, draws[2..]) && CellOf(width, draws[1]) !in Drawn(width, draws[2..])
    ensures CellOf(width, draws[0]) != CellOf(width, draws[1])
    ensures InGrid(Grid(height, width, []), CellOf(width, draws[0])) && InGrid(Grid(height, width, []), CellOf(width, draws[1]))
  {
    var cells := Drawn(width, draws[2..]);
    CellOfInGrid(width, height, draws[0]);
    CellOfInGrid(width, height, draws[1]);
    forall d | d in cells
      ensures exists i :: 2 <= i < |draws| && d == CellOf(width, draws[i])
    {
      var k :| 0 <= k < |cells| && cells[k] == d;
      assert d == CellOf(width, draws[k + 2]);
    }
    forall d | exists i :: 2 <= i < |draws| && d == CellOf(width, draws[i])
      ensures d in cells
    {
      var i :| 2 <= i < |draws| && d == CellOf(width, draws[i]);
      assert cells[i - 2] == d;
    }
  }

  /** One step by the offset delta, taken only when the target is inside the
      grid and not an obstacle; otherwise the scene is unchanged. */
  function Move(s: Scene, delta: Coord): (r: Scene)
    ensures var target := Add(s.robot, delta);
      r.robot == (if Free(Occupancy(s.grid), target) then target else s.robot)
    ensures r.grid == s.grid && r.goal == s.goal && r.path == s.path
    ensures Inv(s) ==> Inv(r)
  {
    var target := Coord(s.robot.row + delta.row, s.robot.col + delta.col);
    if !IsObstacle(s.grid, target) && 0 <= target.row < s.grid.height && 0 <= target.col < s.grid.width
    then s.(robot := target)
    else s
  }

  /** The four key commands: up, down, left and right by one cell. */
  function Command(s: Scene, d: Dir): (r: Scene)
    ensures Manhattan(s.robot, r.robot) <= 1
    ensures r.robot != s.robot <==> Free(Occupancy(s.grid), Step(s.robot, d))
    ensures r.robot != s.robot ==> DirTo(s.robot, r.robot) == d
    ensures r.grid == s.grid && r.goal == s.goal && r.path == s.path
    ensures Moves(s.grid, s.robot, d, r.robot)
  {
    StepIsAdjacent(s.robot, d);
    Move(s, Delta(d))
  }

  /** The commands one step of a path emits, in the order of tests of gui/gui.py:
      right, left, down, up. A unit step emits exactly one. */
  function StepCommands(a: Coord, b: Coord): (r: seq<Dir>)
    ensures a == b ==> r == []
    ensures Adjacent(a, b) ==> r == [DirTo(a, b)]
    ensures |r| <= 2
  {
    (if b.col > a.col then [Right] else [])
    + (if b.col < a.col then [Left] else [])
    + (if b.row > a.row then [Down] else [])
    + (if b.row < a.row then [Up] else [])
  }

  /** The commands of every step of a path, first step first. */
  function Commands(path: seq<Coord>): (r: seq<Dir>)
    ensures |path| <= 1 ==> r == []
    ensures |path| >= 1 ==> |r| <= 2 * (|path| - 1)
    decreases |path|
  {
    if |path| < 2 then [] else StepCommands(path[0], path[1]) + Commands(path[1..])
  }

  /** Along a chain of unit steps, there is one command per step and it is
      the direction of that step. */
  lemma {:induction false} CommandsOfChain(path: seq<Coord>)
    requires Chain(path)
    ensures |Commands(path)| == if |path| == 0 then 0 else |path| - 1
    ensures forall i :: 0 <= i < |path| - 1 ==> Step(path[i], Commands(path)[i]) == path[i + 1]
    decreases |path|
  {
    if |path| >= 2 {
      var rest := path[1..];
      assert Chain(rest) by {
        forall i | 0 <= i < |rest| - 1
          ensures Adjacent(rest[i], rest[i + 1])
        {
          assert rest[i] == path[i + 1] && rest[i + 1] == path[i + 2];
        }
      }
      CommandsOfChain(rest);
      assert Adjacent(path[0], path[1]);
      assert StepCommands(path[0], path[1]) == [DirTo(path[0], path[1])];
      forall i | 0 <= i < |path| - 1
        ensures Step(path[i], Commands(path)[i]) == path[i + 1]
      {
        if i > 0 {
          assert Commands(path)[i] == Commands(rest)[i - 1];
          assert rest[i - 1] == path[i] && rest[i] == path[i + 1];
        }
      }
    }
  }

  /** What the autopilot does with a command stack: take the last command
      and carry it out, until none is left. The result is the robot's cell
      after each command, in order. */
  function Autopilot(s: Scene, stack: seq<Dir>): (trail: seq<Coord>)
    ensures |trail| == |stack|
    ensures forall i :: 0 <= i < |trail| ==>
      Moves(s.grid, ([s.robot] + trail)[i], stack[|stack| - 1 - i], trail[i])
    decreases |stack|
  {
    if stack == [] then []
    else
      var next := Command(s, stack[|stack| - 1]);
      var rest := Autopilot(next, stack[..|stack| - 1]);
      MovesCons(s.grid, s.robot, next.robot, stack, rest);
      [next.robot] + rest
  }

  /** A key command from here in direction d ends at there: one cell that
      way when that cell is free, otherwise where it started. */
  predicate Moves(g: Grid, here: Coord, d: Dir, there: Coord) {
    there == if Free(Occupancy(g), Step(here, d)) then Step(here, d) else here
  }

  /** A command moves the robot at most one cell, and when it moves, it
      moves in the commanded direction. */
  lemma MovesAtMostOne(g: Grid, here: Coord, d: Dir, there: Coord)
    requires Moves(g, here, d, there)
    ensures Manhattan(here, there) <= 1
    ensures there != here ==> Adjacent(here, there) && DirTo(here, there) == d
  {
    StepIsAdjacent(here, d);
  }

  /** One command in front of a followed stack gives a followed stack. */
  lemma MovesCons(g: Grid, here: Coord, there: Coord, stack: seq<Dir>, rest: seq<Coord>)
    requires |stack| > 0 && |rest| == |stack| - 1
    requires Moves(g, here, stack[|stack| - 1], there)
    requires forall i :: 0 <= i < |rest| ==>
      Moves(g, ([there] + rest)[i], stack[..|stack| - 1][|stack| - 2 - i], rest[i])
    ensures forall i :: 0 <= i < |rest| + 1 ==>
      Moves(g, ([here] + ([there] + rest))[i], stack[|stack| - 1 - i], ([there] + rest)[i])
  {
    forall i | 0 <= i < |rest| + 1
      ensures Moves(g, ([here] + ([there] + rest))[i], stack[|stack| - 1 - i], ([there] + rest)[i])
    {
      if i > 0 {
        assert ([here] + ([there] + rest))[i] == ([there] + rest)[i - 1];
        assert ([there] + rest)[i] == rest[i - 1];
        assert stack[|stack| - 1 - i] == stack[..|stack| - 1][|stack| - 2 - (i - 1)];
      }
    }
  }

  /** Starting on the first cell of a walk through the scene's free cells,
      the autopilot retraces the walk: the reversed command list takes the
      robot through every later cell, in order. */
  lemma {:induction false} ReplayRetraces(s: Scene, path: seq<Coord>)
    requires |path| > 0 && s.robot == path[0]
    requires IsWalk(Occupancy(s.grid), path)
    ensures Autopilot(s, Reverse(Commands(path))) == path[1..]
    decreases |path|
  {
    if |path| >= 2 {
      var m := Occupancy(s.grid);
      var rest := path[1..];
      WalkTail(m, path);
      LastCommandFirst(path);
      var stack := Reverse(Commands(path));
      var next := Command(s, stack[|stack| - 1]);
      CommandAlongStep(s, path[1]);
      ReplayRetraces(next, rest);
      assert Autopilot(s, stack) == [path[1]] + Autopilot(next, stack[..|stack| - 1]);
    }
  }

  /** The command toward a free adjacent cell takes the robot there. */
  lemma CommandAlongStep(s: Scene, c: Coord)
    requires Adjacent(s.robot, c) && Free(Occupancy(s.grid), c)
    ensures Command(s, DirTo(s.robot, c)).robot == c
  {
    assert Step(s.robot, DirTo(s.robot, c)) == c;
  }

  /** The last command of the reversed list is the first step's, and the
      commands below it are the rest of the route's, reversed. */
  lemma LastCommandFirst(path: seq<Coord>)
    requires |path| >= 2 && Adjacent(path[0], path[1])
    ensures var stack := Reverse(Commands(path));
      && |stack| > 0 && stack[|stack| - 1] == DirTo(path[0], path[1])
      && stack[..|stack| - 1] == Reverse(Commands(path[1..]))
  {
    var d := DirTo(path[0], path[1]);
    assert StepCommands(path[0], path[1]) == [d];
    var cmds := Commands(path);
    assert cmds == [d] + Commands(path[1..]);
    var stack := Reverse(cmds);
    assert stack[..|stack| - 1] == Reverse(Commands(path[1..]));
  }

  /** Runs the cost-aware search from the robot to the goal on the current
      grid, shows the route it finds, and returns its commands reversed, so
      that taking from the end gives the first move. An empty or one-cell
      route gives no commands. */
  method GetInstructions(s: Scene) returns (r: Scene, stack: seq<Dir>)
    requires Inv(s)
    ensures r.grid == s.grid && r.robot == s.robot && r.goal == s.goal
    ensures |r.path| <= 1 ==> stack == []
    ensures r.path != [] <==> Discoverable(Occupancy(s.grid), s.robot, s.goal)
    ensures r.path != [] ==> WalkFromTo(Occupancy(s.grid), r.path, s.robot, s.goal)
    ensures r.path != [] ==> |stack| == |r.path| - 1 && Autopilot(s, stack) == r.path[1..]
  {
    var path := AStar.AStar(Occupancy(s.grid), s.robot, s.goal);
    r := s.(path := path);
    stack := Reverse(Commands(path));
    if path != [] {
      ReplayRetraces(s, path);
    }
  }

  /** A click on an obstacle clears it; a click elsewhere places one, except
      on the robot or the goal. */
  function ToggleObstacle(s: Scene, p: Point): (r: Scene)
    ensures r.robot == s.robot && r.goal == s.goal && r.path == s.path
    ensures r.grid.height == s.grid.height && r.grid.width == s.grid.width
    ensures forall d :: d != CellAt(p) ==> (IsObstacle(r.grid, d) <==> IsObstacle(s.grid, d))
    ensures !IsObstacle(s.grid, CellAt(p)) ==>
      (IsObstacle(r.grid, CellAt(p)) <==> CellAt(p) != s.robot && CellAt(p) != s.goal)
    ensures IsObstacle(s.grid, CellAt(p)) && NoDup(s.grid.obstacles) ==> !IsObstacle(r.grid, CellAt(p))
    ensures Inv(s) ==> Inv(r)
  {
    var c := CellAt(p);
    if IsObstacle(s.grid, c) then s.(grid := RemoveObstacle(s.grid, c))
    else if c != s.robot && c != s.goal then s.(grid := AddObstacle(s.grid, c))
    else s
  }

  /** A click moves the goal to any cell that is not an obstacle, inside the
      grid or not. */
  function SetEndGoal(s: Scene, p: Point): (r: Scene)
    ensures r.grid == s.grid && r.robot == s.robot && r.path == s.path
    ensures r.goal == (if IsObstacle(s.grid, CellAt(p)) then s.goal else CellAt(p))
    ensures Inv(s) ==> Inv(r)
  {
    var c := CellAt(p);
    if !IsObstacle(s.grid, c) then s.(goal := c) else s
  }

  /** Hides the shown route and changes nothing else. */
  function ClearPath(s: Scene): (r: Scene)
    ensures r.path == [] && r.grid == s.grid && r.robot == s.robot && r.goal == s.goal
    ensures Inv(s) ==> Inv(r)
  {
    s.(path := [])
  }
}
