# Grid route search for a robot simulator, in Dafny

This project models the core of a small robot simulator:

- **The route search.** It finds a route between two cells of a 0/1 maze, moving only up, down, left and right and never onto a cell holding 1.
- **The obstacle grid.** The search reads this grid.
- **The scene.** It moves the robot, converts a route into key commands for the autopilot, and edits obstacles and the goal on mouse clicks.

The repository has two copies of the search.

- `a_star` in grid/a_star.py ranks its frontier by steps taken so far plus the Manhattan distance left to the goal.
- `djikstra` in solution.py ranks it by the Manhattan distance alone. This makes it a greedy best-first search, whatever its name says.

Apart from that ranking, the two share every line of the traversal:

- a distance table starting at 0 for the start cell;
- relaxation of each neighbour of a popped cell;
- a visited set, written when a cell is pushed;
- an exit as soon as the goal turns up as a neighbour;
- a backwards walk over the table to recover the route.

So the model has one search, `Search.Run`, with a `Strategy` parameter, and two thin instances: `AStar.AStar` and `Solution.Djikstra`.

Modules:

| module | what it holds |
|---|---|
| `Coords` | cells in [row, col] order, the four moves, Manhattan distance |
| `Mazes` | the maze, its free cells, the neighbour enumeration, walks, reachability |
| `Distance` | the distance table, with infinity for unreached cells |
| `Frontier` | the frontier as a multiset of weighted entries; popping takes any least entry |
| `Search` | relaxation, the backwards walk, the frontier loop and its invariants |
| `AStar`, `Solution`, `Optional` | the two search functions and the example run in solution.py |
| `Grids` | grid/grid.py: the obstacle list and its 0/1 projection |
| `Scenes` | gui/gui.py's `Scene`: moves, key commands, autopilot replay, clicks |

Choices that shape the model:

- **Ties in the frontier.** The heap in grid/a_star.py and solution.py decides ties by its internal order. Here a pop may return any entry of least priority, so every property below holds however ties are broken.
- **The start cell.** Both searches require the start cell to be in bounds and free. Every scene keeps its robot inside the grid and off obstacles, so the scene's own call always meets this requirement. What the program does with other start cells is listed under "Left out".
- **The goal.** The goal may be any cell. A blocked or out-of-range goal gives an empty result.
- **Completeness.** It is stated through `Mazes.Discoverable`: some cell reachable from the start has the goal as a free neighbour. This is exactly when the search's exit fires.
  - For a goal other than the start, this means the goal is reachable (`Mazes.DiscoverableIffReachable`).
  - For a goal equal to the start, it means the start has a free neighbour. Otherwise the program returns an empty route even for this trivial goal.
- **`djikstra`'s failure result.** `djikstra` returns `None` on failure, while its docstring promises an empty list. The model follows the code and returns `Option.None`.
- **Shortness.** The docstrings of both searches promise a shortest route (grid/a_star.py:39-42, solution.py:45-47). The cost-aware search, however, closes a cell when it is first pushed and stops as soon as the goal is pushed, so a route can come out longer than the shortest one, depending on ties. What is proved instead:
  - Every route is a valid walk.
  - Its length is at least the Manhattan distance between start and goal and has the same parity.
  - Its length is at most the table value at the goal.
  - For the cost-aware search on a maze without obstacles, its length equals the Manhattan distance.
- **The example run in solution.py.** Its shortest route has 7 moves, and every route between those corners has an odd number of moves, so no route of 8 moves exists (`Solution.ExampleShortest`, `Solution.Example`).

## Model

| member | source | states |
|---|---|---|
| Frontier.ComparisonsAgree | grid/a_star.py:18-31 | the negation-based greater-than and greater-or-equal are the converses of less-than and less-or-equal, the order is total, and entry equality looks at the coordinate only. No other member uses it: it shows that modelling the heap by the one order Frontier.PopMin uses loses nothing |
| Frontier.PopMin | grid/a_star.py:93 | the popped entry has a priority no larger than any other entry's, and the rest of the frontier is what remains after taking it out |
| Coords.Manhattan | grid/a_star.py:68-70 | the distance is zero exactly for equal cells and is at least the difference in each axis; with Coords.ManhattanSymmetric, Coords.ManhattanTriangle and Coords.AdjacentIsUnitDistance it is a metric under which one move changes the distance by one |
| Mazes.Neighbours | grid/a_star.py:53-66 | a cell is listed exactly when it is in bounds, holds no 1, and is one unit away in one axis; at most four are listed |
| Mazes.NeighbourOrder | grid/a_star.py:59-65 | neighbours come in the order up, down, left, right, so none is listed twice. No other member uses it: it pins the order that Search.FirstMin's first-of-equals choice depends on |
| Mazes.NeighbourSymmetric | grid/a_star.py:53-66 | a free cell is a neighbour of each of its neighbours |
| Mazes.ChainLength | grid/a_star.py:39-42 | a route of unit moves is at least as long as the Manhattan distance between its ends, with the same parity |
| Mazes.ReverseWalk | grid/a_star.py:115 | reversing the backwards walk gives a walk through the same free cells |
| Mazes.DiscoverableIffReachable | grid/a_star.py:92-118 | for a goal other than the start, the exit condition can fire exactly when the goal is reachable from the start through free cells |
| Mazes.DiscoverableSelfIffNeighbour | grid/a_star.py:97-115 | when the goal is the start, the exit condition can fire exactly when the start has a free neighbour |
| Mazes.NotFreeNotDiscoverable | grid/a_star.py:114 | a blocked or out-of-range goal never turns up as a neighbour |
| Mazes.OpenDiscoverable | grid/a_star.py:92-118 | without obstacles, any in-bounds goal other than the start turns up as a neighbour |
| Distance.MinDist | grid/a_star.py:99-101 | the relaxed value is one of the two candidates and is below neither |
| Distance.Update | grid/a_star.py:99-101 | writing an entry sets that cell and leaves every other cell and the table's shape as they were |
| Distance.Unreached | grid/a_star.py:51 | the starting table has one row per maze row and one entry per column, every entry infinite (solution.py:49 is the same line) |
| Search.Priority | grid/a_star.py:104-108 | a pushed entry's priority is never below the cell's distance to the goal, is at most the steps taken when the cell is the goal, and for the heuristic-only ranking (solution.py:102) does not depend on the steps |
| Search.PriorityAdmissible | grid/a_star.py:104-108 | a cell reached in no fewer steps than its distance from the start gets a cost-aware priority no smaller than the start-to-goal distance, and exactly that distance when it lies on a shortest straight route. No other member uses it: it explains why, on an open maze, the least queued priority stays at the start-to-goal distance, which Search.LowEntryExists proves directly |
| Search.Relax | grid/a_star.py:99-101 | only the neighbour's entry can change; it becomes no larger than its old value and no larger than the current cell's entry plus one, and equals one of the two (solution.py:97-99 is the same write); Search.Visit is stated in terms of it |
| Search.RelaxKeepsConsistent | grid/a_star.py:85-101 | relaxing a neighbour of a free cell only lowers entries and leaves it at most one beyond the current cell; afterwards every reached cell other than the start still has a free neighbour with a strictly smaller entry, and no entry is below the Manhattan distance from the start |
| Search.FirstMin | grid/a_star.py:77-80 | the chosen neighbour has the least table value, and every neighbour before it has a strictly larger value, as Python's min keeps the first of equals |
| Search.FirstMinDescends | grid/a_star.py:75-81 | away from the start, the chosen neighbour is strictly closer than the current cell, so the backwards walk descends |
| Search.Backtrack | grid/a_star.py:72-82 | from a reached free cell, the backwards walk ends at the start, moves only between free adjacent cells, and has no more moves than the cell's table value |
| Search.Visit | grid/a_star.py:97-111 | the table entry of the neighbour is relaxed and the neighbour is marked visited; an already visited neighbour leaves the frontier as it was; otherwise exactly one entry is pushed, the neighbour with its relaxed value (cost-aware) or zero (heuristic-only) plus its Manhattan distance to the goal |
| Search.Expand | grid/a_star.py:95-115 | expanding a popped cell either meets the goal, with the goal reached and discoverable, or leaves every neighbour visited and the loop invariant restored |
| Search.Explore | grid/a_star.py:84-118 | the loop terminates, by the measure cells-in-the-maze plus one minus pops that its invariant keeps non-negative; it meets the goal exactly when the goal is discoverable; the final table is consistent; for the cost-aware strategy, without obstacles the goal's entry is the Manhattan distance. The pop and push counts it returns are tallies kept by the loop body; that a cell is pushed only when first visited is Search.Visit's contract |
| Search.Run | grid/a_star.py:72-118 | the final table is consistent; a route is returned exactly when the goal is discoverable; it runs from start to goal through free adjacent cells; it is no longer than the goal's table value and not shorter than the Manhattan distance, with the same parity; for the cost-aware strategy, without obstacles it is exactly that distance |
| AStar.AStar | grid/a_star.py:38-118 | the route is non-empty exactly when the goal is discoverable (for a goal other than the start, reachable); it is a walk from start to goal with the length floor and parity; a blocked goal gives the empty list; on an open maze it is a shortest route |
| Solution.Djikstra | solution.py:39-112 | the result is Some exactly when the goal is discoverable and None otherwise, including for a blocked goal; a Some route is a walk from start to goal with the length floor and parity |
| Solution.ExampleShortest | solution.py:115-122 | the example maze has a seven-move walk from (0,0) to (4,3), equal to the Manhattan distance, so no route is shorter |
| Solution.Example | solution.py:115-122 | the example run finds a walk from (0,0) to (4,3) with an odd number of moves, at least seven |
| Grids.AddObstacle | grid/grid.py:33-38 | afterwards the cell is an obstacle, no other cell changes, a listed cell leaves the grid as it was, and no duplicate is introduced |
| Grids.AddIdempotent | grid/grid.py:33-38 | adding the same cell twice is adding it once. No other member uses it: it is the partner of the membership guard in Grids.AddObstacle |
| Grids.FirstIndex | grid/grid.py:44-45 | the position found holds the cell and no earlier position does |
| Grids.RemoveFirst | grid/grid.py:40-45 | the list loses its first occurrence of the cell, at the first position holding it, and keeps every other element in order; a list without the cell is returned unchanged |
| Grids.RemoveKeepsOthers | grid/grid.py:40-45 | removing a cell leaves every other cell's membership as it was |
| Grids.RemoveNoDup | grid/grid.py:40-45 | from a list without duplicates, removal leaves the cell absent and adds no duplicate |
| Grids.RemoveObstacle | grid/grid.py:40-45 | the first listed copy of the cell is cut out and the rest keeps its order; the obstacle bag loses one copy of the cell; no other cell changes; an absent cell leaves the grid as it was; with no duplicates the cell is no longer an obstacle |
| Grids.Occupancy | grid/grid.py:47-52 | height rows of width entries, each 0 or 1, 1 exactly for listed cells; a cell is free for the search exactly when it is in the grid and not an obstacle |
| Grids.IsObstacle | grid/grid.py:27-31 | a cell is an obstacle exactly when some position of the list holds it; in a list without duplicates it is then held by exactly one position |
| Scenes.CellOf | gui/gui.py:48-53 | the cell is the draw split into row and column: width times row plus column gives the draw back, the column lies in 0 to width minus 1, and a non-negative draw gives a non-negative row |
| Scenes.CellOfInGrid | gui/gui.py:47-53 | every draw from 0 to width times height minus 1 names a cell of the grid |
| Scenes.CellOfInjective | gui/gui.py:50-53 | different draws name different cells, so the picker's rejection of used cells is a rejection of used draws. No other member uses it: it justifies stating Scenes.NewScene's precondition over cells of draws |
| Scenes.AddAll | gui/gui.py:36-40 | after placing a list of cells, the obstacles are the old ones plus those cells, still without duplicates |
| Scenes.NewScene | gui/gui.py:24-45 | a new scene keeps the scene invariant, places the goal at the first draw's cell and the robot at the second's, on distinct cells of the grid, shows no path, and has as obstacles exactly the cells of the remaining draws |
| Scenes.Move | gui/gui.py:61-68 | the robot moves by the offset exactly when the target is free in the grid's 0/1 projection, and nothing else changes; the scene invariant is kept |
| Scenes.Command | gui/gui.py:70-80 | a key command moves the robot at most one cell, moves it exactly when the cell in that direction is free, and then in that direction |
| Scenes.StepCommands | gui/gui.py:90-99 | a step that stays put emits no command, a unit step emits exactly the command for its direction, and no step emits more than two |
| Scenes.Commands | gui/gui.py:90-99 | a route of at most one cell gives no commands, and a longer route at most two per move |
| Scenes.CommandsOfChain | gui/gui.py:89-99 | for a route of unit steps, one command is emitted per step, and each command leads from a cell to the next |
| Scenes.ReplayRetraces | gui/gui.py:82-100 | taking the reversed commands from the end, as the autopilot does, moves a robot standing at the route's first cell through every later cell of the route, in order |
| Scenes.Autopilot | gui/gui.py:211-215 | one cell per popped command; each pop, from the robot's current cell, moves one cell in the popped direction when that cell is free in the grid's projection and otherwise leaves the robot where it is |
| Scenes.MovesAtMostOne | gui/gui.py:61-80 | a command moves the robot at most one cell, and when it moves it goes to an adjacent cell in the commanded direction. No other member uses it: it reads each step of Scenes.Autopilot's contract, stated through Moves, as a one-cell move |
| Scenes.GetInstructions | gui/gui.py:82-100 | the shown route is the search result from robot to goal; an empty or one-cell route gives no commands; otherwise there is one command per move and replaying them retraces the route |
| Scenes.ToggleObstacle | gui/gui.py:102-111 | after the swap to [row, col], an obstacle is cleared, a free cell becomes an obstacle unless it holds the robot or the goal, no other cell changes, and the scene invariant is kept |
| Scenes.SetEndGoal | gui/gui.py:113-120 | after the swap to [row, col], the goal moves to the cell exactly when it is not an obstacle, without a bounds check; the scene invariant is kept |
| Scenes.ClearPath | gui/gui.py:122-123 | the shown route is emptied and nothing else changes |

## Left out

- Tie order of the heap: which of several least entries is popped is left open, so the model is nondeterministic there. The program never writes the maze (a Dafny value cannot be written at all), but "equal inputs give equal outputs" is not stated, because it depends on that order.
- Search.Run: the cost-aware search is claimed shortest only on mazes without obstacles. grid/a_star.py closes a cell at push time and exits when the goal is first pushed, so its result can depend on the heap's tie order, and no general shortness is proved.
- Solution.Djikstra: no shortness is claimed. The heuristic-only ranking is a greedy best-first search.
- AStar.AStar: a start cell that is blocked or out of range is excluded, so the program's behaviour there is not modelled. For a blocked start (the goal equal to the start included), `a_star` returns the empty list when the goal never turns up as a neighbour. When it does turn up, the backwards walk (grid/a_star.py:72-82) never reaches the blocked start. It then loops forever, or raises ValueError from min of an empty list when the goal has no free neighbour. A start row of at least len(maze), or a column of at least len(maze[0]), raises IndexError at grid/a_star.py:85. A start row below -len(maze), or a column below -len(maze[0]), also raises IndexError at grid/a_star.py:85. A start row or column from -len to -1 is a phantom cell: get_neighbors (grid/a_star.py:59-65) treats it as lying just outside the maze, while its maze and weights lookups alias the last row or column.
- Solution.Djikstra: the same start cells are excluded, with the same outcomes in `djikstra`, except that the undiscovered case returns None. It has the same backwards walk (solution.py:70-80) and the same table write (solution.py:83).
- Search.Run: the same start cells are excluded; both searches above are instances of it.
- Distance.Lookup: cells outside the table read as unreached. The program never looks outside the maze.
- Scenes.NewScene: the random picker is a parameter (the accepted draws), and a non-positive size is excluded. The picker's rejection loop has no termination guarantee, and the number of obstacles a rate asks for (a float product truncated to an integer) is left to the number of draws.
- Rendering and input: the pygame `GUI` class, gridDisplay.py and the keyboard and mouse wiring are presentation and I/O, and are not modelled. The root gui.py is a stale duplicate of the scene and is not modelled. main.py only starts the GUI and is not modelled.
