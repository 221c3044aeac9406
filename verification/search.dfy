/** The traversal both searches share (grid/a_star.py and solution.py):
    a distance table relaxed from each popped cell, a visited set written
    when a cell is pushed, an early exit as soon as the goal shows up as a
    neighbour, and a backwards walk over the distance table to recover the
    route. Only the frontier priority differs, and it is a parameter here. */
module Search {
  import opened Coords
  import opened Mazes
  import opened Distance
  import opened Frontier

  /** How a newly discovered cell is ranked in the frontier. */
  datatype Strategy =
    | CostAware      // grid/a_star.py: steps so far plus Manhattan distance to the goal
    | HeuristicOnly  // solution.py: Manhattan distance to the goal alone

  /** The priority a cell is pushed with, given its table value at push time. */
  function Priority(s: Strategy, steps: nat, c: Coord, end: Coord): (p: nat)
    ensures Manhattan(c, end) <= p
    ensures c == end ==> p <= steps
    ensures s == HeuristicOnly ==> p == Priority(s, 0, c, end)
  {
    match s
    case CostAware => steps + Manhattan(c, end)
    case HeuristicOnly => Manhattan(c, end)
  }

  /** A cell reached in no fewer steps than its distance from the start is
      pushed with a cost-aware priority no smaller than the start's distance
      to the goal, and exactly that on a cell of a shortest straight route. */
  lemma PriorityAdmissible(start: Coord, steps: nat, c: Coord, end: Coord)
    requires Manhattan(start, c) <= steps
    ensures Manhattan(start, end) <= Priority(CostAware, steps, c, end)
    ensures steps == Manhattan(start, c) && Manhattan(start, c) + Manhattan(c, end) == Manhattan(start, end) ==>
      Priority(CostAware, steps, c, end) == Manhattan(start, end)
  {
    ManhattanTriangle(start, c, end);
  }

  predicate Fits(m: Maze, t: Table) {
    Shaped(t, Height(m), Width(m))
  }

  /** A reached cell other than the start is at least one step away and has a
      free neighbour with a strictly smaller entry; no entry is below the
      Manhattan distance from the start. */
  ghost predicate Supported(m: Maze, t: Table, start: Coord, c: Coord)
    requires Rectangular(m) && Fits(m, t) && InBounds(m, c)
  {
    && (Lookup(t, c).Fin? ==> Lookup(t, c).n >= Manhattan(start, c))
    && (Lookup(t, c).Fin? && c != start ==>
          Lookup(t, c).n >= 1 && exists n {:trigger n in Neighbours(m, c)} :: n in Neighbours(m, c) && Less(Lookup(t, n), Lookup(t, c)))
  }

  /** The distance-table invariant: the start holds 0 and every cell is supported. */
  ghost predicate Consistent(m: Maze, t: Table, start: Coord)
    requires Rectangular(m)
  {
    && Fits(m, t)
    && InBounds(m, start)
    && Lookup(t, start) == Fin(0)
    && forall c {:trigger Supported(m, t, start, c)} :: InBounds(m, c) ==> Supported(m, t, start, c)
  }

  /** The relaxation of one neighbour: its entry becomes the smaller of the
      current cell's entry plus one and its own. */
  function Relax(t: Table, cur: Coord, n: Coord): (r: Table)
    ensures forall d {:trigger Lookup(r, d)} :: d != n ==> Lookup(r, d) == Lookup(t, d)
    ensures InTable(t, n) ==> !Less(Lookup(t, n), Lookup(r, n)) && !Less(Succ(Lookup(t, cur)), Lookup(r, n))
    ensures InTable(t, n) ==> Lookup(r, n) == Lookup(t, n) || Lookup(r, n) == Succ(Lookup(t, cur))
  {
    Update(t, n, MinDist(Succ(Lookup(t, cur)), Lookup(t, n)))
  }

  /** Relaxing a neighbour of a free cell keeps the table consistent, only
      ever lowers entries, and leaves the neighbour no further than one step
      beyond the current cell. */
  lemma RelaxKeepsConsistent(m: Maze, t: Table, start: Coord, cur: Coord, n: Coord)
    requires Rectangular(m) && Consistent(m, t, start)
    requires Free(m, cur) && n in Neighbours(m, cur)
    ensures Consistent(m, Relax(t, cur, n), start)
    ensures forall c {:trigger Lookup(Relax(t, cur, n), c)} :: InBounds(m, c) ==> !Less(Lookup(t, c), Lookup(Relax(t, cur, n), c))
    ensures !Less(Succ(Lookup(t, cur)), Lookup(Relax(t, cur, n), n))
  {
    var r := Relax(t, cur, n);
    forall c | InBounds(m, c)
      ensures Supported(m, r, start, c)
    {
      RelaxKeepsSupport(m, t, start, cur, n, c);
    }
  }

  lemma RelaxKeepsSupport(m: Maze, t: Table, start: Coord, cur: Coord, n: Coord, c: Coord)
    requires Rectangular(m) && Consistent(m, t, start)
    requires Free(m, cur) && n in Neighbours(m, cur) && InBounds(m, c)
    ensures Supported(m, Relax(t, cur, n), start, c)
  {
    var r := Relax(t, cur, n);
    assert Supported(m, t, start, c);
    if c == n {
      NeighbourSymmetric(m, cur, n);
      AdjacentIsUnitDistance(cur, n);
      ManhattanTriangle(start, cur, n);
      assert Supported(m, t, start, cur);
    }
    if Lookup(r, c).Fin? && c != start {
      if c == n && Lookup(r, c) != Lookup(t, c) {
        assert cur in Neighbours(m, c) && Less(Lookup(r, cur), Lookup(r, c));
      } else {
        var s :| s in Neighbours(m, c) && Less(Lookup(t, s), Lookup(t, c));
        assert Less(Lookup(r, s), Lookup(r, c));
      }
    }
  }

  /** The index of the first cell of least table value, as Python's min with
      a key returns it: later cells replace the best so far only when
      strictly smaller. */
  function FirstMin(t: Table, cells: seq<Coord>): (i: nat)
    requires |cells| > 0
    ensures i < |cells|
    ensures forall j :: 0 <= j < |cells| ==> !Less(Lookup(t, cells[j]), Lookup(t, cells[i]))
    ensures forall j :: 0 <= j < i ==> Less(Lookup(t, cells[i]), Lookup(t, cells[j]))
  {
    if |cells| == 1 then 0
    else
      var i := FirstMin(t, cells[..|cells| - 1]);
      if Less(Lookup(t, cells[|cells| - 1]), Lookup(t, cells[i])) then |cells| - 1 else i
  }

  /** Away from the start, the first neighbour of least value is strictly
      closer than the cell itself, so the backwards walk always descends. */
  lemma FirstMinDescends(m: Maze, t: Table, start: Coord, cur: Coord)
    requires Rectangular(m) && Consistent(m, t, start)
    requires Free(m, cur) && Lookup(t, cur).Fin? && cur != start
    ensures |Neighbours(m, cur)| > 0
    ensures Less(Lookup(t, Neighbours(m, cur)[FirstMin(t, Neighbours(m, cur))]), Lookup(t, cur))
  {
    var nb := Neighbours(m, cur);
    assert Supported(m, t, start, cur);
    var s :| s in nb && Less(Lookup(t, s), Lookup(t, cur));
    var k :| 0 <= k < |nb| && nb[k] == s;
    var i := FirstMin(t, nb);
    assert !Less(Lookup(t, nb[k]), Lookup(t, nb[i]));
  }

  /** The route walked back from cur: each step moves to the first neighbour
      of least table value, until the start is reached. */
  function Backtrack(m: Maze, t: Table, start: Coord, cur: Coord): (r: seq<Coord>)
    requires Rectangular(m) && Consistent(m, t, start)
    requires Free(m, cur) && Lookup(t, cur).Fin?
    ensures |r| >= 1 && r[0] == cur && r[|r| - 1] == start
    ensures IsWalk(m, r)
    ensures |r| - 1 <= Lookup(t, cur).n
    decreases Lookup(t, cur).n
  {
    if cur == start then [cur]
    else
      FirstMinDescends(m, t, start, cur);
      var nb := Neighbours(m, cur);
      var next := nb[FirstMin(t, nb)];
      var rest := Backtrack(m, t, start, next);
      WalkCons(m, cur, rest);
      [cur] + rest
  }

  /** The mutable state of one search: the distance table, the frontier and
      the visited set. */
  datatype Frame = Frame(t: Table, frontier: Queue, visited: set<Coord>)

  /** The work done for one neighbour n of the expanded cell: relax its entry,
      then push it with its priority and mark it, unless it is marked already. */
  function Visit(strategy: Strategy, end: Coord, f: Frame, cur: Coord, n: Coord): (r: Frame)
    requires Lookup(f.t, cur).Fin?
    ensures r.t == Relax(f.t, cur, n)
    ensures r.visited == f.visited + {n}
    ensures n in f.visited ==> r.frontier == f.frontier
    ensures n !in f.visited && InTable(f.t, n) ==>
      && Lookup(r.t, n).Fin?
      && r.frontier == f.frontier + multiset{Entry(n, (if strategy == CostAware then Lookup(r.t, n).n else 0) + Manhattan(n, end))}
    ensures |r.frontier| + |f.visited| == |f.frontier| + |r.visited|
  {
    var d := MinDist(Succ(Lookup(f.t, cur)), Lookup(f.t, n));
    var t := Update(f.t, n, d);
    if n in f.visited then Frame(t, f.frontier, f.visited)
    else Frame(t, f.frontier + multiset{Entry(n, Priority(strategy, d.n, n, end))}, f.visited + {n})
  }

  /** What holds between two pops, for any strategy: the table is consistent,
      every visited cell is free, reached and reachable, every unvisited cell
      other than the start is unreached, the goal has not been seen, every
      frontier cell is the start or visited, and every neighbour of a popped
      cell is visited and is not the goal. */
  ghost predicate Invariant(m: Maze, start: Coord, end: Coord, f: Frame, popped: set<Coord>)
    requires Rectangular(m)
  {
    && Consistent(m, f.t, start)
    && Free(m, start)
    && (forall c {:trigger c in f.visited} :: c in f.visited ==>
          Free(m, c) && Lookup(f.t, c).Fin? && Reachable(m, start, c))
    && (forall c {:trigger Lookup(f.t, c)} :: InBounds(m, c) && c !in f.visited && c != start ==>
          Lookup(f.t, c) == Inf)
    && end !in f.visited
    && (forall e {:trigger f.frontier[e]} :: e in f.frontier ==> e.coord == start || e.coord in f.visited)
    && (forall p {:trigger p in popped} :: p in popped ==>
          && (p == start || p in f.visited)
          && forall n {:trigger n in Neighbours(m, p)} :: n in Neighbours(m, p) ==> n in f.visited && n != end)
  }

  /** Every frontier entry is reached, and its priority is what the strategy
      gave it: for the cost-aware search at least the cell's current entry
      plus its distance to the goal (entries only fall after a push), for the
      heuristic search exactly that distance. */
  ghost predicate Ranked(strategy: Strategy, end: Coord, f: Frame) {
    forall e {:trigger f.frontier[e]} :: e in f.frontier ==>
      && Lookup(f.t, e.coord).Fin?
      && (strategy == CostAware ==> e.priority >= Lookup(f.t, e.coord).n + Manhattan(e.coord, end))
      && (strategy == HeuristicOnly ==> e.priority == Manhattan(e.coord, end))
  }

  /** Every visited cell, and the start, is popped, being expanded, or waiting in the frontier. */
  ghost predicate Accounted(start: Coord, f: Frame, done: set<Coord>) {
    && (start in done || start in Cells(f.frontier))
    && forall c {:trigger c in f.visited} :: c in f.visited ==> c in done || c in Cells(f.frontier)
  }

  /** Each cell has been pushed once for being visited, and the start once more at the outset. */
  ghost predicate PushedOnce(start: Coord, visited: set<Coord>, pushes: multiset<Coord>) {
    forall c :: pushes[c] == (if c == start then 1 else 0) + (if c in visited then 1 else 0)
  }

  /** The case in which the cost-aware search is shortest: no obstacles, and
      a goal in bounds other than the start. */
  ghost predicate Open(strategy: Strategy, m: Maze, start: Coord, end: Coord)
    requires Rectangular(m)
  {
    strategy == CostAware && ObstacleFree(m) && InBounds(m, end) && start != end
  }

  /** In the open case: every expanded cell lies on a shortest route from
      start to goal and holds its exact distance from the start; the start is
      always queued with the start-to-goal distance; and every other entry
      was pushed by an expanded neighbour q, one step beyond q. */
  ghost predicate Straight(start: Coord, end: Coord, f: Frame, done: set<Coord>) {
    && (forall p {:trigger p in done} :: p in done ==>
          && Manhattan(start, p) + Manhattan(p, end) == Manhattan(start, end)
          && Lookup(f.t, p) == Fin(Manhattan(start, p)))
    && StraightQueue(start, end, f.frontier, done)
  }

  ghost predicate StraightQueue(start: Coord, end: Coord, q: Queue, done: set<Coord>) {
    forall e {:trigger q[e]} :: e in q ==>
      if e.coord == start then e.priority == Manhattan(start, end)
      else exists p {:trigger p in done} :: p in done && Adjacent(p, e.coord) &&
             e.priority == Manhattan(start, p) + 1 + Manhattan(e.coord, end)
  }

  /** The frontier loop's invariant. */
  ghost predicate Between(strategy: Strategy, m: Maze, start: Coord, end: Coord, f: Frame,
                          popped: set<Coord>, pushes: multiset<Coord>)
    requires Rectangular(m)
  {
    && Invariant(m, start, end, f, popped)
    && Ranked(strategy, end, f)
    && Accounted(start, f, popped)
    && f.visited <= AllCells(m)
    && PushedOnce(start, f.visited, pushes)
    && (Open(strategy, m, start, end) ==> Straight(start, end, f, popped))
  }

  /** The neighbour loop's invariant while cur is expanded and its first i
      neighbours are done. */
  ghost predicate Expanding(strategy: Strategy, m: Maze, start: Coord, end: Coord, cur: Coord, i: nat,
                            f: Frame, popped: set<Coord>, pushes: multiset<Coord>)
    requires Rectangular(m)
  {
    && Invariant(m, start, end, f, popped)
    && Ranked(strategy, end, f)
    && Accounted(start, f, popped + {cur})
    && f.visited <= AllCells(m)
    && PushedOnce(start, f.visited, pushes)
    && Free(m, cur) && Lookup(f.t, cur).Fin? && Reachable(m, start, cur)
    && (cur == start || cur in f.visited)
    && i <= |Neighbours(m, cur)|
    && (forall j :: 0 <= j < i ==> Neighbours(m, cur)[j] in f.visited && Neighbours(m, cur)[j] != end)
    && (Open(strategy, m, start, end) ==> Straight(start, end, f, popped + {cur}))
  }

  /** Visiting a neighbour only ever lowers table entries, and leaves the
      neighbour no further than one step beyond the expanded cell. */
  lemma VisitLowers(strategy: Strategy, m: Maze, start: Coord, end: Coord, f: Frame, cur: Coord, n: Coord)
    requires Rectangular(m) && Consistent(m, f.t, start)
    requires Free(m, cur) && Lookup(f.t, cur).Fin? && n in Neighbours(m, cur)
    ensures Consistent(m, Visit(strategy, end, f, cur, n).t, start)
    ensures forall c {:trigger Lookup(Visit(strategy, end, f, cur, n).t, c)} :: InBounds(m, c) ==>
      !Less(Lookup(f.t, c), Lookup(Visit(strategy, end, f, cur, n).t, c))
    ensures !Less(Succ(Lookup(f.t, cur)), Lookup(Visit(strategy, end, f, cur, n).t, n))
    ensures Lookup(f.t, n) == Inf ==> Lookup(Visit(strategy, end, f, cur, n).t, n) == Succ(Lookup(f.t, cur))
  {
    RelaxKeepsConsistent(m, f.t, start, cur, n);
  }

  lemma VisitKeepsInvariant(strategy: Strategy, m: Maze, start: Coord, end: Coord, f: Frame,
                            popped: set<Coord>, cur: Coord, n: Coord)
    requires Rectangular(m) && Invariant(m, start, end, f, popped)
    requires Free(m, cur) && Lookup(f.t, cur).Fin? && Reachable(m, start, cur)
    requires n in Neighbours(m, cur) && n != end
    ensures Invariant(m, start, end, Visit(strategy, end, f, cur, n), popped)
  {
    VisitLowers(strategy, m, start, end, f, cur, n);
    ReachableStep(m, start, cur, n);
  }

  lemma VisitKeepsRanked(strategy: Strategy, m: Maze, start: Coord, end: Coord, f: Frame,
                         popped: set<Coord>, cur: Coord, n: Coord)
    requires Rectangular(m) && Invariant(m, start, end, f, popped) && Ranked(strategy, end, f)
    requires Free(m, cur) && Lookup(f.t, cur).Fin? && n in Neighbours(m, cur)
    ensures Ranked(strategy, end, Visit(strategy, end, f, cur, n))
  {
    VisitLowers(strategy, m, start, end, f, cur, n);
  }

  lemma VisitKeepsAccounted(strategy: Strategy, start: Coord, end: Coord, f: Frame, done: set<Coord>,
                            cur: Coord, n: Coord)
    requires Accounted(start, f, done)
    requires Lookup(f.t, cur).Fin?
    ensures Accounted(start, Visit(strategy, end, f, cur, n), done)
  {
    var r := Visit(strategy, end, f, cur, n);
    if n !in f.visited {
      var e :| r.frontier == f.frontier + multiset{e} && e.coord == n;
      assert e in r.frontier;
      assert Cells(f.frontier) <= Cells(r.frontier);
    }
  }

  lemma VisitKeepsStraight(strategy: Strategy, m: Maze, start: Coord, end: Coord, f: Frame,
                           popped: set<Coord>, cur: Coord, n: Coord)
    requires Rectangular(m) && Consistent(m, f.t, start) && Open(strategy, m, start, end)
    requires Free(m, cur) && n in Neighbours(m, cur) && popped + {cur} <= AllCells(m)
    requires n != start && n !in f.visited ==> Lookup(f.t, n) == Inf
    requires Straight(start, end, f, popped + {cur})
    ensures Straight(start, end, Visit(strategy, end, f, cur, n), popped + {cur})
  {
    assert Lookup(f.t, cur) == Fin(Manhattan(start, cur));
    VisitKeepsExact(strategy, m, start, end, f, popped + {cur}, cur, n);
    VisitKeepsQueued(strategy, m, start, end, f, popped, cur, n);
  }

  /** Between pops, every expanded cell is in bounds, and an unvisited
      neighbour other than the start is unreached. */
  lemma InvariantAround(m: Maze, start: Coord, end: Coord, f: Frame, popped: set<Coord>, cur: Coord, n: Coord)
    requires Rectangular(m) && Invariant(m, start, end, f, popped)
    requires Free(m, cur) && n in Neighbours(m, cur)
    ensures popped + {cur} <= AllCells(m)
    ensures n != start && n !in f.visited ==> Lookup(f.t, n) == Inf
  {
  }

  /** Relaxing leaves the exact distances of expanded cells alone. */
  lemma VisitKeepsExact(strategy: Strategy, m: Maze, start: Coord, end: Coord, f: Frame,
                        done: set<Coord>, cur: Coord, n: Coord)
    requires Rectangular(m) && Consistent(m, f.t, start) && done <= AllCells(m)
    requires Free(m, cur) && Lookup(f.t, cur).Fin? && n in Neighbours(m, cur)
    requires forall p {:trigger p in done} :: p in done ==> Lookup(f.t, p) == Fin(Manhattan(start, p))
    ensures forall p {:trigger p in done} :: p in done ==>
      Lookup(Visit(strategy, end, f, cur, n).t, p) == Fin(Manhattan(start, p))
  {
    var r := Visit(strategy, end, f, cur, n);
    VisitLowers(strategy, m, start, end, f, cur, n);
    forall p | p in done
      ensures Lookup(r.t, p) == Fin(Manhattan(start, p))
    {
      assert Supported(m, r.t, start, p);
    }
  }

  /** The entry a visit pushes in the open case has the straight-route
      priority of a step from an expanded cell. */
  lemma VisitKeepsQueued(strategy: Strategy, m: Maze, start: Coord, end: Coord, f: Frame,
                         popped: set<Coord>, cur: Coord, n: Coord)
    requires Rectangular(m) && Consistent(m, f.t, start) && strategy == CostAware
    requires Free(m, cur) && n in Neighbours(m, cur) && Lookup(f.t, cur) == Fin(Manhattan(start, cur))
    requires n != start && n !in f.visited ==> Lookup(f.t, n) == Inf
    requires StraightQueue(start, end, f.frontier, popped + {cur})
    ensures StraightQueue(start, end, Visit(strategy, end, f, cur, n).frontier, popped + {cur})
  {
    var done := popped + {cur};
    var r := Visit(strategy, end, f, cur, n);
    if n !in f.visited {
      VisitLowers(strategy, m, start, end, f, cur, n);
      var e := Entry(n, Priority(strategy, Lookup(r.t, n).n, n, end));
      assert r.frontier == f.frontier + multiset{e};
      if n != start {
        assert cur in done && Adjacent(cur, n);
      }
    }
  }

  /** One pass of the neighbour loop for a neighbour other than the goal. */
  lemma ExpandStep(strategy: Strategy, m: Maze, start: Coord, end: Coord, cur: Coord, i: nat,
                   f: Frame, popped: set<Coord>, pushes: multiset<Coord>)
    requires Rectangular(m) && Expanding(strategy, m, start, end, cur, i, f, popped, pushes)
    requires i < |Neighbours(m, cur)| && Neighbours(m, cur)[i] != end
    ensures var n := Neighbours(m, cur)[i];
      Expanding(strategy, m, start, end, cur, i + 1, Visit(strategy, end, f, cur, n), popped,
                if n in f.visited then pushes else pushes + multiset{n})
  {
    var n := Neighbours(m, cur)[i];
    VisitKeepsInvariant(strategy, m, start, end, f, popped, cur, n);
    VisitKeepsRanked(strategy, m, start, end, f, popped, cur, n);
    VisitKeepsAccounted(strategy, start, end, f, popped + {cur}, cur, n);
    if Open(strategy, m, start, end) {
      InvariantAround(m, start, end, f, popped, cur, n);
      VisitKeepsStraight(strategy, m, start, end, f, popped, cur, n);
    }
    VisitKeepsProgress(strategy, m, start, end, cur, i, f, pushes);
  }

  /** The bookkeeping part of one pass: the visited set stays inside the
      maze, the push count follows it, the expanded cell stays reached, and
      one more neighbour is done. */
  lemma VisitKeepsProgress(strategy: Strategy, m: Maze, start: Coord, end: Coord, cur: Coord, i: nat,
                           f: Frame, pushes: multiset<Coord>)
    requires Rectangular(m) && InBounds(m, cur)
    requires f.visited <= AllCells(m) && PushedOnce(start, f.visited, pushes) && Lookup(f.t, cur).Fin?
    requires i < |Neighbours(m, cur)| && Neighbours(m, cur)[i] != end
    requires forall j :: 0 <= j < i ==> Neighbours(m, cur)[j] in f.visited && Neighbours(m, cur)[j] != end
    ensures var n := Neighbours(m, cur)[i];
      var r := Visit(strategy, end, f, cur, n);
      && r.visited <= AllCells(m)
      && PushedOnce(start, r.visited, if n in f.visited then pushes else pushes + multiset{n})
      && Lookup(r.t, cur).Fin?
      && (forall j :: 0 <= j < i + 1 ==> Neighbours(m, cur)[j] in r.visited && Neighbours(m, cur)[j] != end)
  {
    var n := Neighbours(m, cur)[i];
    assert n in Neighbours(m, cur);
    assert n in AllCells(m) && n != cur;
    var r := Visit(strategy, end, f, cur, n);
    assert r.visited == f.visited + {n};
    assert Lookup(r.t, cur) == Lookup(f.t, cur);
  }

  /** The pass of the neighbour loop that meets the goal: the goal was
      discoverable, its entry is now finite, and in the open case it holds
      exactly the start-to-goal distance. */
  lemma ExpandFound(strategy: Strategy, m: Maze, start: Coord, end: Coord, cur: Coord, i: nat,
                    f: Frame, popped: set<Coord>, pushes: multiset<Coord>)
    requires Rectangular(m) && Expanding(strategy, m, start, end, cur, i, f, popped, pushes)
    requires i < |Neighbours(m, cur)| && Neighbours(m, cur)[i] == end
    ensures var r := Visit(strategy, end, f, cur, end);
      && Consistent(m, r.t, start) && Free(m, end) && Lookup(r.t, end).Fin?
      && Discoverable(m, start, end)
      && (Open(strategy, m, start, end) ==> Lookup(r.t, end) == Fin(Manhattan(start, end)))
      && PushedOnce(start, r.visited, pushes + multiset{end})
  {
    assert end in Neighbours(m, cur);
    if Open(strategy, m, start, end) {
      assert cur in popped + {cur};
    }
    FoundGoal(strategy, m, start, end, cur, f, pushes);
  }

  /** The facts ExpandFound needs, from the expanded cell alone. */
  lemma FoundGoal(strategy: Strategy, m: Maze, start: Coord, end: Coord, cur: Coord,
                  f: Frame, pushes: multiset<Coord>)
    requires Rectangular(m) && Consistent(m, f.t, start)
    requires Free(m, cur) && Lookup(f.t, cur).Fin? && Reachable(m, start, cur)
    requires end in Neighbours(m, cur) && end !in f.visited && PushedOnce(start, f.visited, pushes)
    requires Open(strategy, m, start, end) ==>
      Lookup(f.t, cur) == Fin(Manhattan(start, cur)) && Manhattan(start, cur) + Manhattan(cur, end) == Manhattan(start, end)
    ensures var r := Visit(strategy, end, f, cur, end);
      && Consistent(m, r.t, start) && Free(m, end) && Lookup(r.t, end).Fin?
      && Discoverable(m, start, end)
      && (Open(strategy, m, start, end) ==> Lookup(r.t, end) == Fin(Manhattan(start, end)))
      && PushedOnce(start, r.visited, pushes + multiset{end})
  {
    var r := Visit(strategy, end, f, cur, end);
    VisitLowers(strategy, m, start, end, f, cur, end);
    if Open(strategy, m, start, end) {
      AdjacentIsUnitDistance(cur, end);
      assert Supported(m, r.t, start, end);
    }
  }

  /** Once every neighbour of cur is visited and none is the goal, cur counts as popped. */
  lemma InvariantClose(m: Maze, start: Coord, end: Coord, f: Frame, popped: set<Coord>, cur: Coord)
    requires Rectangular(m) && Invariant(m, start, end, f, popped)
    requires cur == start || cur in f.visited
    requires Free(m, cur) && forall n :: n in Neighbours(m, cur) ==> n in f.visited && n != end
    ensures Invariant(m, start, end, f, popped + {cur})
  {
  }

  /** When the neighbour loop runs out, the expanded cell joins the popped cells. */
  lemma ExpandEnd(strategy: Strategy, m: Maze, start: Coord, end: Coord, cur: Coord,
                  f: Frame, popped: set<Coord>, pushes: multiset<Coord>)
    requires Rectangular(m) && Free(m, cur)
    requires Expanding(strategy, m, start, end, cur, |Neighbours(m, cur)|, f, popped, pushes)
    ensures Between(strategy, m, start, end, f, popped + {cur}, pushes)
  {
    var nb := Neighbours(m, cur);
    forall n | n in nb
      ensures n in f.visited && n != end
    {
      var j :| 0 <= j < |nb| && nb[j] == n;
    }
    InvariantClose(m, start, end, f, popped, cur);
  }

  /** In the open case the frontier always holds an entry whose priority is
      the start-to-goal distance. Before the start is expanded that is the
      start's own entry; afterwards, the move towards the goal from the
      expanded cell farthest from the start leads to a visited cell that is
      not expanded, so still queued, and whose pusher was one step nearer
      the start. */
  lemma LowEntryExists(strategy: Strategy, m: Maze, start: Coord, end: Coord, f: Frame, popped: set<Coord>)
    requires Rectangular(m) && Open(strategy, m, start, end)
    requires Invariant(m, start, end, f, popped) && Accounted(start, f, popped)
    requires Straight(start, end, f, popped)
    ensures exists e :: e in f.frontier && e.priority == Manhattan(start, end)
  {
    assert StraightQueue(start, end, f.frontier, popped);
    if start !in popped {
      var e :| e in f.frontier && e.coord == start;
      assert e.priority == Manhattan(start, end);
    } else {
      FarthestExists(start, popped);
      var p :| p in popped && forall q :: q in popped ==> Manhattan(start, q) <= Manhattan(start, p);
      assert p != end;
      var y := Toward(p, end);
      TowardOnRoute(start, p, end);
      OnRouteInBounds(m, start, end, y);
      assert y in Neighbours(m, p);
      assert y in f.visited && y !in popped && y != start;
      var g :| g in f.frontier && g.coord == y;
      var q :| q in popped && Adjacent(q, y) && g.priority == Manhattan(start, q) + 1 + Manhattan(y, end);
      ManhattanStep(start, q, y);
      assert g.priority == Manhattan(start, end);
    }
  }

  /** The cell taken from the frontier is then expanded; in the open case it
      lies on a shortest route and holds its exact distance from the start. */
  lemma PopStep(strategy: Strategy, m: Maze, start: Coord, end: Coord, f: Frame,
                popped: set<Coord>, pushes: multiset<Coord>, x: Entry, rest: Queue)
    requires Rectangular(m) && Between(strategy, m, start, end, f, popped, pushes)
    requires IsMin(f.frontier, x) && rest + multiset{x} == f.frontier
    ensures Expanding(strategy, m, start, end, x.coord, 0, Frame(f.t, rest, f.visited), popped, pushes)
  {
    PopKeepsInvariant(strategy, m, start, end, f, popped, x, rest);
    PopAccounted(start, f, popped, x, rest);
    if Open(strategy, m, start, end) {
      PopOnRoute(strategy, m, start, end, f, popped, x);
      PopKeepsStraight(start, end, f, popped, x, rest);
    }
  }

  /** Taking an entry out keeps the invariant and the ranking, and the cell
      taken out is free, reached and reachable. */
  lemma PopKeepsInvariant(strategy: Strategy, m: Maze, start: Coord, end: Coord, f: Frame,
                          popped: set<Coord>, x: Entry, rest: Queue)
    requires Rectangular(m) && Invariant(m, start, end, f, popped) && Ranked(strategy, end, f)
    requires x in f.frontier && rest + multiset{x} == f.frontier
    ensures Invariant(m, start, end, Frame(f.t, rest, f.visited), popped)
    ensures Ranked(strategy, end, Frame(f.t, rest, f.visited))
    ensures Free(m, x.coord) && Lookup(f.t, x.coord).Fin? && Reachable(m, start, x.coord)
    ensures x.coord == start || x.coord in f.visited
  {
    assert forall e :: e in rest ==> e in f.frontier;
    if x.coord == start {
      ReachableSelf(m, start);
    }
  }

  /** Every visited cell still waiting, other than the one taken out, is still waiting. */
  lemma PopAccounted(start: Coord, f: Frame, popped: set<Coord>, x: Entry, rest: Queue)
    requires Accounted(start, f, popped) && rest + multiset{x} == f.frontier
    ensures Accounted(start, Frame(f.t, rest, f.visited), popped + {x.coord})
  {
    forall c | c == start || c in f.visited
      ensures c in popped + {x.coord} || c in Cells(rest)
    {
      if c !in popped && c != x.coord {
        var e :| e in f.frontier && e.coord == c;
        assert e in rest;
      }
    }
  }

  /** A cell taken out on a shortest route at its exact distance may join the expanded cells. */
  lemma PopKeepsStraight(start: Coord, end: Coord, f: Frame, popped: set<Coord>, x: Entry, rest: Queue)
    requires Straight(start, end, f, popped) && rest + multiset{x} == f.frontier
    requires Manhattan(start, x.coord) + Manhattan(x.coord, end) == Manhattan(start, end)
    requires Lookup(f.t, x.coord) == Fin(Manhattan(start, x.coord))
    ensures Straight(start, end, Frame(f.t, rest, f.visited), popped + {x.coord})
  {
    var done := popped + {x.coord};
    forall p | p in done
      ensures Manhattan(start, p) + Manhattan(p, end) == Manhattan(start, end)
      ensures Lookup(f.t, p) == Fin(Manhattan(start, p))
    {
      if p != x.coord {
        assert p in popped;
      }
    }
    forall e | e in rest
      ensures if e.coord == start then e.priority == Manhattan(start, end)
              else exists q {:trigger q in done} :: q in done && Adjacent(q, e.coord) &&
                     e.priority == Manhattan(start, q) + 1 + Manhattan(e.coord, end)
    {
      assert f.frontier[e] >= rest[e] > 0;
      if e.coord != start {
        var q :| q in popped && Adjacent(q, e.coord) && e.priority == Manhattan(start, q) + 1 + Manhattan(e.coord, end);
        assert q in done;
      }
    }
  }

  /** In the open case a least entry has the start-to-goal distance as its
      priority, so its cell is on a shortest route at its exact distance. */
  lemma PopOnRoute(strategy: Strategy, m: Maze, start: Coord, end: Coord, f: Frame,
                   popped: set<Coord>, x: Entry)
    requires Rectangular(m) && Open(strategy, m, start, end)
    requires Invariant(m, start, end, f, popped) && Accounted(start, f, popped)
    requires Ranked(strategy, end, f) && Straight(start, end, f, popped)
    requires IsMin(f.frontier, x)
    ensures Manhattan(start, x.coord) + Manhattan(x.coord, end) == Manhattan(start, end)
    ensures Lookup(f.t, x.coord) == Fin(Manhattan(start, x.coord))
  {
    LowEntryExists(strategy, m, start, end, f, popped);
    var e :| e in f.frontier && e.priority == Manhattan(start, end);
    assert Le(x, e);
    assert InBounds(m, x.coord);
    assert Supported(m, f.t, start, x.coord);
    ManhattanTriangle(start, x.coord, end);
  }

  /** The state before the first pop. */
  lemma Launch(strategy: Strategy, m: Maze, start: Coord, end: Coord)
    requires Rectangular(m) && Free(m, start)
    ensures Between(strategy, m, start, end,
                    Frame(Update(Unreached(Height(m), Width(m)), start, Fin(0)),
                          multiset{Entry(start, Priority(strategy, 0, start, end))}, {}),
                    {}, multiset{start})
  {
    var f := Frame(Update(Unreached(Height(m), Width(m)), start, Fin(0)),
                   multiset{Entry(start, Priority(strategy, 0, start, end))}, {});
    assert Entry(start, Priority(strategy, 0, start, end)) in f.frontier;
    forall c | InBounds(m, c)
      ensures Supported(m, f.t, start, c)
    {
    }
  }

  /** A drained frontier means every cell reachable from the start was
      expanded without meeting the goal. */
  lemma Exhausted(strategy: Strategy, m: Maze, start: Coord, end: Coord, f: Frame,
                  popped: set<Coord>, pushes: multiset<Coord>)
    requires Rectangular(m) && Between(strategy, m, start, end, f, popped, pushes)
    requires f.frontier == multiset{}
    ensures !Discoverable(m, start, end)
  {
    assert Cells(f.frontier) == {};
    forall x | Reachable(m, start, x) && Free(m, x)
      ensures end !in Neighbours(m, x)
    {
      ClosedSetHoldsReachable(m, popped, start, x);
    }
  }

  /** The expansion of one popped cell: each neighbour in turn is relaxed
      and, if new, pushed; the search stops as soon as a neighbour is the goal. */
  method Expand(strategy: Strategy, m: Maze, start: Coord, end: Coord, cur: Coord, f0: Frame,
                ghost popped: set<Coord>, ghost pushes0: multiset<Coord>)
    returns (found: bool, f: Frame, ghost pushes: multiset<Coord>)
    requires Rectangular(m) && Expanding(strategy, m, start, end, cur, 0, f0, popped, pushes0)
    ensures found ==> Consistent(m, f.t, start) && Free(m, end) && Lookup(f.t, end).Fin?
    ensures found ==> Discoverable(m, start, end) && PushedOnce(start, f.visited, pushes)
    ensures found && Open(strategy, m, start, end) ==> Lookup(f.t, end) == Fin(Manhattan(start, end))
    ensures !found ==> Between(strategy, m, start, end, f, popped + {cur}, pushes)
    ensures |f.frontier| + |f0.visited| == |f0.frontier| + |f.visited|
  {
    f, pushes := f0, pushes0;
    var nb := Neighbours(m, cur);
    var i := 0;
    while i < |nb|
      invariant i <= |nb|
      invariant Expanding(strategy, m, start, end, cur, i, f, popped, pushes)
      invariant |f.frontier| + |f0.visited| == |f0.frontier| + |f.visited|
    {
      var n := nb[i];
      if n == end {
        ExpandFound(strategy, m, start, end, cur, i, f, popped, pushes);
      } else {
        ExpandStep(strategy, m, start, end, cur, i, f, popped, pushes);
      }
      if n !in f.visited {
        pushes := pushes + multiset{n};
      }
      f := Visit(strategy, end, f, cur, n);
      if n == end {
        found := true;
        return;
      }
      i := i + 1;
    }
    ExpandEnd(strategy, m, start, end, cur, f, popped, pushes);
    found := false;
  }

  /** One round of the frontier loop: pop a least entry and expand its cell. */
  method Round(strategy: Strategy, m: Maze, start: Coord, end: Coord, f0: Frame,
               ghost popped0: set<Coord>, ghost pushes0: multiset<Coord>)
    returns (found: bool, f: Frame, ghost popped: set<Coord>, ghost pushes: multiset<Coord>)
    requires Rectangular(m) && Between(strategy, m, start, end, f0, popped0, pushes0)
    requires f0.frontier != multiset{}
    ensures found ==> Consistent(m, f.t, start) && Free(m, end) && Lookup(f.t, end).Fin?
    ensures found ==> Discoverable(m, start, end) && PushedOnce(start, f.visited, pushes)
    ensures found && Open(strategy, m, start, end) ==> Lookup(f.t, end) == Fin(Manhattan(start, end))
    ensures !found ==> Between(strategy, m, start, end, f, popped, pushes)
    ensures |f.frontier| + 1 + |f0.visited| == |f0.frontier| + |f.visited|
  {
    var e, rest := PopMin(f0.frontier);
    PopStep(strategy, m, start, end, f0, popped0, pushes0, e, rest);
    found, f, pushes := Expand(strategy, m, start, end, e.coord, Frame(f0.t, rest, f0.visited), popped0, pushes0);
    popped := popped0 + {e.coord};
  }

  /** The frontier loop shared by both searches. It reports whether the goal
      was met, the final table, and how many cells were popped. */
  method Explore(strategy: Strategy, m: Maze, start: Coord, end: Coord)
    returns (found: bool, t: Table, pops: nat, ghost pushes: multiset<Coord>)
    requires Rectangular(m) && Free(m, start)
    ensures Consistent(m, t, start)
    ensures found ==> Free(m, end) && Lookup(t, end).Fin?
    ensures found <==> Discoverable(m, start, end)
    ensures found && strategy == CostAware && ObstacleFree(m) ==> Lookup(t, end) == Fin(Manhattan(start, end))
    ensures pops <= Height(m) * Width(m) + 1
    ensures forall c :: pushes[c] <= if c == start then 2 else 1
  {
    var f := Frame(Update(Unreached(Height(m), Width(m)), start, Fin(0)),
                   multiset{Entry(start, Priority(strategy, 0, start, end))}, {});
    ghost var popped: set<Coord> := {};
    ghost var cells := AllCells(m);
    pops := 0;
    pushes := multiset{start};
    Launch(strategy, m, start, end);
    while f.frontier != multiset{}
      invariant Between(strategy, m, start, end, f, popped, pushes)
      invariant |f.visited| <= |cells|
      invariant pops + |f.frontier| + |cells| == |cells| + 1 + |f.visited|
      decreases |cells| + 1 - pops
    {
      ghost var visited0 := f.visited;
      pops := pops + 1;
      found, f, popped, pushes := Round(strategy, m, start, end, f, popped, pushes);
      if found {
        t := f.t;
        Finished(strategy, m, start, end, t, pushes, f.visited);
        return;
      }
      SubsetSize(f.visited, cells);
    }
    t := f.t;
    found := false;
    Exhausted(strategy, m, start, end, f, popped, pushes);
  }

  /** What the search reports when it meets the goal. */
  lemma Finished(strategy: Strategy, m: Maze, start: Coord, end: Coord, t: Table,
                 pushes: multiset<Coord>, visited: set<Coord>)
    requires Rectangular(m) && Consistent(m, t, start) && PushedOnce(start, visited, pushes)
    requires Open(strategy, m, start, end) ==> Lookup(t, end) == Fin(Manhattan(start, end))
    ensures strategy == CostAware && ObstacleFree(m) && InBounds(m, end) ==> Lookup(t, end) == Fin(Manhattan(start, end))
    ensures forall c :: pushes[c] <= if c == start then 2 else 1
  {
  }

  lemma SubsetSize<T>(a: set<T>, b: set<T>)
    requires a <= b
    ensures |a| <= |b|
  {
    assert b == a + (b - a);
  }

  /** A whole search: the frontier loop, then the backwards walk reversed
      into walking order. found is false, and the route empty, when the goal
      was never met. */
  method Run(strategy: Strategy, m: Maze, start: Coord, end: Coord)
    returns (found: bool, t: Table, path: seq<Coord>)
    requires Rectangular(m) && Free(m, start)
    ensures found <==> Discoverable(m, start, end)
    ensures !found ==> path == []
    ensures found ==> WalkFromTo(m, path, start, end)
    ensures Consistent(m, t, start)
    ensures found ==> Lookup(t, end).Fin? && |path| - 1 <= Lookup(t, end).n
    ensures found ==> |path| - 1 >= Manhattan(start, end) && (|path| - 1 - Manhattan(start, end)) % 2 == 0
    ensures found && start == end ==> path == [start]
    ensures found && strategy == CostAware && ObstacleFree(m) ==> |path| == Manhattan(start, end) + 1
  {
    var pops: nat;
    ghost var pushes: multiset<Coord>;
    found, t, pops, pushes := Explore(strategy, m, start, end);
    if found {
      var back := Backtrack(m, t, start, end);
      path := Reverse(back);
      ReverseWalk(m, back);
      ChainLength(path);
    } else {
      path := [];
    }
  }
}
