/** grid/grid.py: the obstacle list a scene edits, and its projection to the
    0/1 maze the search reads. Cells are in [row, col] order. */
module Grids {
  import opened Coords
  import opened Mazes

  /** The constructor in grid/grid.py replaces a missing or empty list by a fresh
      empty one; both are the empty sequence here. Any list is accepted,
      duplicates and out-of-range cells included. */
  datatype Grid = Grid(height: int, width: int, obstacles: seq<Coord>)

  predicate IsObstacle(g: Grid, c: Coord)
    ensures IsObstacle(g, c) <==> exists i :: 0 <= i < |g.obstacles| && g.obstacles[i] == c
    ensures NoDup(g.obstacles) ==> (IsObstacle(g, c) <==> multiset(g.obstacles)[c] == 1)
  {
    ListedOnce(g.obstacles, c);
    c in g.obstacles
  }

  /** In a list without duplicates, a listed cell occurs exactly once. */
  lemma {:induction false} ListedOnce(s: seq<Coord>, c: Coord)
    ensures NoDup(s) ==> (c in s <==> multiset(s)[c] == 1)
  {
    if s != [] && NoDup(s) {
      assert s == [s[0]] + s[1..];
      assert NoDup(s[1..]) by {
        forall i, j | 0 <= i < j < |s| - 1
          ensures s[1..][i] != s[1..][j]
        {
          assert s[1..][i] == s[i + 1] && s[1..][j] == s[j + 1];
        }
      }
      ListedOnce(s[1..], c);
      if s[0] == c {
        assert c !in s[1..] by {
          forall j | 0 <= j < |s| - 1
            ensures s[1..][j] != c
          {
            assert s[1..][j] == s[j + 1];
          }
        }
      }
    }
  }

  /** No cell is listed twice. */
  predicate NoDup(s: seq<Coord>) {
    forall i, j :: 0 <= i < j < |s| ==> s[i] != s[j]
  }

  /** 0 <= c.row < height and 0 <= c.col < width. */
  predicate InGrid(g: Grid, c: Coord) {
    0 <= c.row < g.height && 0 <= c.col < g.width
  }

  /** Appends c unless it is already listed. */
  function AddObstacle(g: Grid, c: Coord): (r: Grid)
    ensures IsObstacle(r, c)
    ensures forall d :: d != c ==> (IsObstacle(r, d) <==> IsObstacle(g, d))
    ensures r.height == g.height && r.width == g.width
    ensures IsObstacle(g, c) ==> r == g
    ensures !IsObstacle(g, c) ==> r.obstacles == g.obstacles + [c]
    ensures NoDup(g.obstacles) ==> NoDup(r.obstacles)
  {
    if c in g.obstacles then g else g.(obstacles := g.obstacles + [c])
  }

  /** Adding twice is adding once. */
  lemma AddIdempotent(g: Grid, c: Coord)
    ensures AddObstacle(AddObstacle(g, c), c) == AddObstacle(g, c)
  {
  }

  /** The first position holding c; the caller knows there is one. */
  function FirstIndex(s: seq<Coord>, c: Coord): (i: nat)
    requires c in s
    ensures i < |s| && s[i] == c && c !in s[..i]
  {
    if s[0] == c then 0 else 1 + FirstIndex(s[1..], c)
  }

  /** s without its first occurrence of c, the rest in their order. */
  function RemoveFirst(s: seq<Coord>, c: Coord): (r: seq<Coord>)
    ensures c !in s ==> r == s
    ensures c in s ==> exists i :: 0 <= i < |s| && s[i] == c && c !in s[..i] && r == s[..i] + s[i + 1..]
    ensures multiset(r) == multiset(s) - multiset{c}
  {
    if c in s then
      var i := FirstIndex(s, c);
      assert s == s[..i] + [c] + s[i + 1..];
      s[..i] + s[i + 1..]
    else s
  }

  /** Deletes the first listed occurrence of c, if any. */
  function RemoveObstacle(g: Grid, c: Coord): (r: Grid)
    ensures r.height == g.height && r.width == g.width
    ensures IsObstacle(g, c) ==>
      exists i :: 0 <= i < |g.obstacles| && g.obstacles[i] == c && c !in g.obstacles[..i] &&
        r.obstacles == g.obstacles[..i] + g.obstacles[i + 1..]
    ensures multiset(r.obstacles) == multiset(g.obstacles) - multiset{c}
    ensures forall d :: d != c ==> (IsObstacle(r, d) <==> IsObstacle(g, d))
    ensures !IsObstacle(g, c) ==> r == g
    ensures NoDup(g.obstacles) ==> !IsObstacle(r, c) && NoDup(r.obstacles)
  {
    RemoveKeepsOthers(g.obstacles, c);
    RemoveNoDup(g.obstacles, c);
    g.(obstacles := RemoveFirst(g.obstacles, c))
  }

  /** Removing c leaves every other cell's membership as it was. */
  lemma RemoveKeepsOthers(s: seq<Coord>, c: Coord)
    ensures forall d :: d != c ==> (d in RemoveFirst(s, c) <==> d in s)
  {
    var r := RemoveFirst(s, c);
    forall d | d != c
      ensures d in r <==> d in s
    {
      assert d in multiset(r) <==> d in multiset(s);
    }
  }

  /** From a list without duplicates, removing c removes it altogether and
      adds no duplicate. */
  lemma RemoveNoDup(s: seq<Coord>, c: Coord)
    ensures NoDup(s) ==> c !in RemoveFirst(s, c) && NoDup(RemoveFirst(s, c))
  {
    if NoDup(s) && c in s {
      var i := FirstIndex(s, c);
      var r := s[..i] + s[i + 1..];
      assert RemoveFirst(s, c) == r;
      forall k | 0 <= k < |r|
        ensures r[k] == s[if k < i then k else k + 1]
      {
      }
      forall a, b | 0 <= a < b < |r|
        ensures r[a] != r[b]
      {
        var x, y := (if a < i then a else a + 1), (if b < i then b else b + 1);
        assert r[a] == s[x] && r[b] == s[y] && x < y;
      }
      forall k | 0 <= k < |r|
        ensures r[k] != c
      {
        var x := if k < i then k else k + 1;
        assert r[k] == s[x] && x != i;
      }
    }
  }

  /** The 0/1 maze the search reads: height rows of width entries, 1 exactly
      where an obstacle is listed and 0 elsewhere. A negative size reads as
      zero, as an empty range does. Listed cells outside the grid do not
      show, so a cell is free for the search exactly when it lies in the
      grid and is not an obstacle. */
  function Occupancy(g: Grid): (m: Maze)
    ensures Rectangular(m)
    ensures |m| == (if g.height < 0 then 0 else g.height)
    ensures forall r :: 0 <= r < |m| ==> |m[r]| == (if g.width < 0 then 0 else g.width)
    ensures forall c :: InGrid(g, c) ==> m[c.row][c.col] in {0, 1}
    ensures forall c :: InGrid(g, c) ==> (m[c.row][c.col] == 1 <==> IsObstacle(g, c))
    ensures forall c :: Free(m, c) <==> InGrid(g, c) && !IsObstacle(g, c)
  {
    var h := if g.height < 0 then 0 else g.height;
    var w := if g.width < 0 then 0 else g.width;
    seq(h, r => seq(w, col => if Coord(r, col) in g.obstacles then 1 else 0))
  }
}
