/** The per-search distance table: for every cell, the best step count from
    the start found so far, or infinity while the cell is unreached. */
module Distance {
  import opened Coords

  /** The table in grid/a_star.py and solution.py holds integers and float("inf"). */
  datatype Dist = Inf | Fin(n: nat)

  /** One step further; infinity plus one stays infinity. */
  function Succ(d: Dist): Dist {
    match d
    case Inf => Inf
    case Fin(k) => Fin(k + 1)
  }

  /** Strict order on table values: every finite value is below infinity,
      and infinity is below nothing. */
  predicate Less(a: Dist, b: Dist) {
    match (a, b)
    case (Fin(x), Fin(y)) => x < y
    case (Fin(_), Inf) => true
    case (Inf, _) => false
  }

  /** The smaller of two values; on a tie, the first one, as Python's min does. */
  function MinDist(a: Dist, b: Dist): (r: Dist)
    ensures r == a || r == b
    ensures !Less(a, r) && !Less(b, r)
  {
    if Less(b, a) then b else a
  }

  /** Rows of table values, indexed like the maze. */
  type Table = seq<seq<Dist>>

  predicate Shaped(t: Table, h: nat, w: nat) {
    |t| == h && forall r :: 0 <= r < h ==> |t[r]| == w
  }

  predicate InTable(t: Table, c: Coord) {
    0 <= c.row < |t| && 0 <= c.col < |t[c.row]|
  }

  /** The entry for c; a cell outside the table reads as unreached. */
  function Lookup(t: Table, c: Coord): Dist {
    if InTable(t, c) then t[c.row][c.col] else Inf
  }

  /** The table with the entry for c replaced by v and every other entry kept;
      a cell outside the table leaves it unchanged. */
  function Update(t: Table, c: Coord, v: Dist): (r: Table)
    ensures |r| == |t| && forall i :: 0 <= i < |t| ==> |r[i]| == |t[i]|
    ensures InTable(t, c) ==> Lookup(r, c) == v
    ensures forall d {:trigger Lookup(r, d)} :: d != c ==> Lookup(r, d) == Lookup(t, d)
  {
    if InTable(t, c) then t[c.row := t[c.row][c.col := v]] else t
  }

  /** The table every search starts from, before the start cell is set. */
  function Unreached(h: nat, w: nat): (t: Table)
    ensures Shaped(t, h, w)
    ensures forall c :: Lookup(t, c) == Inf
  {
    seq(h, _ => seq(w, _ => Inf))
  }
}
