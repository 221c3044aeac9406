/** The search frontier: a bag of weighted cells from which any entry of
    least priority may be taken. grid/a_star.py keeps it in a binary heap; its
    tie-breaking order is deliberately left open here, so everything proved
    about the search holds for every way of breaking ties. */
module Frontier {
  import opened Coords

  /** A cell together with the priority it was pushed with. */
  datatype Entry = Entry(coord: Coord, priority: nat)

  /** The entry ordering compares priorities only. */
  predicate Lt(a: Entry, b: Entry) {
    a.priority < b.priority
  }

  predicate Le(a: Entry, b: Entry) {
    a.priority <= b.priority
  }

  /** Greater-than is defined as the negation of less-or-equal. */
  predicate Gt(a: Entry, b: Entry) {
    !Le(a, b)
  }

  /** Greater-or-equal is defined as the negation of less-than. */
  predicate Ge(a: Entry, b: Entry) {
    !Lt(a, b)
  }

  /** Entry equality looks at the two coordinates only, never the priority. */
  predicate SameCell(a: Entry, b: Entry) {
    a.coord.row == b.coord.row && a.coord.col == b.coord.col
  }

  /** The negation-based operators are the converses of the direct ones, so the
      four together form one total preorder on priorities; equality ignores it. */
  lemma ComparisonsAgree(a: Entry, b: Entry)
    ensures Gt(a, b) <==> Lt(b, a)
    ensures Ge(a, b) <==> Le(b, a)
    ensures Le(a, b) || Le(b, a)
    ensures SameCell(a, b) <==> a.coord == b.coord
  {
  }

  type Queue = multiset<Entry>

  /** e is in q and no entry of q has a smaller priority. */
  predicate IsMin(q: Queue, e: Entry) {
    e in q && forall f :: f in q ==> Le(e, f)
  }

  lemma {:induction false} MinExists(q: Queue)
    requires q != multiset{}
    ensures exists e :: IsMin(q, e)
    decreases |q|
  {
    var x :| x in q;
    var rest := q - multiset{x};
    assert q == rest + multiset{x};
    if rest == multiset{} {
      assert IsMin(q, x);
    } else {
      MinExists(rest);
      var y :| IsMin(rest, y);
      if x.priority <= y.priority {
        assert IsMin(q, x);
      } else {
        assert IsMin(q, y);
      }
    }
  }

  /** Takes out one entry of least priority; which one among equals is left open. */
  method PopMin(q: Queue) returns (e: Entry, rest: Queue)
    requires q != multiset{}
    ensures IsMin(q, e)
    ensures rest + multiset{e} == q
  {
    MinExists(q);
    e :| e in q && IsMin(q, e);
    rest := q - multiset{e};
  }

  /** The cells that have an entry in q. */
  function Cells(q: Queue): set<Coord> {
    set e | e in q :: e.coord
  }
}
