/**
 * The abstract min-heap the Dijkstra and A* solvers pop from: a multiset
 * of entries under a total preorder, heappop taking a least entry.
 */
module Heaps {

  /** below is a total preorder: any two entries compare, and comparisons chain. */
  ghost predicate Preorder<T(!new)>(below: (T, T) -> bool) {
    && (forall a, b :: below(a, b) || below(b, a))
    && (forall a, b, c :: below(a, b) && below(b, c) ==> below(a, c))
  }

  /** e is an entry of pq that no entry of pq comes before. */
  predicate IsLeast<T(!new)>(e: T, pq: multiset<T>, below: (T, T) -> bool) {
    e in pq && forall e' :: e' in pq ==> below(e, e')
  }

  /** Every nonempty heap has a least entry. */
  lemma {:induction false} LeastExists<T(!new)>(pq: multiset<T>, below: (T, T) -> bool)
    requires |pq| > 0 && Preorder(below)
    ensures exists e :: IsLeast(e, pq, below)
    decreases |pq|
  {
    var x :| x in pq;
    var rest := pq - multiset{x};
    if |rest| == 0 {
      forall e' | e' in pq ensures e' == x {
        assert e' != x ==> e' in rest;
      }
      assert below(x, x);
      assert IsLeast(x, pq, below);
    } else {
      LeastExists(rest, below);
      var y :| IsLeast(y, rest, below);
      var z := if below(x, y) then x else y;
      assert IsLeast(z, pq, below) by {
        forall e' | e' in pq ensures below(z, e') {
          if e' != x { assert e' in rest; }
        }
      }
    }
  }

  /** A least entry of a nonempty heap. */
  ghost function Least<T(!new)>(pq: multiset<T>, below: (T, T) -> bool): (e: T)
    requires |pq| > 0 && Preorder(below)
    ensures IsLeast(e, pq, below)
  {
    LeastExists(pq, below);
    var e :| IsLeast(e, pq, below); e
  }
}
