/**
 * The priority queue of the A* solver, as an abstract min-heap of
 * (priority, count, cell) entries, and the heuristic its priorities add
 * to the g-scores.
 */
module AStarHeap {
  import Heaps
  import opened Cells

  /** The heuristic of the A* solver: the Manhattan distance from a to b. */
  function Heuristic(a: Coord, b: Coord): nat {
    Manhattan(a, b)
  }

  /**
   * The heuristic is zero exactly between equal positions, symmetric, and
   * changes by at most one between adjacent positions.
   */
  lemma HeuristicFacts(a: Coord, b: Coord, e: Coord)
    ensures Heuristic(a, b) == 0 <==> a == b
    ensures Heuristic(a, b) == Heuristic(b, a)
    ensures Adjacent(a, b) ==> Heuristic(a, e) <= Heuristic(b, e) + 1 && Heuristic(b, e) <= Heuristic(a, e) + 1
  {
  }

  /** A heap entry (priority, count, cell). */
  datatype Entry = Entry(priority: nat, count: nat, at: Coord)

  /**
   * a comes no later than b: tuples are compared priority first, then
   * count; no two entries share a count, so cells are never compared.
   */
  predicate Below(a: Entry, b: Entry) {
    a.priority < b.priority || (a.priority == b.priority && a.count <= b.count)
  }

  /** Entries are totally preordered by Below. */
  lemma BelowOrders()
    ensures Heaps.Preorder(Below)
  {
  }

  /** e is the entry heappop returns from pq. */
  predicate IsLeast(e: Entry, pq: multiset<Entry>) {
    Heaps.IsLeast(e, pq, Below)
  }

  /**
   * The entry heappop takes off a nonempty heap: Heaps.Least under the
   * (priority, count) order of this heap's entries; Dijkstra's heap has
   * its own entry type and order.
   */
  ghost function Least(pq: multiset<Entry>): (e: Entry)
    requires |pq| > 0
    ensures IsLeast(e, pq)
  {
    BelowOrders();
    Heaps.Least(pq, Below)
  }

  /** The tiebreak counts: none above count, and no two entries with the same count. */
  ghost predicate Counted(pq: multiset<Entry>, count: nat) {
    && (forall e :: e in pq ==> e.count <= count)
    && (forall a, b :: a in pq && b in pq && a.count == b.count ==> a == b)
  }

  /** With distinct counts the least entry is unique: heappop's choice is determined. */
  lemma LeastUnique(a: Entry, b: Entry, pq: multiset<Entry>, count: nat)
    requires Counted(pq, count) && IsLeast(a, pq) && IsLeast(b, pq)
    ensures a == b
  {
    assert Below(a, b) && Below(b, a);
  }

  /** Pushing an entry under the next count keeps the counts distinct. */
  lemma PushCounted(pq: multiset<Entry>, count: nat, p: nat, n: Coord)
    requires Counted(pq, count)
    ensures Counted(pq + multiset{Entry(p, count + 1, n)}, count + 1)
  {
  }

  /** Popping an entry keeps the counts distinct. */
  lemma PopCounted(pq: multiset<Entry>, count: nat, e: Entry)
    requires Counted(pq, count)
    ensures Counted(pq - multiset{e}, count)
  {
    forall a | a in pq - multiset{e} ensures a in pq {
    }
  }
}
