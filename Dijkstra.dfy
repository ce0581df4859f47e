/**
 * The priority queue of the Dijkstra solver, as an abstract min-heap:
 * a multiset of (distance, (x, y)) entries from which the least entry,
 * in the order Python compares those tuples, is taken; and the
 * invariants of the search that hold of it.
 */
module DijkstraHeap {
  import Heaps
  import opened Options
  import opened Cells
  import opened Grids
  import opened Search

  /** A heap entry (distance, (x, y)). */
  datatype Entry = Entry(dist: nat, at: Coord)

  /** a comes no later than b: tuples are compared distance first, then x, then y. */
  predicate Below(a: Entry, b: Entry) {
    a.dist < b.dist || (a.dist == b.dist && (a.at.x < b.at.x || (a.at.x == b.at.x && a.at.y <= b.at.y)))
  }

  /** Entries are totally preordered by Below. */
  lemma BelowOrders()
    ensures Heaps.Preorder(Below)
  {
  }

  /** e is the entry heappop returns from pq. */
  predicate IsLeast(e: Entry, pq: multiset<Entry>) {
    Heaps.IsLeast(e, pq, Below)
  }

  /** Below is antisymmetric as well, so the least entry is unique. */
  lemma LeastUnique(a: Entry, b: Entry, pq: multiset<Entry>)
    requires IsLeast(a, pq) && IsLeast(b, pq)
    ensures a == b
  {
    assert Below(a, b) && Below(b, a);
  }

  /**
   * The entry heappop takes off a nonempty heap: Heaps.Least under the
   * (distance, x, y) order of this heap's entries; A* has its own entry
   * type and order.
   */
  ghost function Least(pq: multiset<Entry>): (e: Entry)
    requires |pq| > 0
    ensures IsLeast(e, pq)
  {
    BelowOrders();
    Heaps.Least(pq, Below)
  }

  /**
   * The heap holds one entry for each discovered cell not yet expanded,
   * at that cell's distance, between lvl and lvl + 1: it never holds an
   * entry that a later relaxation has made stale.
   */
  ghost predicate Heaped(pq: multiset<Entry>, cf: CameFrom, d: map<Coord, nat>, exp: set<Coord>, lvl: nat) {
    forall e :: e in pq ==> pq[e] == 1 && e.at in cf && e.at !in exp && e.at in d && d[e.at] == e.dist && lvl <= e.dist <= lvl + 1
  }

  /** Every discovered cell not yet expanded has its entry in the heap. */
  ghost predicate Waiting(pq: multiset<Entry>, cf: CameFrom, d: map<Coord, nat>, exp: set<Coord>) {
    forall c :: c in cf && c !in exp ==> c in d && Entry(d[c], c) in pq
  }

  /**
   * The heap of the search: exactly one entry per discovered, unexpanded
   * cell, at its distance, lvl being the distance of the entry last popped;
   * end has not been expanded.
   */
  ghost predicate Frontier(pq: multiset<Entry>, cf: CameFrom, d: map<Coord, nat>, exp: set<Coord>, lvl: nat, end: Coord) {
    && Heaped(pq, cf, d, exp, lvl) && Waiting(pq, cf, d, exp) && Levels(d, exp, lvl)
    && d.Keys == cf.Keys && exp <= cf.Keys && end !in exp
  }

  /** Popping the least entry and expanding its cell keeps the heap the frontier, at the popped distance. */
  lemma PopLeast(pq: multiset<Entry>, cf: CameFrom, d: map<Coord, nat>, exp: set<Coord>, lvl: nat, end: Coord, e: Entry)
    requires Frontier(pq, cf, d, exp, lvl, end) && IsLeast(e, pq) && e.at != end
    ensures Frontier(pq - multiset{e}, cf, d, exp + {e.at}, e.dist, end)
  {
    var pq' := pq - multiset{e};
    assert Heaped(pq', cf, d, exp + {e.at}, e.dist) by {
      forall e' | e' in pq'
        ensures pq'[e'] == 1 && e'.at in cf && e'.at !in exp + {e.at} && e'.at in d && d[e'.at] == e'.dist
        ensures e.dist <= e'.dist <= e.dist + 1
      {
        assert e' in pq && e' != e;
      }
    }
    assert Waiting(pq', cf, d, exp + {e.at}) by {
      forall c | c in cf && c !in exp + {e.at} ensures c in d && Entry(d[c], c) in pq' {
        assert Entry(d[c], c) != e;
      }
    }
  }

  /** Pushing the newly discovered n at distance lvl + 1 keeps the heap the frontier. */
  lemma PushEntry(pq: multiset<Entry>, cf: CameFrom, d: map<Coord, nat>, exp: set<Coord>, lvl: nat, end: Coord, n: Coord, p: Option<Coord>)
    requires Frontier(pq, cf, d, exp, lvl, end) && n !in cf
    ensures Frontier(pq + multiset{Entry(lvl + 1, n)}, cf[n := p], d[n := lvl + 1], exp, lvl, end)
  {
    var pq', cf', d' := pq + multiset{Entry(lvl + 1, n)}, cf[n := p], d[n := lvl + 1];
    assert Heaped(pq', cf', d', exp, lvl) by {
      forall e | e in pq' ensures pq'[e] == 1 && e.at in cf' && e.at !in exp && e.at in d' && d'[e.at] == e.dist && lvl <= e.dist <= lvl + 1 {
        if e != Entry(lvl + 1, n) { assert e in pq; }
      }
    }
    assert Waiting(pq', cf', d', exp) by {
      forall c | c in cf' && c !in exp ensures c in d' && Entry(d'[c], c) in pq' {
        if c != n { assert Entry(d[c], c) in pq; }
      }
    }
  }
}

/**
 * The search of model/solvers/dijkstra.py as a function of the maze:
 * its state after each round of the main loop, and the invariants that
 * state keeps. With every step of length one, the popped distances never
 * fall and a cell's first distance is never improved on, so the search
 * discovers cells level by level as the breadth-first search does.
 */
module DijkstraSpec {
  import opened Options
  import opened Cells
  import opened Grids
  import opened Search
  import opened DijkstraHeap

  /**
   * The search state: the heap, came_from and distances, the distance of
   * the entry last popped and, for the proofs only, the expanded cells.
   */
  datatype St = St(pq: multiset<Entry>, cameFrom: CameFrom, dist: map<Coord, nat>, exp: set<Coord>, lvl: nat)

  /** Before the first round: start on the heap at distance 0, recorded with no predecessor. */
  function Init(start: Coord): St {
    St(multiset{Entry(0, start)}, map[start := None], map[start := 0], {}, 0)
  }

  /**
   * The relaxation of neighbour n of cur, lvl being the distance popped
   * with cur: n is given that distance plus one, linked to cur and pushed
   * when it has no distance yet or the new one is strictly smaller.
   */
  function Relax(s: St, cur: Coord, n: Coord): St {
    var nd := s.lvl + 1;
    if n !in s.dist || nd < s.dist[n] then
      s.(pq := s.pq + multiset{Entry(nd, n)}, cameFrom := s.cameFrom[n := Some(cur)], dist := s.dist[n := nd])
    else s
  }

  /** The first i neighbours in ns of cur relaxed in turn. */
  function RelaxFrom(s: St, cur: Coord, ns: seq<Coord>, i: nat): St
    requires i <= |ns|
    decreases i, 1
  {
    Relaxed(s, cur, ns, i)
  }

  /** RelaxFrom spelled out; the indirection keeps a statement about one count from opening up the ones before it. */
  function Relaxed(s: St, cur: Coord, ns: seq<Coord>, i: nat): St
    requires i <= |ns|
    decreases i, 0
  {
    if i == 0 then s else Relax(RelaxFrom(s, cur, ns, i - 1), cur, ns[i - 1])
  }

  /** The least entry taken off the heap and its cell counted as expanded. */
  ghost function Pop(s: St): St
    requires |s.pq| > 0
  {
    var e := Least(s.pq);
    s.(pq := s.pq - multiset{e}, exp := s.exp + {e.at}, lvl := e.dist)
  }

  /** One round of the main loop for a popped cell other than end: pop it, relax its open neighbours. */
  ghost function Expand(g: Grid, b0: Board, s: St): St
    requires g.Shaped(b0) && |s.pq| > 0
  {
    var cur := Least(s.pq).at;
    RelaxFrom(Pop(s), cur, OpenAt(g, b0, cur), |OpenAt(g, b0, cur)|)
  }

  /** The main loop is over: the heap ran dry or end is its least entry. */
  ghost predicate Stopped(s: St, end: Coord) {
    |s.pq| == 0 || Least(s.pq).at == end
  }

  /** The state after k rounds, a stopped state staying as it is. */
  ghost function Run(g: Grid, b0: Board, start: Coord, end: Coord, k: nat): St
    requires g.Shaped(b0)
    decreases k, 1
  {
    Rounds(g, b0, start, end, k)
  }

  /**
   * The k-th round spelled out. Run is defined through Rounds so that a
   * statement about Run(k) does not by itself open up the round that made it.
   */
  ghost function Rounds(g: Grid, b0: Board, start: Coord, end: Coord, k: nat): St
    requires g.Shaped(b0)
    decreases k, 0
  {
    if k == 0 then Init(start)
    else
      var p := Run(g, b0, start, end, k - 1);
      if Stopped(p, end) then p else Expand(g, b0, p)
  }

  /**
   * What every state of the search satisfies: the came-from links and
   * distances form a search tree, the heap is its frontier, and everything
   * one step from an expanded cell has been given a distance at most one
   * more than that cell's.
   */
  ghost predicate Inv(g: Grid, m: WallMap, s: St, start: Coord, end: Coord)
    requires g.Shaped(m)
  {
    && Tree(g, m, s.cameFrom, s.dist, s.exp, start)
    && Frontier(s.pq, s.cameFrom, s.dist, s.exp, s.lvl, end)
    && Closed(g, m, s.cameFrom, s.dist, s.exp)
  }

  /** Relaxing leaves the expanded cells and the popped distance alone. */
  lemma {:induction false} RelaxFromShape(s: St, cur: Coord, ns: seq<Coord>, i: nat)
    requires i <= |ns|
    ensures RelaxFrom(s, cur, ns, i).exp == s.exp && RelaxFrom(s, cur, ns, i).lvl == s.lvl
  {
    if i > 0 {
      RelaxFromShape(s, cur, ns, i - 1);
    }
  }

  /**
   * Relaxing one neighbour keeps the heap the frontier: a neighbour that
   * already has a distance is never improved on, so only a new cell is
   * pushed, and the heap grows by as many entries as there are new records.
   */
  lemma RelaxFrontier(s: St, cur: Coord, n: Coord, end: Coord)
    requires Frontier(s.pq, s.cameFrom, s.dist, s.exp, s.lvl, end)
    ensures var t := Relax(s, cur, n);
            && Frontier(t.pq, t.cameFrom, t.dist, t.exp, t.lvl, end)
            && |t.pq| - |t.cameFrom| == |s.pq| - |s.cameFrom|
  {
    if n !in s.dist {
      PushEntry(s.pq, s.cameFrom, s.dist, s.exp, s.lvl, end, n, Some(cur));
    }
  }

  /** Relaxing neighbours in turn keeps the heap the frontier and the heap-minus-records count. */
  lemma {:induction false} RelaxFromFrontier(s: St, cur: Coord, ns: seq<Coord>, i: nat, end: Coord)
    requires i <= |ns| && Frontier(s.pq, s.cameFrom, s.dist, s.exp, s.lvl, end)
    ensures var t := RelaxFrom(s, cur, ns, i);
            && Frontier(t.pq, t.cameFrom, t.dist, t.exp, t.lvl, end)
            && |t.pq| - |t.cameFrom| == |s.pq| - |s.cameFrom|
  {
    if i > 0 {
      RelaxFromFrontier(s, cur, ns, i - 1, end);
      RelaxFrontier(RelaxFrom(s, cur, ns, i - 1), cur, ns[i - 1], end);
    }
  }

  /** Recording a new cell one level further keeps the levels. */
  lemma LevelsGrow(d: map<Coord, nat>, exp: set<Coord>, lvl: nat, n: Coord)
    requires Levels(d, exp, lvl) && n !in d
    ensures Levels(d[n := lvl + 1], exp, lvl)
  {
  }

  /** Relaxing one open neighbour of the expanded cell cur keeps the search tree. */
  lemma RelaxTree(g: Grid, m: WallMap, s: St, cur: Coord, n: Coord, start: Coord)
    requires g.Shaped(m) && g.Passable(m, cur, n)
    requires Tree(g, m, s.cameFrom, s.dist, s.exp, start) && cur in s.exp && cur in s.dist && s.dist[cur] == s.lvl
    requires Levels(s.dist, s.exp, s.lvl)
    ensures var t := Relax(s, cur, n);
            Tree(g, m, t.cameFrom, t.dist, t.exp, start) && cur in t.exp && cur in t.dist && t.dist[cur] == t.lvl
  {
    if n !in s.dist {
      var t := Relax(s, cur, n);
      assert t.cameFrom == s.cameFrom[n := Some(cur)] && t.dist == s.dist[n := s.dist[cur] + 1];
      assert t.exp == s.exp && t.lvl == s.lvl;
      TreeGrow(g, m, s.cameFrom, s.dist, s.exp, start, cur, n);
    } else {
      RelaxSettled(s, cur, n);
    }
  }

  /** Relaxing a cell already recorded changes nothing: no recorded level lies beyond lvl + 1. */
  lemma RelaxSettled(s: St, cur: Coord, n: Coord)
    requires Levels(s.dist, s.exp, s.lvl) && n in s.dist
    ensures Relax(s, cur, n) == s
  {
    assert s.dist[n] <= s.lvl + 1;
  }

  /** Relaxing one neighbour of the expanded cell keeps the levels. */
  lemma RelaxLevels(s: St, cur: Coord, n: Coord)
    requires Levels(s.dist, s.exp, s.lvl)
    ensures var t := Relax(s, cur, n); Levels(t.dist, t.exp, t.lvl)
  {
    if n in s.dist {
      RelaxSettled(s, cur, n);
    }
  }

  /** Relaxing open neighbours of the expanded cell cur in turn keeps the search tree. */
  lemma {:induction false} RelaxFromTree(g: Grid, m: WallMap, s: St, cur: Coord, ns: seq<Coord>, i: nat, start: Coord)
    requires g.Shaped(m) && i <= |ns|
    requires Tree(g, m, s.cameFrom, s.dist, s.exp, start) && cur in s.exp && cur in s.dist && s.dist[cur] == s.lvl
    requires Levels(s.dist, s.exp, s.lvl)
    requires forall k :: 0 <= k < |ns| ==> g.Passable(m, cur, ns[k])
    ensures var t := RelaxFrom(s, cur, ns, i);
            && Tree(g, m, t.cameFrom, t.dist, t.exp, start) && cur in t.exp && cur in t.dist && t.dist[cur] == t.lvl
            && Levels(t.dist, t.exp, t.lvl)
  {
    if i > 0 {
      RelaxFromTree(g, m, s, cur, ns, i - 1, start);
      RelaxTree(g, m, RelaxFrom(s, cur, ns, i - 1), cur, ns[i - 1], start);
      RelaxLevels(RelaxFrom(s, cur, ns, i - 1), cur, ns[i - 1]);
    }
  }

  /** Relaxing the neighbour n of cur accounts for the passage to it. */
  lemma RelaxClosed(g: Grid, m: WallMap, s: St, cur: Coord, n: Coord, done: set<Coord>)
    requires g.Shaped(m)
    requires ClosedBut(g, m, s.cameFrom, s.dist, s.exp, cur, done) && cur in s.dist && s.dist[cur] == s.lvl
    requires Levels(s.dist, s.exp, s.lvl) && s.dist.Keys == s.cameFrom.Keys
    ensures var t := Relax(s, cur, n);
            && ClosedBut(g, m, t.cameFrom, t.dist, t.exp, cur, done + {n}) && cur in t.dist && t.dist[cur] == t.lvl
            && Levels(t.dist, t.exp, t.lvl) && t.dist.Keys == t.cameFrom.Keys
  {
    if n !in s.dist {
      PushClosed(g, m, s.cameFrom, s.dist, s.exp, cur, n, done);
    } else {
      Skip(g, m, s.cameFrom, s.dist, s.exp, s.lvl, cur, n, done);
    }
  }

  /** Relaxing the first i neighbours of cur accounts for the passages to them. */
  lemma {:induction false} RelaxFromClosed(g: Grid, m: WallMap, s: St, cur: Coord, ns: seq<Coord>, i: nat)
    requires g.Shaped(m) && i <= |ns|
    requires ClosedBut(g, m, s.cameFrom, s.dist, s.exp, cur, {}) && cur in s.dist && s.dist[cur] == s.lvl
    requires Levels(s.dist, s.exp, s.lvl) && s.dist.Keys == s.cameFrom.Keys
    ensures var t := RelaxFrom(s, cur, ns, i);
            && ClosedBut(g, m, t.cameFrom, t.dist, t.exp, cur, Listed(ns, i)) && cur in t.dist && t.dist[cur] == t.lvl
            && Levels(t.dist, t.exp, t.lvl) && t.dist.Keys == t.cameFrom.Keys
  {
    if i > 0 {
      RelaxFromClosed(g, m, s, cur, ns, i - 1);
      RelaxClosed(g, m, RelaxFrom(s, cur, ns, i - 1), cur, ns[i - 1], Listed(ns, i - 1));
    }
  }

  /** The initial state satisfies the invariants. */
  lemma InitKeeps(g: Grid, m: WallMap, start: Coord, end: Coord)
    requires g.Shaped(m) && g.InBounds(start)
    ensures Inv(g, m, Init(start), start, end)
  {
    var s := Init(start);
    assert Heaped(s.pq, s.cameFrom, s.dist, s.exp, s.lvl) by {
      forall e | e in s.pq ensures e == Entry(0, start) {
      }
    }
  }

  /** A round of the main loop keeps the invariants, taking one entry off the heap for good. */
  lemma ExpandKeeps(g: Grid, m: WallMap, b0: Board, s: St, start: Coord, end: Coord)
    requires g.Shaped(m) && g.Shaped(b0) && m == WallsOf(b0) && Inv(g, m, s, start, end) && !Stopped(s, end)
    ensures Inv(g, m, Expand(g, b0, s), start, end)
    ensures |Expand(g, b0, s).pq| - |Expand(g, b0, s).cameFrom| == |s.pq| - |s.cameFrom| - 1
  {
    var e := Least(s.pq);
    var cur := e.at;
    PopLeast(s.pq, s.cameFrom, s.dist, s.exp, s.lvl, end, e);
    TreeExpand(g, m, s.cameFrom, s.dist, s.exp, start, cur);
    PopClosed(g, m, s.cameFrom, s.dist, s.exp, cur);
    var ns := OpenAt(g, b0, cur);
    OpenAtPassable(g, b0, m, cur);
    var p := Pop(s);
    RelaxFromShape(p, cur, ns, |ns|);
    RelaxFromTree(g, m, p, cur, ns, |ns|, start);
    RelaxFromFrontier(p, cur, ns, |ns|, end);
    RelaxFromClosed(g, m, p, cur, ns, |ns|);
    ListedAll(ns, |ns|);
    var t := Expand(g, b0, s);
    assert forall v :: g.Passable(m, cur, v) ==> v in Listed(ns, |ns|);
    CloseOff(g, m, t.cameFrom, t.dist, t.exp, cur, Listed(ns, |ns|));
  }

  /** A round taken from a state that satisfies the invariants and has not stopped keeps them. */
  lemma RunStep(g: Grid, m: WallMap, b0: Board, start: Coord, end: Coord, k: nat)
    requires g.Shaped(m) && g.Shaped(b0) && m == WallsOf(b0) && k > 0
    requires Inv(g, m, Run(g, b0, start, end, k - 1), start, end) && !Stopped(Run(g, b0, start, end, k - 1), end)
    ensures Inv(g, m, Run(g, b0, start, end, k), start, end)
    ensures var s, t := Run(g, b0, start, end, k - 1), Run(g, b0, start, end, k);
            |t.pq| - |t.cameFrom| == |s.pq| - |s.cameFrom| - 1
  {
    var s := Run(g, b0, start, end, k - 1);
    ExpandKeeps(g, m, b0, s, start, end);
    assert Run(g, b0, start, end, k) == Expand(g, b0, s);
  }

  /** A round taken from a state that has not stopped shortens the heap-minus-records count. */
  lemma RunShrinks(g: Grid, m: WallMap, b0: Board, start: Coord, end: Coord, k: nat)
    requires g.Shaped(m) && g.Shaped(b0) && m == WallsOf(b0)
    requires Inv(g, m, Run(g, b0, start, end, k), start, end) && !Stopped(Run(g, b0, start, end, k), end)
    ensures var s, t := Run(g, b0, start, end, k), Run(g, b0, start, end, k + 1);
            |t.pq| - |t.cameFrom| == |s.pq| - |s.cameFrom| - 1
  {
    RunStep(g, m, b0, start, end, k + 1);
  }

  /** Every state the search reaches satisfies the invariants. */
  lemma {:induction false} RunKeeps(g: Grid, m: WallMap, b0: Board, start: Coord, end: Coord, k: nat)
    requires g.Shaped(m) && g.Shaped(b0) && m == WallsOf(b0) && g.InBounds(start)
    ensures Inv(g, m, Run(g, b0, start, end, k), start, end)
    decreases k, 1
  {
    if k == 0 {
      RunStart(g, m, b0, start, end);
    } else {
      RunNext(g, m, b0, start, end, k);
    }
  }

  /** The search starts in a state that satisfies the invariants. */
  lemma RunStart(g: Grid, m: WallMap, b0: Board, start: Coord, end: Coord)
    requires g.Shaped(m) && g.Shaped(b0) && g.InBounds(start)
    ensures Inv(g, m, Run(g, b0, start, end, 0), start, end)
  {
    InitKeeps(g, m, start, end);
    assert Run(g, b0, start, end, 0) == Init(start);
  }

  /** The state after a round, taken or not, satisfies the invariants. */
  lemma {:induction false} RunNext(g: Grid, m: WallMap, b0: Board, start: Coord, end: Coord, k: nat)
    requires g.Shaped(m) && g.Shaped(b0) && m == WallsOf(b0) && g.InBounds(start) && k > 0
    ensures Inv(g, m, Run(g, b0, start, end, k), start, end)
    decreases k, 0
  {
    RunKeeps(g, m, b0, start, end, k - 1);
    var p := Run(g, b0, start, end, k - 1);
    if !Stopped(p, end) {
      RunStep(g, m, b0, start, end, k);
    } else {
      assert Run(g, b0, start, end, k) == p;
    }
  }

  /**
   * What the main loop needs of the state after k rounds: the least entry
   * of its heap is on the grid with its distance recorded, and a further
   * round shortens the heap-minus-records count.
   */
  lemma RunBounds(g: Grid, b0: Board, start: Coord, end: Coord, k: nat)
    requires g.Shaped(b0) && g.InBounds(start)
    ensures var s := Run(g, b0, start, end, k);
            && (|s.pq| > 0 ==> g.InBounds(Least(s.pq).at))
            && |s.cameFrom| <= |g.AllCoords()|
            && (!Stopped(s, end) ==>
                  |Run(g, b0, start, end, k + 1).pq| - |Run(g, b0, start, end, k + 1).cameFrom| == |s.pq| - |s.cameFrom| - 1)
  {
    var m := WallsOf(b0);
    RunKeeps(g, m, b0, start, end, k);
    var s := Run(g, b0, start, end, k);
    FewKeys(g, s.cameFrom);
    if !Stopped(s, end) {
      RunShrinks(g, m, b0, start, end, k);
    }
  }

  /**
   * What a stopped search has established: its came-from links form a
   * search tree ranked by distance; end was recorded exactly when it is
   * reachable, and then at the length of a shortest route.
   */
  lemma RunOutcome(g: Grid, b0: Board, start: Coord, end: Coord, k: nat)
    requires g.Shaped(b0) && g.InBounds(start) && Stopped(Run(g, b0, start, end, k), end)
    ensures var s := Run(g, b0, start, end, k);
            && Tree(g, WallsOf(b0), s.cameFrom, s.dist, s.exp, start)
            && Chained(s.cameFrom, s.dist) && (forall c :: c in s.cameFrom ==> g.InBounds(c))
            && (end !in s.cameFrom ==> !Reachable(g, WallsOf(b0), start, end))
            && (end in s.cameFrom ==> forall P :: Connects(g, WallsOf(b0), P, start, end) ==> s.dist[end] + 1 <= |P|)
  {
    var m := WallsOf(b0);
    RunKeeps(g, m, b0, start, end, k);
    var s := Run(g, b0, start, end, k);
    TreeChained(g, m, s.cameFrom, s.dist, s.exp, start);
    assert |s.pq| > 0 ==> Least(s.pq).at in s.cameFrom;
    if end !in s.cameFrom {
      ClosedUnreachable(g, m, s.cameFrom, s.dist, s.exp, start, end);
    } else {
      var e := Least(s.pq);
      assert Entry(s.dist[end], end) in s.pq;
      forall c | c in s.cameFrom && c !in s.exp ensures s.dist[end] <= s.dist[c] {
        assert Below(e, Entry(s.dist[c], c));
      }
      forall P | Connects(g, m, P, start, end) ensures s.dist[end] + 1 <= |P| {
        LevelIsShortest(g, m, s.cameFrom, s.dist, s.exp, start, end, P);
      }
    }
  }

  /**
   * The path read off a stopped search: empty exactly when end cannot be
   * reached, and otherwise a shortest route from start to end.
   */
  lemma PathOutcome(g: Grid, b0: Board, start: Coord, end: Coord, k: nat, path: seq<Coord>)
    requires g.Shaped(b0) && g.InBounds(start) && Stopped(Run(g, b0, start, end, k), end)
    requires path == [] <==> end !in Run(g, b0, start, end, k).cameFrom
    requires path != [] ==> FollowsLinks(Run(g, b0, start, end, k).cameFrom, path) && path[|path| - 1] == end
    ensures path != [] ==> Connects(g, WallsOf(b0), path, start, end)
    ensures path == [] <==> !Reachable(g, WallsOf(b0), start, end)
    ensures forall P :: Connects(g, WallsOf(b0), P, start, end) ==> |path| <= |P|
  {
    var s := Run(g, b0, start, end, k);
    RunOutcome(g, b0, start, end, k);
    if path != [] {
      TreeChainConnects(g, WallsOf(b0), s.cameFrom, s.dist, s.exp, start, path);
    }
  }
}

/**
 * Dijkstra's algorithm over the open passages of the maze
 * (model/solvers/dijkstra.py): a heap of (distance, (x, y)) entries,
 * distances and came_from keyed by position, relaxation of every open
 * neighbour of the popped cell.
 */
module Dijkstra {
  import opened Options
  import opened Cells
  import opened Grids
  import opened Search
  import opened DijkstraHeap
  import opened DijkstraSpec

  /**
   * Searches from start until end is popped or the heap runs dry, then
   * walks the came-from links back from end. Whatever the flags on the
   * grid, the path is empty exactly when end cannot be reached, and
   * otherwise a shortest route from start to end.
   */
  method Solve(grid: Grid, start: Coord, end: Coord) returns (path: seq<Coord>)
    requires grid.Valid() && grid.InBounds(start) && grid.InBounds(end)
    modifies grid`cells
    ensures grid.Valid()
    ensures Unsolved(grid.cells) == Unsolved(old(grid.cells)) && WallsOf(grid.cells) == WallsOf(old(grid.cells))
    ensures path != [] ==> Connects(grid, WallsOf(old(grid.cells)), path, start, end)
    ensures Marked(grid.cells, set c | c in path)
    ensures path == [] <==> !Reachable(grid, WallsOf(old(grid.cells)), start, end)
    ensures forall P :: Connects(grid, WallsOf(old(grid.cells)), P, start, end) ==> |path| <= |P|
    ensures exists k: nat :: Stopped(Run(grid, old(grid.cells), start, end, k), end)
              && FlagsMatch(grid, grid.cells, old(grid.cells), Run(grid, old(grid.cells), start, end, k).cameFrom)
    ensures MarkedOn(grid, grid.cells, old(grid.cells), set c | c in path)
  {
    ghost var b0 := grid.cells;
    var cameFrom, distances, k := Explore(grid, start, end);
    RunOutcome(grid, b0, start, end, k);
    ghost var b1 := grid.cells;
    path := Reconstruct(grid, cameFrom, end, distances);
    SameMazeTrans(grid.cells, b1, b0);
    SameMazeViews(grid.cells, b0);
    PathOutcome(grid, b0, start, end, k, path);
    SolvedFlags(grid, grid.cells, b1, b0, cameFrom.Keys, set c | c in path);
  }

  /**
   * The main loop: pops the least entry, stops when its cell is end, and
   * otherwise relaxes the cell's open neighbours. On leaving it the search
   * is in the stopped state Run(k).
   */
  method Explore(grid: Grid, start: Coord, end: Coord) returns (cameFrom: CameFrom, distances: map<Coord, nat>, ghost k: nat)
    requires grid.Valid() && grid.InBounds(start) && grid.InBounds(end)
    modifies grid`cells
    ensures grid.Valid() && grid.Shaped(old(grid.cells)) && SameMaze(grid.cells, old(grid.cells))
    ensures Stopped(Run(grid, old(grid.cells), start, end, k), end)
    ensures cameFrom == Run(grid, old(grid.cells), start, end, k).cameFrom
    ensures distances == Run(grid, old(grid.cells), start, end, k).dist
    ensures FlagsMatch(grid, grid.cells, old(grid.cells), cameFrom)
    ensures PathMarks(grid.cells) == PathMarks(old(grid.cells))
  {
    ghost var b0 := grid.cells;
    var pq := multiset{Entry(0, start)};
    distances := map[start := 0];
    cameFrom := map[start := None];
    FlagDiscovered(grid, grid.cells, b0, map[], start, None);
    SetFlags(grid, start, grid.cells[start.x][start.y].(visitedBySolver := true, inFrontier := true));
    k := 0;
    ghost var N := |grid.AllCoords()|;
    RunBounds(grid, b0, start, end, k);
    while |pq| > 0
      invariant grid.Valid() && SameMaze(grid.cells, b0) && FlagsMatch(grid, grid.cells, b0, cameFrom)
      invariant PathMarks(grid.cells) == PathMarks(b0)
      invariant pq == Run(grid, b0, start, end, k).pq && cameFrom == Run(grid, b0, start, end, k).cameFrom
      invariant distances == Run(grid, b0, start, end, k).dist
      invariant |cameFrom| <= N
      decreases N - |cameFrom| + |pq|
    {
      RunBounds(grid, b0, start, end, k);
      ghost var sk := Run(grid, b0, start, end, k);
      ghost var top := Least(pq);
      var e :| IsLeast(e, pq);
      LeastUnique(e, top, pq);
      pq := pq - multiset{e};
      var dist, current := e.dist, e.at;
      FlagUntouched(grid, grid.cells, b0, cameFrom, current, grid.cells[current.x][current.y].(inFrontier := false));
      ghost var b1 := grid.cells;
      SetFlags(grid, current, grid.cells[current.x][current.y].(inFrontier := false));
      SameMazeTrans(grid.cells, b1, b0);
      if current == end {
        break;
      }
      assert Run(grid, b0, start, end, k + 1) == Expand(grid, b0, sk);
      pq, distances, cameFrom := Relaxations(grid, current, dist, pq, distances, cameFrom, b0, Pop(sk));
      k := k + 1;
      RunBounds(grid, b0, start, end, k);
    }
  }

  /**
   * The inner loop: each open neighbour of current that has no distance
   * yet, or a larger one than dist + 1, gets dist + 1, is linked back to
   * current, flagged and pushed, as RelaxFrom describes.
   */
  method Relaxations(grid: Grid, current: Coord, dist: nat, pq0: multiset<Entry>, dist0: map<Coord, nat>, cameFrom0: CameFrom,
                     ghost b0: Board, ghost s0: St)
    returns (pq: multiset<Entry>, distances: map<Coord, nat>, cameFrom: CameFrom)
    requires grid.Valid() && grid.Shaped(b0) && SameMaze(grid.cells, b0) && grid.InBounds(current)
    requires pq0 == s0.pq && dist0 == s0.dist && cameFrom0 == s0.cameFrom && dist == s0.lvl
    requires FlagsMatch(grid, grid.cells, b0, cameFrom0)
    modifies grid`cells
    ensures grid.Valid() && SameMaze(grid.cells, b0) && FlagsMatch(grid, grid.cells, b0, cameFrom)
    ensures PathMarks(grid.cells) == PathMarks(old(grid.cells))
    ensures pq == RelaxFrom(s0, current, OpenAt(grid, b0, current), |OpenAt(grid, b0, current)|).pq
    ensures distances == RelaxFrom(s0, current, OpenAt(grid, b0, current), |OpenAt(grid, b0, current)|).dist
    ensures cameFrom == RelaxFrom(s0, current, OpenAt(grid, b0, current), |OpenAt(grid, b0, current)|).cameFrom
  {
    var ns := grid.GetAccessibleNeighbors(current);
    grid.AccessibleFacts(current);
    OpenAtSameWalls(grid, grid.cells, b0, current);
    pq, distances, cameFrom := pq0, dist0, cameFrom0;
    for i := 0 to |ns|
      invariant grid.Valid() && SameMaze(grid.cells, b0) && FlagsMatch(grid, grid.cells, b0, cameFrom)
      invariant PathMarks(grid.cells) == PathMarks(old(grid.cells))
      invariant pq == RelaxFrom(s0, current, ns, i).pq && distances == RelaxFrom(s0, current, ns, i).dist
      invariant cameFrom == RelaxFrom(s0, current, ns, i).cameFrom
    {
      assert ns[i] in ns;
      RelaxFromShape(s0, current, ns, i);
      pq, distances, cameFrom := RelaxOne(grid, current, ns[i], dist, pq, distances, cameFrom, b0, RelaxFrom(s0, current, ns, i));
    }
  }

  /**
   * One pass of the inner loop for the neighbour n: when n has no distance
   * yet or a larger one than dist + 1, it gets dist + 1, is linked back to
   * current, flagged and pushed, as Relax describes.
   */
  method RelaxOne(grid: Grid, current: Coord, n: Coord, dist: nat, pq0: multiset<Entry>, dist0: map<Coord, nat>, cameFrom0: CameFrom,
                  ghost b0: Board, ghost p: St)
    returns (pq: multiset<Entry>, distances: map<Coord, nat>, cameFrom: CameFrom)
    requires grid.Valid() && grid.Shaped(b0) && SameMaze(grid.cells, b0) && grid.InBounds(n)
    requires pq0 == p.pq && dist0 == p.dist && cameFrom0 == p.cameFrom && dist == p.lvl
    requires FlagsMatch(grid, grid.cells, b0, cameFrom0)
    modifies grid`cells
    ensures grid.Valid() && SameMaze(grid.cells, b0) && FlagsMatch(grid, grid.cells, b0, cameFrom)
    ensures PathMarks(grid.cells) == PathMarks(old(grid.cells))
    ensures pq == Relax(p, current, n).pq && distances == Relax(p, current, n).dist && cameFrom == Relax(p, current, n).cameFrom
  {
    pq, distances, cameFrom := pq0, dist0, cameFrom0;
    var newDist := dist + 1;
    if n !in distances || newDist < distances[n] {
      distances := distances[n := newDist];
      FlagDiscovered(grid, grid.cells, b0, cameFrom, n, Some(current));
      cameFrom := cameFrom[n := Some(current)];
      ghost var b1 := grid.cells;
      SetFlags(grid, n, grid.cells[n.x][n.y].(visitedBySolver := true, inFrontier := true));
      SameMazeTrans(grid.cells, b1, b0);
      pq := pq + multiset{Entry(newDist, n)};
    }
  }
}
