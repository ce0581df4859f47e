/**
 * The search of model/solvers/astar.py as a function of the maze: its
 * state after each round of the main loop, the invariants that state
 * keeps, and the measure that shows the main loop ends.
 *
 * Next to the solver's own state the proofs keep exp, the cells expanded
 * since their g-score last fell: a cell enters it when popped and leaves
 * it when a relaxation lowers its score.
 */
module AStarSpec {
  import opened Options
  import opened Cells
  import opened Grids
  import opened Search
  import opened AStarHeap

  /**
   * The search state: the heap, the tiebreak counter, came_from, g_score
   * and, for the proofs only, exp and the cells ever popped.
   */
  datatype St = St(pq: multiset<Entry>, count: nat, cameFrom: CameFrom, g: map<Coord, nat>, exp: set<Coord>, popped: set<Coord>)

  /** Before the first round: start on the heap at priority 0 and count 0, with score 0 and no predecessor. */
  function Init(start: Coord): St {
    St(multiset{Entry(0, 0, start)}, 0, map[start := None], map[start := 0], {}, {})
  }

  /**
   * The relaxation of neighbour n of cur, gc being cur's g-score: when n
   * has no score yet or gc + 1 is strictly smaller, n gets that score,
   * the counter is incremented, n is pushed at its score plus the
   * heuristic to end under the new count, and linked to cur.
   */
  function Relax(s: St, cur: Coord, gc: nat, n: Coord, end: Coord): St {
    var ng := gc + 1;
    if n !in s.g || ng < s.g[n] then
      s.(g := s.g[n := ng], count := s.count + 1,
         pq := s.pq + multiset{Entry(ng + Heuristic(n, end), s.count + 1, n)},
         cameFrom := s.cameFrom[n := Some(cur)], exp := s.exp - {n})
    else s
  }

  /** The first i neighbours in ns of cur relaxed in turn. */
  function RelaxFrom(s: St, cur: Coord, gc: nat, ns: seq<Coord>, i: nat, end: Coord): St
    requires i <= |ns|
    decreases i, 1
  {
    Relaxed(s, cur, gc, ns, i, end)
  }

  /** RelaxFrom spelled out; the indirection keeps a statement about one count from opening up the ones before it. */
  function Relaxed(s: St, cur: Coord, gc: nat, ns: seq<Coord>, i: nat, end: Coord): St
    requires i <= |ns|
    decreases i, 0
  {
    if i == 0 then s else Relax(RelaxFrom(s, cur, gc, ns, i - 1, end), cur, gc, ns[i - 1], end)
  }

  /** The solver's four variables hold the state s. */
  ghost predicate Holds(pq: multiset<Entry>, count: nat, g: map<Coord, nat>, cf: CameFrom, s: St) {
    pq == s.pq && count == s.count && g == s.g && cf == s.cameFrom
  }

  /** The least entry taken off the heap and its cell counted as expanded and popped. */
  ghost function Pop(s: St): St
    requires |s.pq| > 0
  {
    var e := Least(s.pq);
    s.(pq := s.pq - multiset{e}, exp := s.exp + {e.at}, popped := s.popped + {e.at})
  }

  /**
   * One round of the main loop for a popped cell other than end: pop it,
   * relax its open neighbours with its g-score (every popped cell has one,
   * so the fallback 0 is never used).
   */
  ghost function Expand(grid: Grid, b0: Board, s: St, end: Coord): St
    requires grid.Shaped(b0) && |s.pq| > 0
  {
    var cur := Least(s.pq).at;
    var gc := if cur in s.g then s.g[cur] else 0;
    RelaxFrom(Pop(s), cur, gc, OpenAt(grid, b0, cur), |OpenAt(grid, b0, cur)|, end)
  }

  /** The main loop is over: the heap ran dry or end is its least entry. */
  ghost predicate Stopped(s: St, end: Coord) {
    |s.pq| == 0 || Least(s.pq).at == end
  }

  /** The state after k rounds, a stopped state staying as it is. */
  ghost function Run(grid: Grid, b0: Board, start: Coord, end: Coord, k: nat): St
    requires grid.Shaped(b0)
    decreases k, 1
  {
    Rounds(grid, b0, start, end, k)
  }

  /**
   * The k-th round spelled out. Run is defined through Rounds so that a
   * statement about Run(k) does not by itself open up the round that made it.
   */
  ghost function Rounds(grid: Grid, b0: Board, start: Coord, end: Coord, k: nat): St
    requires grid.Shaped(b0)
    decreases k, 0
  {
    if k == 0 then Init(start)
    else
      var p := Run(grid, b0, start, end, k - 1);
      if Stopped(p, end) then p else Expand(grid, b0, p, end)
  }

  /**
   * The came-from links: start is recorded with score 0 and no
   * predecessor, every other recorded cell is linked to a recorded cell
   * one open passage away with a strictly smaller score, and came_from and
   * g_score have the same keys, all on the grid.
   */
  ghost predicate Links(grid: Grid, m: WallMap, cf: CameFrom, gs: map<Coord, nat>, start: Coord)
    requires grid.Shaped(m)
  {
    && start in cf && cf[start] == None && start in gs && gs[start] == 0
    && gs.Keys == cf.Keys
    && (forall c :: c in cf ==> grid.InBounds(c))
    && (forall c :: c in cf && cf[c].None? ==> c == start)
    && (forall c, p :: c in cf && cf[c] == Some(p) ==> p in cf && p in gs && c in gs && grid.Passable(m, p, c) && gs[p] < gs[c])
  }

  /** The heap holds an entry for c at priority at most bound. */
  ghost predicate HasEntry(pq: multiset<Entry>, c: Coord, bound: nat) {
    exists e :: e in pq && e.at == c && e.priority <= bound
  }

  /** Each entry is for a scored cell, at a priority no smaller than its score plus the heuristic, the initial entry for start apart. */
  ghost predicate Entries(pq: multiset<Entry>, gs: map<Coord, nat>, start: Coord, end: Coord) {
    forall e :: e in pq ==> e.at in gs && (e.at == start || gs[e.at] + Heuristic(e.at, end) <= e.priority)
  }

  /** Every recorded cell not expanded since its score last fell has an entry at its score plus the heuristic. */
  ghost predicate Waits(pq: multiset<Entry>, cf: CameFrom, gs: map<Coord, nat>, exp: set<Coord>, end: Coord) {
    forall c :: c in cf && c !in exp ==> c in gs && HasEntry(pq, c, gs[c] + Heuristic(c, end))
  }

  /** The heap: distinct counts at most count, entries in step with the scores, and every open cell waiting. */
  ghost predicate Queue(pq: multiset<Entry>, count: nat, cf: CameFrom, gs: map<Coord, nat>, exp: set<Coord>, start: Coord, end: Coord) {
    Counted(pq, count) && Entries(pq, gs, start, end) && Waits(pq, cf, gs, exp, end)
  }

  /** What every state of the search satisfies. */
  ghost predicate Inv(grid: Grid, m: WallMap, s: St, start: Coord, end: Coord)
    requires grid.Shaped(m)
  {
    && Links(grid, m, s.cameFrom, s.g, start)
    && Queue(s.pq, s.count, s.cameFrom, s.g, s.exp, start, end)
    && Closed(grid, m, s.cameFrom, s.g, s.exp)
    && s.exp <= s.cameFrom.Keys && end !in s.exp
  }

  /** The sum of the values of m over the keys in S. */
  ghost function Sum(m: map<Coord, nat>, S: set<Coord>): nat
    requires S <= m.Keys
    decreases S
  {
    if S == {} then 0 else var c :| c in S; m[c] + Sum(m, S - {c})
  }

  /** Sum may take out any key first. */
  lemma {:induction false} SumAt(m: map<Coord, nat>, S: set<Coord>, c: Coord)
    requires S <= m.Keys && c in S
    ensures Sum(m, S) == m[c] + Sum(m, S - {c})
    decreases S
  {
    var d :| d in S && Sum(m, S) == m[d] + Sum(m, S - {d});
    if d != c {
      SumAt(m, S - {d}, c);
      SumAt(m, S - {c}, d);
      assert S - {d} - {c} == S - {c} - {d};
    }
  }

  /** Sum reads m only at the keys in S. */
  lemma {:induction false} SumAgree(m1: map<Coord, nat>, m2: map<Coord, nat>, S: set<Coord>)
    requires S <= m1.Keys && S <= m2.Keys && forall c :: c in S ==> m1[c] == m2[c]
    ensures Sum(m1, S) == Sum(m2, S)
    decreases S
  {
    if S != {} {
      var c :| c in S;
      SumAt(m1, S, c);
      SumAt(m2, S, c);
      SumAgree(m1, m2, S - {c});
    }
  }

  /** The sum of all g-scores: what a relaxation that records no new cell lowers. */
  ghost function Total(gs: map<Coord, nat>): nat {
    Sum(gs, gs.Keys)
  }

  /** Lowering one score lowers the total. */
  lemma TotalLower(gs: map<Coord, nat>, c: Coord, v: nat)
    requires c in gs && v < gs[c]
    ensures Total(gs[c := v]) < Total(gs)
  {
    var gs' := gs[c := v];
    assert gs'.Keys == gs.Keys;
    SumAt(gs', gs.Keys, c);
    SumAt(gs, gs.Keys, c);
    SumAgree(gs', gs, gs.Keys - {c});
  }

  /**
   * t is no further from the end of the search than s: it has recorded at
   * least the same cells and, if no more, its scores sum to no more, and
   * if to the same then it has the same heap.
   */
  ghost predicate Settles(s: St, t: St) {
    && s.g.Keys <= t.g.Keys
    && (t.g.Keys == s.g.Keys ==> Total(t.g) <= Total(s.g) && (Total(t.g) == Total(s.g) ==> t.pq == s.pq))
  }

  /** A round moves the search strictly forward: more cells recorded, or a lower total, or a shorter heap. */
  ghost predicate Progress(s: St, t: St) {
    && s.g.Keys <= t.g.Keys
    && (t.g.Keys == s.g.Keys ==> Total(t.g) <= Total(s.g) && (Total(t.g) == Total(s.g) ==> |t.pq| < |s.pq|))
  }

  /** Relaxing one neighbour settles. */
  lemma RelaxSettles(s: St, cur: Coord, gc: nat, n: Coord, end: Coord)
    ensures Settles(s, Relax(s, cur, gc, n, end))
  {
    var t := Relax(s, cur, gc, n, end);
    if n !in s.g {
      assert n in t.g;
    } else if gc + 1 < s.g[n] {
      TotalLower(s.g, n, gc + 1);
    }
  }

  lemma SettlesTrans(s: St, p: St, t: St)
    requires Settles(s, p) && Settles(p, t)
    ensures Settles(s, t)
  {
  }

  /** Relaxing neighbours in turn settles. */
  lemma {:induction false} RelaxFromSettles(s: St, cur: Coord, gc: nat, ns: seq<Coord>, i: nat, end: Coord)
    requires i <= |ns|
    ensures Settles(s, RelaxFrom(s, cur, gc, ns, i, end))
  {
    if i > 0 {
      var p := RelaxFrom(s, cur, gc, ns, i - 1, end);
      RelaxFromSettles(s, cur, gc, ns, i - 1, end);
      RelaxSettles(p, cur, gc, ns[i - 1], end);
      SettlesTrans(s, p, Relax(p, cur, gc, ns[i - 1], end));
    }
  }

  /** Relaxations never change which cells have been popped. */
  lemma {:induction false} RelaxFromPopped(s: St, cur: Coord, gc: nat, ns: seq<Coord>, i: nat, end: Coord)
    requires i <= |ns|
    ensures RelaxFrom(s, cur, gc, ns, i, end).popped == s.popped
  {
    if i > 0 {
      RelaxFromPopped(s, cur, gc, ns, i - 1, end);
    }
  }

  /** A round adds the popped cell to the cells ever popped, and nothing else. */
  lemma ExpandPopped(grid: Grid, b0: Board, s: St, end: Coord)
    requires grid.Shaped(b0) && |s.pq| > 0
    ensures Expand(grid, b0, s, end).popped == s.popped + {Least(s.pq).at}
  {
    var cur := Least(s.pq).at;
    var gc := if cur in s.g then s.g[cur] else 0;
    RelaxFromPopped(Pop(s), cur, gc, OpenAt(grid, b0, cur), |OpenAt(grid, b0, cur)|, end);
  }

  /** A round of the main loop moves the search forward. */
  lemma ExpandProgress(grid: Grid, b0: Board, s: St, end: Coord)
    requires grid.Shaped(b0) && |s.pq| > 0
    ensures Progress(s, Expand(grid, b0, s, end))
  {
    var cur := Least(s.pq).at;
    var gc := if cur in s.g then s.g[cur] else 0;
    var ns := OpenAt(grid, b0, cur);
    RelaxFromSettles(Pop(s), cur, gc, ns, |ns|, end);
  }

  /** Relaxing one neighbour only adds records, removes n at most from exp, and leaves cur's score alone. */
  lemma RelaxShape(s: St, cur: Coord, gc: nat, n: Coord, end: Coord)
    ensures var t := Relax(s, cur, gc, n, end);
            && s.g.Keys <= t.g.Keys && s.cameFrom.Keys <= t.cameFrom.Keys && n in t.g
            && (s.g.Keys == s.cameFrom.Keys ==> t.g.Keys == t.cameFrom.Keys)
            && t.exp <= s.exp && (n != cur && cur in s.exp ==> cur in t.exp) && t.popped == s.popped
            && (n != cur && cur in s.g ==> cur in t.g && t.g[cur] == s.g[cur])
  {
  }

  /** Relaxing neighbours of cur other than cur only adds records and leaves cur's score and expansion alone. */
  lemma {:induction false} RelaxFromShape(s: St, cur: Coord, gc: nat, ns: seq<Coord>, i: nat, end: Coord)
    requires i <= |ns| && forall k :: 0 <= k < |ns| ==> ns[k] != cur
    ensures var t := RelaxFrom(s, cur, gc, ns, i, end);
            && s.g.Keys <= t.g.Keys && s.cameFrom.Keys <= t.cameFrom.Keys
            && (s.g.Keys == s.cameFrom.Keys ==> t.g.Keys == t.cameFrom.Keys)
            && t.exp <= s.exp && (cur in s.exp ==> cur in t.exp) && t.popped == s.popped
            && (cur in s.g ==> cur in t.g && t.g[cur] == s.g[cur])
  {
    if i > 0 {
      RelaxFromShape(s, cur, gc, ns, i - 1, end);
      RelaxShape(RelaxFrom(s, cur, gc, ns, i - 1, end), cur, gc, ns[i - 1], end);
    }
  }

  /** Linking n, not start, to cur one passage away, at a score above cur's and below n's old one, keeps the links. */
  lemma LinksGrow(grid: Grid, m: WallMap, cf: CameFrom, gs: map<Coord, nat>, start: Coord, cur: Coord, n: Coord, ng: nat)
    requires grid.Shaped(m) && grid.Passable(m, cur, n) && Links(grid, m, cf, gs, start)
    requires cur in gs && gs[cur] < ng && n != start && (n !in gs || ng < gs[n])
    ensures Links(grid, m, cf[n := Some(cur)], gs[n := ng], start)
  {
    var cf', gs' := cf[n := Some(cur)], gs[n := ng];
    assert n != cur;
    forall c, p | c in cf' && cf'[c] == Some(p) ensures p in cf' && p in gs' && c in gs' && grid.Passable(m, p, c) && gs'[p] < gs'[c] {
      if c != n {
        assert cf[c] == Some(p);
      }
    }
  }

  /** Relaxing an open neighbour n of cur with cur's own score keeps the links. */
  lemma RelaxLinks(grid: Grid, m: WallMap, s: St, cur: Coord, n: Coord, start: Coord, end: Coord)
    requires grid.Shaped(m) && grid.Passable(m, cur, n)
    requires Links(grid, m, s.cameFrom, s.g, start) && cur in s.g
    ensures Links(grid, m, Relax(s, cur, s.g[cur], n, end).cameFrom, Relax(s, cur, s.g[cur], n, end).g, start)
  {
    var gc := s.g[cur];
    var t := Relax(s, cur, gc, n, end);
    if n !in s.g || gc + 1 < s.g[n] {
      assert n != start;
      LinksGrow(grid, m, s.cameFrom, s.g, start, cur, n, gc + 1);
      assert t.cameFrom == s.cameFrom[n := Some(cur)] && t.g == s.g[n := gc + 1];
    } else {
      assert t == s;
    }
  }

  /** Relaxing open neighbours of cur in turn with cur's score keeps the links. */
  lemma {:induction false} RelaxFromLinks(grid: Grid, m: WallMap, s: St, cur: Coord, ns: seq<Coord>, i: nat, start: Coord, end: Coord)
    requires grid.Shaped(m) && i <= |ns| && forall k :: 0 <= k < |ns| ==> grid.Passable(m, cur, ns[k])
    requires Links(grid, m, s.cameFrom, s.g, start) && cur in s.g
    ensures var t := RelaxFrom(s, cur, s.g[cur], ns, i, end);
            Links(grid, m, t.cameFrom, t.g, start) && cur in t.g && t.g[cur] == s.g[cur]
  {
    if i > 0 {
      var p := RelaxFrom(s, cur, s.g[cur], ns, i - 1, end);
      RelaxFromLinks(grid, m, s, cur, ns, i - 1, start, end);
      assert grid.Passable(m, cur, ns[i - 1]);
      RelaxLinks(grid, m, p, cur, ns[i - 1], start, end);
      RelaxShape(p, cur, s.g[cur], ns[i - 1], end);
    }
  }

  /** The entries after a push: each for a scored cell at a priority no smaller than its score plus the heuristic. */
  lemma PushEntries(pq: multiset<Entry>, count: nat, gs: map<Coord, nat>, start: Coord, end: Coord, n: Coord, ng: nat)
    requires Entries(pq, gs, start, end) && (n !in gs || ng < gs[n])
    ensures Entries(pq + multiset{Entry(ng + Heuristic(n, end), count + 1, n)}, gs[n := ng], start, end)
  {
    var x := Entry(ng + Heuristic(n, end), count + 1, n);
    forall e | e in pq + multiset{x} ensures e.at in gs[n := ng] && (e.at == start || gs[n := ng][e.at] + Heuristic(e.at, end) <= e.priority) {
      if e != x { assert e in pq; }
    }
  }

  /** The waiting cells after a push: n waits at its new score, the others as before. */
  lemma PushWaiting(pq: multiset<Entry>, count: nat, cf: CameFrom, gs: map<Coord, nat>, exp: set<Coord>, end: Coord, n: Coord, ng: nat, cur: Coord)
    requires Waits(pq, cf, gs, exp, end)
    ensures Waits(pq + multiset{Entry(ng + Heuristic(n, end), count + 1, n)}, cf[n := Some(cur)], gs[n := ng], exp - {n}, end)
  {
    var x := Entry(ng + Heuristic(n, end), count + 1, n);
    var pq', gs' := pq + multiset{x}, gs[n := ng];
    forall c | c in cf[n := Some(cur)] && c !in exp - {n} ensures c in gs' && HasEntry(pq', c, gs'[c] + Heuristic(c, end)) {
      if c == n {
        assert x in pq';
      } else {
        var e :| e in pq && e.at == c && e.priority <= gs[c] + Heuristic(c, end);
        assert e in pq';
      }
    }
  }

  /** Giving n the lower score ng, reopening it and pushing it under the next count keeps the heap in step. */
  lemma PushQueue(pq: multiset<Entry>, count: nat, cf: CameFrom, gs: map<Coord, nat>, exp: set<Coord>, start: Coord, end: Coord,
                  n: Coord, ng: nat, cur: Coord)
    requires Queue(pq, count, cf, gs, exp, start, end) && (n !in gs || ng < gs[n])
    ensures Queue(pq + multiset{Entry(ng + Heuristic(n, end), count + 1, n)}, count + 1, cf[n := Some(cur)], gs[n := ng], exp - {n}, start, end)
  {
    PushCounted(pq, count, ng + Heuristic(n, end), n);
    PushEntries(pq, count, gs, start, end, n, ng);
    PushWaiting(pq, count, cf, gs, exp, end, n, ng, cur);
  }

  /** Relaxing one neighbour keeps the heap in step with the scores and exp. */
  lemma RelaxQueue(s: St, cur: Coord, gc: nat, n: Coord, start: Coord, end: Coord)
    requires Queue(s.pq, s.count, s.cameFrom, s.g, s.exp, start, end)
    ensures var t := Relax(s, cur, gc, n, end);
            Queue(t.pq, t.count, t.cameFrom, t.g, t.exp, start, end)
  {
    var ng := gc + 1;
    if n !in s.g || ng < s.g[n] {
      assert Relax(s, cur, gc, n, end) == St(s.pq + multiset{Entry(ng + Heuristic(n, end), s.count + 1, n)}, s.count + 1,
                                             s.cameFrom[n := Some(cur)], s.g[n := ng], s.exp - {n}, s.popped);
      PushQueue(s.pq, s.count, s.cameFrom, s.g, s.exp, start, end, n, ng, cur);
    } else {
      assert Relax(s, cur, gc, n, end) == s;
    }
  }

  /** Relaxing neighbours in turn keeps the heap in step with the scores and exp. */
  lemma {:induction false} RelaxFromQueue(s: St, cur: Coord, gc: nat, ns: seq<Coord>, i: nat, start: Coord, end: Coord)
    requires i <= |ns| && Queue(s.pq, s.count, s.cameFrom, s.g, s.exp, start, end)
    ensures var t := RelaxFrom(s, cur, gc, ns, i, end);
            Queue(t.pq, t.count, t.cameFrom, t.g, t.exp, start, end)
  {
    if i > 0 {
      var p := RelaxFrom(s, cur, gc, ns, i - 1, end);
      RelaxFromQueue(s, cur, gc, ns, i - 1, start, end);
      RelaxQueue(p, cur, gc, ns[i - 1], start, end);
      assert RelaxFrom(s, cur, gc, ns, i, end) == Relax(p, cur, gc, ns[i - 1], end);
    }
  }

  /** Lowering the score of n to the score of cur plus one, and reopening n, accounts for the passage from cur to n. */
  lemma ImproveClosed(grid: Grid, m: WallMap, cf: CameFrom, gs: map<Coord, nat>, exp: set<Coord>, cur: Coord, n: Coord, done: set<Coord>)
    requires grid.Shaped(m) && ClosedBut(grid, m, cf, gs, exp, cur, done)
    requires cur in gs && n in gs && gs[cur] + 1 < gs[n]
    ensures ClosedBut(grid, m, cf[n := Some(cur)], gs[n := gs[cur] + 1], exp - {n}, cur, done + {n})
  {
  }

  /** Meeting n from cur with no better score for it accounts for the passage from cur to n. */
  lemma KeepClosed(grid: Grid, m: WallMap, cf: CameFrom, gs: map<Coord, nat>, exp: set<Coord>, cur: Coord, n: Coord, done: set<Coord>)
    requires grid.Shaped(m) && ClosedBut(grid, m, cf, gs, exp, cur, done)
    requires cur in gs && n in gs && n in cf && gs[n] <= gs[cur] + 1
    ensures ClosedBut(grid, m, cf, gs, exp, cur, done + {n})
  {
  }

  /** Relaxing the neighbour n of cur with cur's own score accounts for the passage to it. */
  lemma RelaxClosed(grid: Grid, m: WallMap, s: St, cur: Coord, n: Coord, done: set<Coord>, end: Coord)
    requires grid.Shaped(m) && ClosedBut(grid, m, s.cameFrom, s.g, s.exp, cur, done)
    requires cur in s.g && s.g.Keys == s.cameFrom.Keys && s.exp <= s.cameFrom.Keys
    ensures var t := Relax(s, cur, s.g[cur], n, end);
            ClosedBut(grid, m, t.cameFrom, t.g, t.exp, cur, done + {n})
  {
    var gc := s.g[cur];
    if n !in s.g {
      PushClosed(grid, m, s.cameFrom, s.g, s.exp, cur, n, done);
      assert s.exp - {n} == s.exp;
    } else if gc + 1 < s.g[n] {
      ImproveClosed(grid, m, s.cameFrom, s.g, s.exp, cur, n, done);
    } else {
      KeepClosed(grid, m, s.cameFrom, s.g, s.exp, cur, n, done);
      assert Relax(s, cur, gc, n, end) == s;
    }
  }

  /** Relaxing the first i neighbours of cur accounts for the passages to them. */
  lemma {:induction false} RelaxFromClosed(grid: Grid, m: WallMap, s: St, cur: Coord, ns: seq<Coord>, i: nat, end: Coord)
    requires grid.Shaped(m) && i <= |ns| && forall k :: 0 <= k < |ns| ==> ns[k] != cur
    requires ClosedBut(grid, m, s.cameFrom, s.g, s.exp, cur, {})
    requires cur in s.g && s.g.Keys == s.cameFrom.Keys && s.exp <= s.cameFrom.Keys
    ensures var t := RelaxFrom(s, cur, s.g[cur], ns, i, end);
            ClosedBut(grid, m, t.cameFrom, t.g, t.exp, cur, Listed(ns, i))
  {
    if i > 0 {
      var p := RelaxFrom(s, cur, s.g[cur], ns, i - 1, end);
      RelaxFromClosed(grid, m, s, cur, ns, i - 1, end);
      RelaxFromShape(s, cur, s.g[cur], ns, i - 1, end);
      RelaxClosed(grid, m, p, cur, ns[i - 1], Listed(ns, i - 1), end);
    }
  }

  /** Taking the least entry off the heap and expanding its cell keeps the heap in step. */
  lemma PopQueue(pq: multiset<Entry>, count: nat, cf: CameFrom, gs: map<Coord, nat>, exp: set<Coord>, start: Coord, end: Coord, e: Entry)
    requires Queue(pq, count, cf, gs, exp, start, end) && e in pq
    ensures Queue(pq - multiset{e}, count, cf, gs, exp + {e.at}, start, end)
  {
    var pq' := pq - multiset{e};
    PopCounted(pq, count, e);
    forall e' | e' in pq' ensures e' in pq {
    }
    forall c | c in cf && c !in exp + {e.at} ensures c in gs && HasEntry(pq', c, gs[c] + Heuristic(c, end)) {
      var e' :| e' in pq && e'.at == c && e'.priority <= gs[c] + Heuristic(c, end);
      assert e' != e;
      assert e' in pq';
    }
  }

  /** The initial state satisfies the invariants. */
  lemma InitKeeps(grid: Grid, m: WallMap, start: Coord, end: Coord)
    requires grid.Shaped(m) && grid.InBounds(start)
    ensures Inv(grid, m, Init(start), start, end)
  {
    var s := Init(start);
    assert Entry(0, 0, start) in s.pq;
    forall e | e in s.pq ensures e == Entry(0, 0, start) {
    }
  }

  /** Popping the least entry of a state that has not stopped keeps all but the closure of its cell. */
  lemma PopKeeps(grid: Grid, m: WallMap, s: St, start: Coord, end: Coord)
    requires grid.Shaped(m) && Inv(grid, m, s, start, end) && !Stopped(s, end)
    ensures var p, cur := Pop(s), Least(s.pq).at;
            && Links(grid, m, p.cameFrom, p.g, start) && cur in p.g
            && Queue(p.pq, p.count, p.cameFrom, p.g, p.exp, start, end)
            && ClosedBut(grid, m, p.cameFrom, p.g, p.exp, cur, {})
            && p.exp <= p.cameFrom.Keys && end !in p.exp && cur in p.exp
  {
    var e := Least(s.pq);
    PopQueue(s.pq, s.count, s.cameFrom, s.g, s.exp, start, end, e);
    PopClosed(grid, m, s.cameFrom, s.g, s.exp, e.at);
  }

  /** A round of the main loop keeps the invariants. */
  lemma ExpandKeeps(grid: Grid, m: WallMap, b0: Board, s: St, start: Coord, end: Coord)
    requires grid.Shaped(m) && grid.Shaped(b0) && m == WallsOf(b0) && Inv(grid, m, s, start, end) && !Stopped(s, end)
    ensures Inv(grid, m, Expand(grid, b0, s, end), start, end)
  {
    var cur := Least(s.pq).at;
    var p := Pop(s);
    PopKeeps(grid, m, s, start, end);
    var gc := p.g[cur];
    var ns := OpenAt(grid, b0, cur);
    OpenAtPassable(grid, b0, m, cur);
    assert forall k :: 0 <= k < |ns| ==> ns[k] != cur by {
      forall k | 0 <= k < |ns| ensures ns[k] != cur {
        assert grid.Passable(m, cur, ns[k]);
      }
    }
    RelaxFromShape(p, cur, gc, ns, |ns|, end);
    RelaxFromLinks(grid, m, p, cur, ns, |ns|, start, end);
    RelaxFromQueue(p, cur, gc, ns, |ns|, start, end);
    RelaxFromClosed(grid, m, p, cur, ns, |ns|, end);
    ListedAll(ns, |ns|);
    var t := Expand(grid, b0, s, end);
    assert t == RelaxFrom(p, cur, gc, ns, |ns|, end);
    assert forall v :: grid.Passable(m, cur, v) ==> v in Listed(ns, |ns|);
    CloseOff(grid, m, t.cameFrom, t.g, t.exp, cur, Listed(ns, |ns|));
  }

  /** A round taken from a state that satisfies the invariants and has not stopped keeps them. */
  lemma RunStep(grid: Grid, m: WallMap, b0: Board, start: Coord, end: Coord, k: nat)
    requires grid.Shaped(m) && grid.Shaped(b0) && m == WallsOf(b0) && k > 0
    requires Inv(grid, m, Run(grid, b0, start, end, k - 1), start, end) && !Stopped(Run(grid, b0, start, end, k - 1), end)
    ensures Inv(grid, m, Run(grid, b0, start, end, k), start, end)
  {
    var s := Run(grid, b0, start, end, k - 1);
    ExpandKeeps(grid, m, b0, s, start, end);
    assert Run(grid, b0, start, end, k) == Expand(grid, b0, s, end);
  }

  /** Every state the search reaches satisfies the invariants. */
  lemma {:induction false} RunKeeps(grid: Grid, m: WallMap, b0: Board, start: Coord, end: Coord, k: nat)
    requires grid.Shaped(m) && grid.Shaped(b0) && m == WallsOf(b0) && grid.InBounds(start)
    ensures Inv(grid, m, Run(grid, b0, start, end, k), start, end)
    decreases k, 1
  {
    if k == 0 {
      RunStart(grid, m, b0, start, end);
    } else {
      RunNext(grid, m, b0, start, end, k);
    }
  }

  /** The search starts in a state that satisfies the invariants. */
  lemma RunStart(grid: Grid, m: WallMap, b0: Board, start: Coord, end: Coord)
    requires grid.Shaped(m) && grid.Shaped(b0) && grid.InBounds(start)
    ensures Inv(grid, m, Run(grid, b0, start, end, 0), start, end)
  {
    InitKeeps(grid, m, start, end);
    assert Run(grid, b0, start, end, 0) == Init(start);
  }

  /** The state after a round, taken or not, satisfies the invariants. */
  lemma {:induction false} RunNext(grid: Grid, m: WallMap, b0: Board, start: Coord, end: Coord, k: nat)
    requires grid.Shaped(m) && grid.Shaped(b0) && m == WallsOf(b0) && grid.InBounds(start) && k > 0
    ensures Inv(grid, m, Run(grid, b0, start, end, k), start, end)
    decreases k, 0
  {
    RunKeeps(grid, m, b0, start, end, k - 1);
    var p := Run(grid, b0, start, end, k - 1);
    if !Stopped(p, end) {
      RunStep(grid, m, b0, start, end, k);
    } else {
      assert Run(grid, b0, start, end, k) == p;
    }
  }

  /** A round from a state that has not stopped moves the search forward. */
  lemma RunProgress(grid: Grid, b0: Board, start: Coord, end: Coord, k: nat)
    requires grid.Shaped(b0) && !Stopped(Run(grid, b0, start, end, k), end)
    ensures Progress(Run(grid, b0, start, end, k), Run(grid, b0, start, end, k + 1))
  {
    var s := Run(grid, b0, start, end, k);
    ExpandProgress(grid, b0, s, end);
    assert Run(grid, b0, start, end, k + 1) == Expand(grid, b0, s, end);
  }

  /** A set strictly inside another is strictly smaller. */
  lemma ProperSubsetCard(a: set<Coord>, b: set<Coord>)
    requires a <= b && a != b
    ensures |a| < |b|
  {
    var x :| x in b && x !in a;
    SubsetCard(a, b - {x});
  }

  /**
   * The main loop's measure drops with progress: fewer cells left to
   * record, or as many and a lower total score, or both the same and a
   * shorter heap.
   */
  lemma MeasureDrops(s: St, t: St, N: nat)
    requires Progress(s, t) && |t.g.Keys| <= N
    ensures |s.g.Keys| <= N
    ensures N - |t.g.Keys| < N - |s.g.Keys|
            || (|t.g.Keys| == |s.g.Keys| && (Total(t.g) < Total(s.g) || (Total(t.g) == Total(s.g) && |t.pq| < |s.pq|)))
  {
    SubsetCard(s.g.Keys, t.g.Keys);
    if s.g.Keys != t.g.Keys {
      ProperSubsetCard(s.g.Keys, t.g.Keys);
    }
  }

  /**
   * What the main loop needs of the state after k rounds: the least entry
   * of its heap is for a cell on the grid with a score, its counts are
   * distinct, it has recorded no more cells than the grid has, and a
   * further round moves the search forward.
   */
  lemma RunBounds(grid: Grid, b0: Board, start: Coord, end: Coord, k: nat)
    requires grid.Shaped(b0) && grid.InBounds(start)
    ensures var s := Run(grid, b0, start, end, k);
            && (|s.pq| > 0 ==> grid.InBounds(Least(s.pq).at) && Least(s.pq).at in s.g)
            && Counted(s.pq, s.count) && |s.g.Keys| <= |grid.AllCoords()|
            && (!Stopped(s, end) ==> Progress(s, Run(grid, b0, start, end, k + 1)))
  {
    var m := WallsOf(b0);
    RunKeeps(grid, m, b0, start, end, k);
    var s := Run(grid, b0, start, end, k);
    SubsetCard(s.g.Keys, grid.AllCoords());
    if !Stopped(s, end) {
      RunProgress(grid, b0, start, end, k);
    }
  }

  /** Following the links from start, the scores grow by at least one per link. */
  lemma {:induction false} ChainScores(grid: Grid, m: WallMap, cf: CameFrom, gs: map<Coord, nat>, start: Coord, path: seq<Coord>, n: nat)
    requires grid.Shaped(m) && Links(grid, m, cf, gs, start) && FollowsLinks(cf, path) && n < |path|
    ensures n <= gs[path[n]]
  {
    if n > 0 {
      ChainScores(grid, m, cf, gs, start, path, n - 1);
      assert cf[path[n]] == Some(path[n - 1]);
    }
  }

  /** The heuristic never overestimates: along a route it is at most the number of steps left. */
  lemma {:induction false} HeuristicAdmissible(grid: Grid, m: WallMap, P: seq<Coord>, j: nat)
    requires grid.Shaped(m) && grid.IsRoute(m, P) && j < |P|
    ensures Heuristic(P[j], P[|P| - 1]) <= |P| - 1 - j
    decreases |P| - j
  {
    if j < |P| - 1 {
      HeuristicAdmissible(grid, m, P, j + 1);
      assert grid.Passable(m, P[j], P[j + 1]);
      HeuristicFacts(P[j], P[j + 1], P[|P| - 1]);
    } else {
      HeuristicFacts(P[j], P[j], P[j]);
    }
  }

  /** Every entry but the initial one for start is at least its cell's score plus the heuristic; at end, its score. */
  lemma PoppedScore(s: St, start: Coord, end: Coord)
    requires Queue(s.pq, s.count, s.cameFrom, s.g, s.exp, start, end) && |s.pq| > 0 && Least(s.pq).at == end && end != start
    ensures end in s.g && s.g[end] <= Least(s.pq).priority
  {
    var e := Least(s.pq);
    assert s.g[end] + Heuristic(end, end) <= e.priority;
    HeuristicFacts(end, end, end);
  }

  /**
   * Some cell of a route from start to end, which has not been expanded,
   * is waiting on the heap at a priority no more than the route's last
   * index: its score is at most its position and the heuristic at most
   * the steps left.
   */
  lemma WaitingOnRoute(grid: Grid, m: WallMap, s: St, start: Coord, end: Coord, P: seq<Coord>) returns (e: Entry)
    requires grid.Shaped(m) && Inv(grid, m, s, start, end) && Connects(grid, m, P, start, end)
    ensures e in s.pq && e.priority <= |P| - 1
  {
    var j := FirstUnexpanded(grid, m, P, s.exp, s.g, 0);
    e :| e in s.pq && e.at == P[j] && e.priority <= s.g[P[j]] + Heuristic(P[j], end);
    HeuristicAdmissible(grid, m, P, j);
  }

  /**
   * When end is popped its score is no more than the length of any route
   * to it: some cell of the route is waiting on the heap at a priority no
   * more than the route's length, and end's entry came off before it.
   */
  lemma StopOptimal(grid: Grid, m: WallMap, s: St, start: Coord, end: Coord, P: seq<Coord>)
    requires grid.Shaped(m) && Inv(grid, m, s, start, end) && |s.pq| > 0 && Least(s.pq).at == end
    requires Connects(grid, m, P, start, end)
    ensures end in s.g && s.g[end] + 1 <= |P|
  {
    if end != start {
      PoppedScore(s, start, end);
      var e' := WaitingOnRoute(grid, m, s, start, end, P);
      assert Below(Least(s.pq), e');
    }
  }

  /** With the heap dry, every recorded cell has been expanded. */
  lemma DryQueue(pq: multiset<Entry>, count: nat, cf: CameFrom, gs: map<Coord, nat>, exp: set<Coord>, start: Coord, end: Coord)
    requires Queue(pq, count, cf, gs, exp, start, end) && |pq| == 0
    ensures cf.Keys <= exp
  {
    forall c | c in cf ensures c in exp {
      assert forall b :: !HasEntry(pq, c, b);
    }
  }

  /**
   * What a stopped search has established: its links are ranked by score
   * and lie on the grid; end was recorded exactly when it is reachable,
   * and then with a score no more than the length of any route to it.
   */
  lemma RunOutcome(grid: Grid, b0: Board, start: Coord, end: Coord, k: nat)
    requires grid.Shaped(b0) && grid.InBounds(start) && Stopped(Run(grid, b0, start, end, k), end)
    ensures var s := Run(grid, b0, start, end, k);
            && Links(grid, WallsOf(b0), s.cameFrom, s.g, start)
            && Chained(s.cameFrom, s.g) && (forall c :: c in s.cameFrom ==> grid.InBounds(c))
            && (end !in s.cameFrom ==> !Reachable(grid, WallsOf(b0), start, end))
            && (end in s.cameFrom ==> forall P :: Connects(grid, WallsOf(b0), P, start, end) ==> s.g[end] + 1 <= |P|)
  {
    var m := WallsOf(b0);
    RunKeeps(grid, m, b0, start, end, k);
    var s := Run(grid, b0, start, end, k);
    assert |s.pq| > 0 ==> Least(s.pq).at in s.cameFrom;
    if end !in s.cameFrom {
      DryQueue(s.pq, s.count, s.cameFrom, s.g, s.exp, start, end);
      SpreadUnreachable(grid, m, s.cameFrom, s.exp, start, end);
    } else {
      forall P | Connects(grid, m, P, start, end) ensures s.g[end] + 1 <= |P| {
        StopOptimal(grid, m, s, start, end, P);
      }
    }
  }

  /** The chain Reconstruct walks along the links is a route from start to its last cell, no longer than that cell's score plus one. */
  lemma LinksConnect(grid: Grid, m: WallMap, cf: CameFrom, gs: map<Coord, nat>, start: Coord, path: seq<Coord>)
    requires grid.Shaped(m) && Links(grid, m, cf, gs, start) && FollowsLinks(cf, path)
    ensures Connects(grid, m, path, start, path[|path| - 1])
    ensures |path| <= gs[path[|path| - 1]] + 1
  {
    ChainIsRoute(grid, m, cf, path);
    ChainScores(grid, m, cf, gs, start, path, |path| - 1);
  }

  /**
   * The path read off a stopped search: empty exactly when end cannot be
   * reached, and otherwise a shortest route from start to end.
   */
  lemma PathOutcome(grid: Grid, b0: Board, start: Coord, end: Coord, k: nat, path: seq<Coord>)
    requires grid.Shaped(b0) && grid.InBounds(start) && Stopped(Run(grid, b0, start, end, k), end)
    requires path == [] <==> end !in Run(grid, b0, start, end, k).cameFrom
    requires path != [] ==> FollowsLinks(Run(grid, b0, start, end, k).cameFrom, path) && path[|path| - 1] == end
    ensures path != [] ==> Connects(grid, WallsOf(b0), path, start, end)
    ensures path == [] <==> !Reachable(grid, WallsOf(b0), start, end)
    ensures forall P :: Connects(grid, WallsOf(b0), P, start, end) ==> |path| <= |P|
  {
    var s := Run(grid, b0, start, end, k);
    RunOutcome(grid, b0, start, end, k);
    if path != [] {
      LinksConnect(grid, WallsOf(b0), s.cameFrom, s.g, start, path);
    }
  }
}
