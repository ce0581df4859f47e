/**
 * The invariants of the breadth-first search of Bfs, and the steps that
 * keep them: its queue in level order and the closure of what it has
 * expanded.
 */
module BfsQueue {
  import opened Options
  import opened Cells
  import opened Grids
  import opened Search

  /** Every queued cell is discovered, unexpanded, and at level lvl or lvl + 1. */
  ghost predicate Queued(q: seq<Coord>, cf: CameFrom, d: map<Coord, nat>, exp: set<Coord>, lvl: nat) {
    forall i :: 0 <= i < |q| ==> q[i] in cf && q[i] in d && q[i] !in exp && lvl <= d[q[i]] <= lvl + 1
  }

  /** The queue holds each cell once, in nondecreasing level. */
  ghost predicate Ordered(q: seq<Coord>, d: map<Coord, nat>)
    requires forall i :: 0 <= i < |q| ==> q[i] in d
  {
    forall i, j :: 0 <= i < j < |q| ==> q[i] != q[j] && d[q[i]] <= d[q[j]]
  }

  /**
   * The queue of a breadth-first search: exactly the discovered cells not
   * yet expanded, each once, in level order, lvl being the level of the
   * cell last taken off it; end has not been expanded.
   */
  ghost predicate Frontier(q: seq<Coord>, cf: CameFrom, d: map<Coord, nat>, exp: set<Coord>, lvl: nat, end: Coord) {
    && Queued(q, cf, d, exp, lvl) && Ordered(q, d) && Covers(q, cf, exp) && Levels(d, exp, lvl)
    && end !in exp
  }

  /** Taking the head off the queue to expand it keeps the queue's order, at the head's level. */
  lemma PopFrontier(q: seq<Coord>, cf: CameFrom, d: map<Coord, nat>, exp: set<Coord>, lvl: nat, end: Coord)
    requires Frontier(q, cf, d, exp, lvl, end) && |q| > 0 && q[0] != end
    ensures Frontier(q[1..], cf, d, exp + {q[0]}, d[q[0]], end)
  {
    var q' := q[1..];
    assert Queued(q', cf, d, exp + {q[0]}, d[q[0]]) by {
      forall i | 0 <= i < |q'| ensures q'[i] in cf && q'[i] in d && q'[i] !in exp + {q[0]} && d[q[0]] <= d[q'[i]] <= d[q[0]] + 1 {
        assert q'[i] == q[i + 1];
      }
    }
    assert Ordered(q', d) by {
      forall i, j | 0 <= i < j < |q'| ensures q'[i] != q'[j] && d[q'[i]] <= d[q'[j]] {
        assert q'[i] == q[i + 1] && q'[j] == q[j + 1];
      }
    }
    assert Covers(q', cf, exp + {q[0]}) by {
      forall c | c in cf && c !in exp + {q[0]} ensures c in q' {
        var i :| 0 <= i < |q| && q[i] == c;
        assert q'[i - 1] == c;
      }
    }
  }

  /** Queueing the newly discovered n at level lvl + 1 keeps the queue's order. */
  lemma PushFrontier(q: seq<Coord>, cf: CameFrom, d: map<Coord, nat>, exp: set<Coord>, lvl: nat, end: Coord, n: Coord, p: Option<Coord>)
    requires Frontier(q, cf, d, exp, lvl, end) && n !in cf && n !in d && exp <= cf.Keys
    ensures Frontier(q + [n], cf[n := p], d[n := lvl + 1], exp, lvl, end)
  {
    var q', cf', d' := q + [n], cf[n := p], d[n := lvl + 1];
    assert Queued(q', cf', d', exp, lvl) by {
      forall i | 0 <= i < |q'| ensures q'[i] in cf' && q'[i] in d' && q'[i] !in exp && lvl <= d'[q'[i]] <= lvl + 1 {
        if i < |q| { assert q'[i] == q[i]; }
      }
    }
    assert Ordered(q', d') by {
      forall i, j | 0 <= i < j < |q'| ensures q'[i] != q'[j] && d'[q'[i]] <= d'[q'[j]] {
        assert q'[i] == q[i];
        if j < |q| { assert q'[j] == q[j]; }
      }
    }
    assert Covers(q', cf', exp) by {
      forall c | c in cf' && c !in exp ensures c in q' {
        if c != n { var i :| 0 <= i < |q| && q[i] == c; assert q'[i] == c; }
        else { assert q'[|q|] == n; }
      }
    }
  }

}

/**
 * The breadth-first search of model/solvers/bfs.py as a function of the
 * maze: its state after each round of the main loop, and the invariants
 * that state keeps.
 */
module BfsSpec {
  import opened Options
  import opened Cells
  import opened Grids
  import opened Search
  import opened BfsQueue
  import opened Discovery

  /** The head of the queue taken off it, before its neighbours are visited. */
  function Pop(s: St): St
    requires |s.pending| > 0
  {
    var cur := s.pending[0];
    s.(pending := s.pending[1..], exp := s.exp + {cur}, lvl := if cur in s.d then s.d[cur] else 0)
  }

  /** One round of the main loop for a head other than end: pop it, visit its open neighbours. */
  ghost function Expand(g: Grid, b0: Board, s: St): St
    requires g.Shaped(b0) && |s.pending| > 0
  {
    Expanded(g, b0, Pop(s), s.pending[0])
  }

  /** The main loop is over: the queue ran dry or end is at its head. */
  predicate Stopped(s: St, end: Coord) {
    |s.pending| == 0 || s.pending[0] == end
  }

  /** The state after k rounds, a stopped state staying as it is. */
  ghost function Run(g: Grid, b0: Board, start: Coord, end: Coord, k: nat): St
    requires g.Shaped(b0)
    decreases k, 1
  {
    Rounds(g, b0, start, end, k)
  }

  /**
   * The k-th round spelled out. Run is defined through Rounds so that a
   * statement about Run(k) does not by itself open up the round that made it.
   */
  ghost function Rounds(g: Grid, b0: Board, start: Coord, end: Coord, k: nat): St
    requires g.Shaped(b0)
    decreases k, 0
  {
    if k == 0 then Init(start)
    else
      var p := Run(g, b0, start, end, k - 1);
      if Stopped(p, end) then p else Expand(g, b0, p)
  }

  /**
   * What every state of the search satisfies: the came-from links form a
   * search tree, the queue is its frontier in level order, and when no
   * cell was flagged beforehand everything one step from an expanded cell
   * has been discovered.
   */
  ghost predicate Inv(g: Grid, m: WallMap, b0: Board, s: St, start: Coord, end: Coord)
    requires g.Shaped(m) && g.Shaped(b0)
  {
    && Tree(g, m, s.cameFrom, s.d, s.exp, start)
    && Frontier(s.pending, s.cameFrom, s.d, s.exp, s.lvl, end)
    && (NoneFlagged(b0) ==> Closed(g, m, s.cameFrom, s.d, s.exp))
  }


  /** Visiting neighbours keeps the queue the level-ordered frontier of what has been discovered. */
  lemma {:induction false} VisitFromFrontier(g: Grid, b0: Board, s: St, cur: Coord, ns: seq<Coord>, i: nat, end: Coord)
    requires g.Shaped(b0) && i <= |ns|
    requires Frontier(s.pending, s.cameFrom, s.d, s.exp, s.lvl, end) && s.d.Keys == s.cameFrom.Keys && s.exp <= s.cameFrom.Keys
    ensures var t := VisitFrom(g, b0, s, cur, ns, i);
            && Frontier(t.pending, t.cameFrom, t.d, t.exp, t.lvl, end) && t.d.Keys == t.cameFrom.Keys && t.exp <= t.cameFrom.Keys
  {
    if i > 0 {
      VisitFromFrontier(g, b0, s, cur, ns, i - 1, end);
      var p := VisitFrom(g, b0, s, cur, ns, i - 1);
      if !Seen(g, b0, p.cameFrom, ns[i - 1]) {
        PushFrontier(p.pending, p.cameFrom, p.d, p.exp, p.lvl, end, ns[i - 1], Some(cur));
      }
    }
  }

  /** On a maze with no cell flagged, visiting the first i neighbours of cur accounts for the passages to them. */
  lemma {:induction false} VisitFromClosed(g: Grid, m: WallMap, b0: Board, s: St, cur: Coord, ns: seq<Coord>, i: nat)
    requires g.Shaped(m) && g.Shaped(b0) && i <= |ns| && NoneFlagged(b0)
    requires ClosedBut(g, m, s.cameFrom, s.d, s.exp, cur, {}) && cur in s.d && s.d[cur] == s.lvl
    requires Levels(s.d, s.exp, s.lvl) && s.d.Keys == s.cameFrom.Keys
    ensures var t := VisitFrom(g, b0, s, cur, ns, i);
            && ClosedBut(g, m, t.cameFrom, t.d, t.exp, cur, Listed(ns, i)) && cur in t.d && t.d[cur] == t.lvl
            && Levels(t.d, t.exp, t.lvl) && t.d.Keys == t.cameFrom.Keys
  {
    if i > 0 {
      VisitFromClosed(g, m, b0, s, cur, ns, i - 1);
      var p := VisitFrom(g, b0, s, cur, ns, i - 1);
      var n := ns[i - 1];
      if !Seen(g, b0, p.cameFrom, n) {
        PushClosed(g, m, p.cameFrom, p.d, p.exp, cur, n, Listed(ns, i - 1));
      } else {
        Skip(g, m, p.cameFrom, p.d, p.exp, p.lvl, cur, n, Listed(ns, i - 1));
      }
    }
  }

  /** The initial state satisfies the invariants. */
  lemma InitKeeps(g: Grid, m: WallMap, b0: Board, start: Coord, end: Coord)
    requires g.Shaped(m) && g.Shaped(b0) && g.InBounds(start)
    ensures Inv(g, m, b0, Init(start), start, end)
  {
  }

  /** A round of the main loop keeps the invariants, taking one entry off the queue for good. */
  lemma ExpandKeeps(g: Grid, m: WallMap, b0: Board, s: St, start: Coord, end: Coord)
    requires g.Shaped(m) && g.Shaped(b0) && m == WallsOf(b0) && Inv(g, m, b0, s, start, end) && !Stopped(s, end)
    ensures Inv(g, m, b0, Expand(g, b0, s), start, end)
    ensures |Expand(g, b0, s).pending| - |Expand(g, b0, s).cameFrom| == |s.pending| - |s.cameFrom| - 1
  {
    var cur := s.pending[0];
    PopFrontier(s.pending, s.cameFrom, s.d, s.exp, s.lvl, end);
    TreeExpand(g, m, s.cameFrom, s.d, s.exp, start, cur);
    if NoneFlagged(b0) {
      PopClosed(g, m, s.cameFrom, s.d, s.exp, cur);
    }
    var ns := OpenAt(g, b0, cur);
    OpenAtPassable(g, b0, m, cur);
    VisitFromShape(g, b0, Pop(s), cur, ns, |ns|);
    VisitFromTree(g, m, b0, Pop(s), cur, ns, |ns|, start);
    VisitFromFrontier(g, b0, Pop(s), cur, ns, |ns|, end);
    if NoneFlagged(b0) {
      VisitFromClosed(g, m, b0, Pop(s), cur, ns, |ns|);
      ListedAll(ns, |ns|);
      var t := Expand(g, b0, s);
      assert forall v :: g.Passable(m, cur, v) ==> v in Listed(ns, |ns|);
      CloseOff(g, m, t.cameFrom, t.d, t.exp, cur, Listed(ns, |ns|));
    }
  }

  /** A round taken from a state that satisfies the invariants and has not stopped keeps them. */
  lemma RunStep(g: Grid, m: WallMap, b0: Board, start: Coord, end: Coord, k: nat)
    requires g.Shaped(m) && g.Shaped(b0) && m == WallsOf(b0) && k > 0
    requires Inv(g, m, b0, Run(g, b0, start, end, k - 1), start, end) && !Stopped(Run(g, b0, start, end, k - 1), end)
    ensures Inv(g, m, b0, Run(g, b0, start, end, k), start, end)
    ensures var s, t := Run(g, b0, start, end, k - 1), Run(g, b0, start, end, k);
            |t.pending| - |t.cameFrom| == |s.pending| - |s.cameFrom| - 1
  {
    var s := Run(g, b0, start, end, k - 1);
    ExpandKeeps(g, m, b0, s, start, end);
    assert Run(g, b0, start, end, k) == Expand(g, b0, s);
  }

  /** A round taken from a state that has not stopped shortens the queue-minus-records count. */
  lemma RunShrinks(g: Grid, m: WallMap, b0: Board, start: Coord, end: Coord, k: nat)
    requires g.Shaped(m) && g.Shaped(b0) && m == WallsOf(b0)
    requires Inv(g, m, b0, Run(g, b0, start, end, k), start, end) && !Stopped(Run(g, b0, start, end, k), end)
    ensures var s, t := Run(g, b0, start, end, k), Run(g, b0, start, end, k + 1);
            |t.pending| - |t.cameFrom| == |s.pending| - |s.cameFrom| - 1
  {
    RunStep(g, m, b0, start, end, k + 1);
  }

  /** Every state the search reaches satisfies the invariants. */
  lemma {:induction false} RunKeeps(g: Grid, m: WallMap, b0: Board, start: Coord, end: Coord, k: nat)
    requires g.Shaped(m) && g.Shaped(b0) && m == WallsOf(b0) && g.InBounds(start)
    ensures Inv(g, m, b0, Run(g, b0, start, end, k), start, end)
    decreases k, 1
  {
    if k == 0 {
      RunStart(g, m, b0, start, end);
    } else {
      RunNext(g, m, b0, start, end, k);
    }
  }

  /** The search starts in a state that satisfies the invariants. */
  lemma RunStart(g: Grid, m: WallMap, b0: Board, start: Coord, end: Coord)
    requires g.Shaped(m) && g.Shaped(b0) && g.InBounds(start)
    ensures Inv(g, m, b0, Run(g, b0, start, end, 0), start, end)
  {
    InitKeeps(g, m, b0, start, end);
    assert Run(g, b0, start, end, 0) == Init(start);
  }

  /** The state after a round, taken or not, satisfies the invariants. */
  lemma {:induction false} RunNext(g: Grid, m: WallMap, b0: Board, start: Coord, end: Coord, k: nat)
    requires g.Shaped(m) && g.Shaped(b0) && m == WallsOf(b0) && g.InBounds(start) && k > 0
    ensures Inv(g, m, b0, Run(g, b0, start, end, k), start, end)
    decreases k, 0
  {
    RunKeeps(g, m, b0, start, end, k - 1);
    var p := Run(g, b0, start, end, k - 1);
    if !Stopped(p, end) {
      RunStep(g, m, b0, start, end, k);
    } else {
      assert Run(g, b0, start, end, k) == p;
    }
  }

  /**
   * What the main loop needs of the state after k rounds: its cells are on
   * the grid, and a further round shortens the queue-minus-records count.
   */
  lemma RunBounds(g: Grid, b0: Board, start: Coord, end: Coord, k: nat)
    requires g.Shaped(b0) && g.InBounds(start)
    ensures var s := Run(g, b0, start, end, k);
            && (forall i :: 0 <= i < |s.pending| ==> g.InBounds(s.pending[i]))
            && |s.cameFrom| <= |g.AllCoords()|
            && (!Stopped(s, end) ==>
                  |Run(g, b0, start, end, k + 1).pending| - |Run(g, b0, start, end, k + 1).cameFrom| == |s.pending| - |s.cameFrom| - 1)
  {
    var m := WallsOf(b0);
    RunKeeps(g, m, b0, start, end, k);
    var s := Run(g, b0, start, end, k);
    FewKeys(g, s.cameFrom);
    if !Stopped(s, end) {
      RunShrinks(g, m, b0, start, end, k);
    }
  }

  /**
   * What a stopped search has established: its came-from links form a
   * search tree, and on a maze with no cell flagged beforehand end was
   * recorded exactly when it is reachable, at the length of a shortest route.
   */
  lemma RunOutcome(g: Grid, b0: Board, start: Coord, end: Coord, k: nat)
    requires g.Shaped(b0) && g.InBounds(start) && Stopped(Run(g, b0, start, end, k), end)
    ensures var s := Run(g, b0, start, end, k);
            && Tree(g, WallsOf(b0), s.cameFrom, s.d, s.exp, start)
            && (NoneFlagged(b0) && end !in s.cameFrom ==> !Reachable(g, WallsOf(b0), start, end))
            && (NoneFlagged(b0) && end in s.cameFrom ==>
                  forall P :: Connects(g, WallsOf(b0), P, start, end) ==> s.d[end] + 1 <= |P|)
  {
    var m := WallsOf(b0);
    RunKeeps(g, m, b0, start, end, k);
    var s := Run(g, b0, start, end, k);
    if NoneFlagged(b0) {
      if |s.pending| == 0 {
        ClosedUnreachable(g, m, s.cameFrom, s.d, s.exp, start, end);
      } else {
        var q := s.pending;
        forall c | c in s.cameFrom && c !in s.exp ensures s.d[end] <= s.d[c] {
          var j :| 0 <= j < |q| && q[j] == c;
          if j > 0 { assert s.d[q[0]] <= s.d[q[j]]; }
        }
        forall P | Connects(g, m, P, start, end) ensures s.d[end] + 1 <= |P| {
          LevelIsShortest(g, m, s.cameFrom, s.d, s.exp, start, end, P);
        }
      }
    }
  }

  /** The came-from links of every state of the search are ranked by level and stay on the grid. */
  lemma RunChained(g: Grid, b0: Board, start: Coord, end: Coord, k: nat)
    requires g.Shaped(b0) && g.InBounds(start)
    ensures var s := Run(g, b0, start, end, k);
            Chained(s.cameFrom, s.d) && forall c :: c in s.cameFrom ==> g.InBounds(c)
  {
    var s := Run(g, b0, start, end, k);
    RunKeeps(g, WallsOf(b0), b0, start, end, k);
    TreeChained(g, WallsOf(b0), s.cameFrom, s.d, s.exp, start);
  }

  /**
   * The path read off a stopped search: a route from start to end when not
   * empty; and on a maze with no cell flagged beforehand, empty exactly
   * when end cannot be reached, and otherwise a shortest route.
   */
  lemma PathOutcome(g: Grid, b0: Board, start: Coord, end: Coord, k: nat, path: seq<Coord>)
    requires g.Shaped(b0) && g.InBounds(start) && Stopped(Run(g, b0, start, end, k), end)
    requires path == [] <==> end !in Run(g, b0, start, end, k).cameFrom
    requires path != [] ==> FollowsLinks(Run(g, b0, start, end, k).cameFrom, path) && path[|path| - 1] == end
    ensures path != [] ==> Connects(g, WallsOf(b0), path, start, end)
    ensures NoneFlagged(b0) ==> (path == [] <==> !Reachable(g, WallsOf(b0), start, end))
    ensures NoneFlagged(b0) ==> forall P :: Connects(g, WallsOf(b0), P, start, end) ==> |path| <= |P|
  {
    var s := Run(g, b0, start, end, k);
    RunOutcome(g, b0, start, end, k);
    if path != [] {
      TreeChainConnects(g, WallsOf(b0), s.cameFrom, s.d, s.exp, start, path);
    }
  }
}

/**
 * Breadth-first search over the open passages of the maze
 * (model/solvers/bfs.py): a first-in first-out queue, the closed set kept
 * in the cells' visited_by_solver flags, came_from links for the path.
 */
module Bfs {
  import opened Options
  import opened Cells
  import opened Grids
  import opened Search
  import opened BfsQueue
  import opened Discovery
  import opened BfsSpec

  /**
   * Searches from start until end is taken off the queue or the queue runs
   * dry, then walks the came-from links back from end. The path is a route
   * from start to end whenever it is not empty; on a maze with no cell
   * flagged beforehand it is empty exactly when end cannot be reached, and
   * otherwise no route is shorter.
   */
  method Solve(grid: Grid, start: Coord, end: Coord) returns (path: seq<Coord>)
    requires grid.Valid() && grid.InBounds(start) && grid.InBounds(end)
    modifies grid`cells
    ensures grid.Valid()
    ensures Unsolved(grid.cells) == Unsolved(old(grid.cells)) && WallsOf(grid.cells) == WallsOf(old(grid.cells))
    ensures path != [] ==> Connects(grid, WallsOf(old(grid.cells)), path, start, end)
    ensures Marked(grid.cells, set c | c in path)
    ensures NoneFlagged(old(grid.cells)) ==> (path == [] <==> !Reachable(grid, WallsOf(old(grid.cells)), start, end))
    ensures NoneFlagged(old(grid.cells)) ==>
              forall P :: Connects(grid, WallsOf(old(grid.cells)), P, start, end) ==> |path| <= |P|
    ensures exists k: nat :: Stopped(Run(grid, old(grid.cells), start, end, k), end)
              && FlagsMatch(grid, grid.cells, old(grid.cells), Run(grid, old(grid.cells), start, end, k).cameFrom)
    ensures MarkedOn(grid, grid.cells, old(grid.cells), set c | c in path)
  {
    ghost var b0 := grid.cells;
    var queue := [start];
    var cameFrom: CameFrom := map[start := None];
    FlagDiscovered(grid, grid.cells, b0, map[], start, None);
    SetFlags(grid, start, grid.cells[start.x][start.y].(visitedBySolver := true, inFrontier := true));
    ghost var k: nat := 0;
    ghost var N := |grid.AllCoords()|;
    FewKeys(grid, cameFrom);
    while |queue| > 0
      invariant grid.Valid() && SameMaze(grid.cells, b0) && FlagsMatch(grid, grid.cells, b0, cameFrom)
      invariant PathMarks(grid.cells) == PathMarks(b0)
      invariant queue == Run(grid, b0, start, end, k).pending && cameFrom == Run(grid, b0, start, end, k).cameFrom
      invariant |cameFrom| <= N
      decreases N - |cameFrom| + |queue|
    {
      RunBounds(grid, b0, start, end, k);
      var current := queue[0];
      queue := queue[1..];
      FlagUntouched(grid, grid.cells, b0, cameFrom, current, grid.cells[current.x][current.y].(inFrontier := false));
      ghost var b1 := grid.cells;
      SetFlags(grid, current, grid.cells[current.x][current.y].(inFrontier := false));
      SameMazeTrans(grid.cells, b1, b0);
      if current == end {
        break;
      }
      ghost var sk := Run(grid, b0, start, end, k);
      assert Run(grid, b0, start, end, k + 1) == Expand(grid, b0, sk);
      queue, cameFrom := Discover(grid, current, queue, cameFrom, b0, Pop(sk));
      k := k + 1;
      FewKeys(grid, cameFrom);
    }
    ghost var s := Run(grid, b0, start, end, k);
    assert Stopped(s, end);
    RunChained(grid, b0, start, end, k);
    ghost var b1 := grid.cells;
    path := Reconstruct(grid, cameFrom, end, s.d);
    SameMazeTrans(grid.cells, b1, b0);
    SameMazeViews(grid.cells, b0);
    PathOutcome(grid, b0, start, end, k, path);
    SolvedFlags(grid, grid.cells, b1, b0, cameFrom.Keys, set c | c in path);
  }
}
