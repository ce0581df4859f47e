/**
 * The invariants of the depth-first search of Dfs, and the steps that
 * keep them: its stack of discovered cells and what it has expanded.
 */
module DfsStack {
  import opened Options
  import opened Cells
  import opened Grids
  import opened Search

  /** Every stacked cell is discovered and unexpanded, and none is stacked twice. */
  ghost predicate Stacked(st: seq<Coord>, cf: CameFrom, exp: set<Coord>) {
    && (forall i :: 0 <= i < |st| ==> st[i] in cf && st[i] !in exp)
    && (forall i, j :: 0 <= i < j < |st| ==> st[i] != st[j])
  }

  /**
   * The stack of a depth-first search: exactly the discovered cells not
   * yet expanded, each once; every discovered cell has a depth, every
   * expanded cell was discovered, and end has not been expanded.
   */
  ghost predicate Frontier(st: seq<Coord>, cf: CameFrom, d: map<Coord, nat>, exp: set<Coord>, end: Coord) {
    && Stacked(st, cf, exp) && Covers(st, cf, exp)
    && d.Keys == cf.Keys && exp <= cf.Keys && end !in exp
  }

  /** Taking the top off the stack to expand it keeps the stack the frontier. */
  lemma PopStack(st: seq<Coord>, cf: CameFrom, d: map<Coord, nat>, exp: set<Coord>, end: Coord)
    requires Frontier(st, cf, d, exp, end) && |st| > 0 && st[|st| - 1] != end
    ensures Frontier(st[..|st| - 1], cf, d, exp + {st[|st| - 1]}, end)
  {
    var top, st' := st[|st| - 1], st[..|st| - 1];
    assert Stacked(st', cf, exp + {top}) by {
      forall i | 0 <= i < |st'| ensures st'[i] in cf && st'[i] !in exp + {top} {
        assert st'[i] == st[i];
      }
      forall i, j | 0 <= i < j < |st'| ensures st'[i] != st'[j] {
        assert st'[i] == st[i] && st'[j] == st[j];
      }
    }
    assert Covers(st', cf, exp + {top}) by {
      forall c | c in cf && c !in exp + {top} ensures c in st' {
        var i :| 0 <= i < |st| && st[i] == c;
        assert st'[i] == c;
      }
    }
  }

  /** Pushing the newly discovered n keeps the stack the frontier. */
  lemma PushStack(st: seq<Coord>, cf: CameFrom, d: map<Coord, nat>, exp: set<Coord>, end: Coord, n: Coord, p: Option<Coord>, l: nat)
    requires Frontier(st, cf, d, exp, end) && n !in cf
    ensures Frontier(st + [n], cf[n := p], d[n := l], exp, end)
  {
    var st', cf' := st + [n], cf[n := p];
    assert Stacked(st', cf', exp) by {
      forall i | 0 <= i < |st'| ensures st'[i] in cf' && st'[i] !in exp {
        if i < |st| { assert st'[i] == st[i]; }
      }
      forall i, j | 0 <= i < j < |st'| ensures st'[i] != st'[j] {
        assert st'[i] == st[i];
        if j < |st| { assert st'[j] == st[j]; }
      }
    }
    assert Covers(st', cf', exp) by {
      forall c | c in cf' && c !in exp ensures c in st' {
        if c != n { var i :| 0 <= i < |st| && st[i] == c; assert st'[i] == c; }
        else { assert st'[|st|] == n; }
      }
    }
  }
}

/**
 * The depth-first search of model/solvers/dfs.py as a function of the
 * maze: its state after each round of the main loop, and the invariants
 * that state keeps.
 */
module DfsSpec {
  import opened Options
  import opened Cells
  import opened Grids
  import opened Search
  import opened DfsStack
  import opened Discovery

  /** The top of the stack taken off it, before its neighbours are visited. */
  function Pop(s: St): St
    requires |s.pending| > 0
  {
    var cur := s.pending[|s.pending| - 1];
    s.(pending := s.pending[..|s.pending| - 1], exp := s.exp + {cur}, lvl := if cur in s.d then s.d[cur] else 0)
  }

  /** One round of the main loop for a top other than end: pop it, visit its open neighbours. */
  ghost function Expand(g: Grid, b0: Board, s: St): St
    requires g.Shaped(b0) && |s.pending| > 0
  {
    Expanded(g, b0, Pop(s), s.pending[|s.pending| - 1])
  }

  /** The main loop is over: the stack ran dry or end is on its top. */
  predicate Stopped(s: St, end: Coord) {
    |s.pending| == 0 || s.pending[|s.pending| - 1] == end
  }

  /** The state after k rounds, a stopped state staying as it is. */
  ghost function Run(g: Grid, b0: Board, start: Coord, end: Coord, k: nat): St
    requires g.Shaped(b0)
    decreases k, 1
  {
    Rounds(g, b0, start, end, k)
  }

  /**
   * The k-th round spelled out. Run is defined through Rounds so that a
   * statement about Run(k) does not by itself open up the round that made it.
   */
  ghost function Rounds(g: Grid, b0: Board, start: Coord, end: Coord, k: nat): St
    requires g.Shaped(b0)
    decreases k, 0
  {
    if k == 0 then Init(start)
    else
      var p := Run(g, b0, start, end, k - 1);
      if Stopped(p, end) then p else Expand(g, b0, p)
  }

  /**
   * What every state of the search satisfies: the came-from links form a
   * search tree, the stack is its frontier, and when no cell was flagged
   * beforehand everything one step from an expanded cell has been discovered.
   */
  ghost predicate Inv(g: Grid, m: WallMap, b0: Board, s: St, start: Coord, end: Coord)
    requires g.Shaped(m) && g.Shaped(b0)
  {
    && Tree(g, m, s.cameFrom, s.d, s.exp, start)
    && Frontier(s.pending, s.cameFrom, s.d, s.exp, end)
    && (NoneFlagged(b0) ==> Spread(g, m, s.cameFrom, s.exp))
  }

  /** Visiting neighbours keeps the stack the frontier of what has been discovered. */
  lemma {:induction false} VisitFromStack(g: Grid, b0: Board, s: St, cur: Coord, ns: seq<Coord>, i: nat, end: Coord)
    requires g.Shaped(b0) && i <= |ns|
    requires Frontier(s.pending, s.cameFrom, s.d, s.exp, end)
    ensures var t := VisitFrom(g, b0, s, cur, ns, i);
            Frontier(t.pending, t.cameFrom, t.d, t.exp, end)
  {
    if i > 0 {
      VisitFromStack(g, b0, s, cur, ns, i - 1, end);
      var p := VisitFrom(g, b0, s, cur, ns, i - 1);
      if !Seen(g, b0, p.cameFrom, ns[i - 1]) {
        PushStack(p.pending, p.cameFrom, p.d, p.exp, end, ns[i - 1], Some(cur), p.lvl + 1);
      }
    }
  }

  /** On a maze with no cell flagged, visiting the first i neighbours of cur accounts for the passages to them. */
  lemma {:induction false} VisitFromSpread(g: Grid, m: WallMap, b0: Board, s: St, cur: Coord, ns: seq<Coord>, i: nat)
    requires g.Shaped(m) && g.Shaped(b0) && i <= |ns| && NoneFlagged(b0)
    requires SpreadBut(g, m, s.cameFrom, s.exp, cur, {})
    ensures var t := VisitFrom(g, b0, s, cur, ns, i);
            SpreadBut(g, m, t.cameFrom, t.exp, cur, Listed(ns, i))
  {
    if i > 0 {
      VisitFromSpread(g, m, b0, s, cur, ns, i - 1);
      var p := VisitFrom(g, b0, s, cur, ns, i - 1);
      var t := VisitOne(g, b0, p, cur, ns[i - 1]);
      Reach(g, m, p.cameFrom, t.cameFrom, p.exp, cur, ns[i - 1], Listed(ns, i - 1));
    }
  }

  /** The initial state satisfies the invariants. */
  lemma InitKeeps(g: Grid, m: WallMap, b0: Board, start: Coord, end: Coord)
    requires g.Shaped(m) && g.Shaped(b0) && g.InBounds(start)
    ensures Inv(g, m, b0, Init(start), start, end)
  {
  }

  /** A round of the main loop keeps the invariants, taking one entry off the stack for good. */
  lemma ExpandKeeps(g: Grid, m: WallMap, b0: Board, s: St, start: Coord, end: Coord)
    requires g.Shaped(m) && g.Shaped(b0) && m == WallsOf(b0) && Inv(g, m, b0, s, start, end) && !Stopped(s, end)
    ensures Inv(g, m, b0, Expand(g, b0, s), start, end)
    ensures |Expand(g, b0, s).pending| - |Expand(g, b0, s).cameFrom| == |s.pending| - |s.cameFrom| - 1
  {
    var cur := s.pending[|s.pending| - 1];
    PopStack(s.pending, s.cameFrom, s.d, s.exp, end);
    TreeExpand(g, m, s.cameFrom, s.d, s.exp, start, cur);
    if NoneFlagged(b0) {
      PopSpread(g, m, s.cameFrom, s.exp, cur);
    }
    var ns := OpenAt(g, b0, cur);
    OpenAtPassable(g, b0, m, cur);
    VisitFromShape(g, b0, Pop(s), cur, ns, |ns|);
    VisitFromTree(g, m, b0, Pop(s), cur, ns, |ns|, start);
    VisitFromStack(g, b0, Pop(s), cur, ns, |ns|, end);
    if NoneFlagged(b0) {
      VisitFromSpread(g, m, b0, Pop(s), cur, ns, |ns|);
      ListedAll(ns, |ns|);
      var t := Expand(g, b0, s);
      assert forall v :: g.Passable(m, cur, v) ==> v in Listed(ns, |ns|);
      SpreadOff(g, m, t.cameFrom, t.exp, cur, Listed(ns, |ns|));
    }
  }

  /** A round taken from a state that satisfies the invariants and has not stopped keeps them. */
  lemma RunStep(g: Grid, m: WallMap, b0: Board, start: Coord, end: Coord, k: nat)
    requires g.Shaped(m) && g.Shaped(b0) && m == WallsOf(b0) && k > 0
    requires Inv(g, m, b0, Run(g, b0, start, end, k - 1), start, end) && !Stopped(Run(g, b0, start, end, k - 1), end)
    ensures Inv(g, m, b0, Run(g, b0, start, end, k), start, end)
    ensures var s, t := Run(g, b0, start, end, k - 1), Run(g, b0, start, end, k);
            |t.pending| - |t.cameFrom| == |s.pending| - |s.cameFrom| - 1
  {
    var s := Run(g, b0, start, end, k - 1);
    ExpandKeeps(g, m, b0, s, start, end);
    assert Run(g, b0, start, end, k) == Expand(g, b0, s);
  }

  /** A round taken from a state that has not stopped shortens the stack-minus-records count. */
  lemma RunShrinks(g: Grid, m: WallMap, b0: Board, start: Coord, end: Coord, k: nat)
    requires g.Shaped(m) && g.Shaped(b0) && m == WallsOf(b0)
    requires Inv(g, m, b0, Run(g, b0, start, end, k), start, end) && !Stopped(Run(g, b0, start, end, k), end)
    ensures var s, t := Run(g, b0, start, end, k), Run(g, b0, start, end, k + 1);
            |t.pending| - |t.cameFrom| == |s.pending| - |s.cameFrom| - 1
  {
    RunStep(g, m, b0, start, end, k + 1);
  }

  /** Every state the search reaches satisfies the invariants. */
  lemma {:induction false} RunKeeps(g: Grid, m: WallMap, b0: Board, start: Coord, end: Coord, k: nat)
    requires g.Shaped(m) && g.Shaped(b0) && m == WallsOf(b0) && g.InBounds(start)
    ensures Inv(g, m, b0, Run(g, b0, start, end, k), start, end)
    decreases k, 1
  {
    if k == 0 {
      RunStart(g, m, b0, start, end);
    } else {
      RunNext(g, m, b0, start, end, k);
    }
  }

  /** The search starts in a state that satisfies the invariants. */
  lemma RunStart(g: Grid, m: WallMap, b0: Board, start: Coord, end: Coord)
    requires g.Shaped(m) && g.Shaped(b0) && g.InBounds(start)
    ensures Inv(g, m, b0, Run(g, b0, start, end, 0), start, end)
  {
    InitKeeps(g, m, b0, start, end);
    assert Run(g, b0, start, end, 0) == Init(start);
  }

  /** The state after a round, taken or not, satisfies the invariants. */
  lemma {:induction false} RunNext(g: Grid, m: WallMap, b0: Board, start: Coord, end: Coord, k: nat)
    requires g.Shaped(m) && g.Shaped(b0) && m == WallsOf(b0) && g.InBounds(start) && k > 0
    ensures Inv(g, m, b0, Run(g, b0, start, end, k), start, end)
    decreases k, 0
  {
    RunKeeps(g, m, b0, start, end, k - 1);
    var p := Run(g, b0, start, end, k - 1);
    if !Stopped(p, end) {
      RunStep(g, m, b0, start, end, k);
    } else {
      assert Run(g, b0, start, end, k) == p;
    }
  }

  /**
   * What the main loop needs of the state after k rounds: its cells are on
   * the grid, and a further round shortens the stack-minus-records count.
   * The same bound as the breadth-first search's, proved here of the
   * depth-first Run.
   */
  lemma RunBounds(g: Grid, b0: Board, start: Coord, end: Coord, k: nat)
    requires g.Shaped(b0) && g.InBounds(start)
    ensures var s := Run(g, b0, start, end, k);
            && (forall i :: 0 <= i < |s.pending| ==> g.InBounds(s.pending[i]))
            && |s.cameFrom| <= |g.AllCoords()|
            && (!Stopped(s, end) ==>
                  |Run(g, b0, start, end, k + 1).pending| - |Run(g, b0, start, end, k + 1).cameFrom| == |s.pending| - |s.cameFrom| - 1)
  {
    var m := WallsOf(b0);
    RunKeeps(g, m, b0, start, end, k);
    var s := Run(g, b0, start, end, k);
    FewKeys(g, s.cameFrom);
    if !Stopped(s, end) {
      RunShrinks(g, m, b0, start, end, k);
    }
  }

  /**
   * What a stopped search has established: its came-from links form a
   * search tree and are ranked by depth; the stack ran dry exactly when
   * end was never recorded; and on a maze with no cell flagged beforehand
   * a dry stack means end cannot be reached.
   */
  lemma RunOutcome(g: Grid, b0: Board, start: Coord, end: Coord, k: nat)
    requires g.Shaped(b0) && g.InBounds(start) && Stopped(Run(g, b0, start, end, k), end)
    ensures var s := Run(g, b0, start, end, k);
            && Tree(g, WallsOf(b0), s.cameFrom, s.d, s.exp, start)
            && Chained(s.cameFrom, s.d) && (forall c :: c in s.cameFrom ==> g.InBounds(c))
            && (|s.pending| == 0 <==> end !in s.cameFrom)
            && (NoneFlagged(b0) && |s.pending| == 0 ==> !Reachable(g, WallsOf(b0), start, end))
  {
    var m := WallsOf(b0);
    RunKeeps(g, m, b0, start, end, k);
    var s := Run(g, b0, start, end, k);
    TreeChained(g, m, s.cameFrom, s.d, s.exp, start);
    if |s.pending| == 0 {
      assert end !in s.cameFrom;
      if NoneFlagged(b0) {
        SpreadUnreachable(g, m, s.cameFrom, s.exp, start, end);
      }
    }
  }

  /**
   * The path read off a stopped search: a route from start to end when not
   * empty; and on a maze with no cell flagged beforehand, empty exactly
   * when end cannot be reached.
   */
  lemma PathOutcome(g: Grid, b0: Board, start: Coord, end: Coord, k: nat, path: seq<Coord>)
    requires g.Shaped(b0) && g.InBounds(start) && Stopped(Run(g, b0, start, end, k), end)
    requires path == [] <==> |Run(g, b0, start, end, k).pending| == 0
    requires path != [] ==> FollowsLinks(Run(g, b0, start, end, k).cameFrom, path) && path[|path| - 1] == end
    ensures path != [] ==> Connects(g, WallsOf(b0), path, start, end)
    ensures NoneFlagged(b0) ==> (path == [] <==> !Reachable(g, WallsOf(b0), start, end))
  {
    var s := Run(g, b0, start, end, k);
    RunOutcome(g, b0, start, end, k);
    if path != [] {
      TreeChainConnects(g, WallsOf(b0), s.cameFrom, s.d, s.exp, start, path);
    }
  }
}

/**
 * Depth-first search over the open passages of the maze
 * (model/solvers/dfs.py): a last-in first-out stack, the closed set kept
 * in the cells' visited_by_solver flags, came_from links for the path.
 */
module Dfs {
  import opened Options
  import opened Cells
  import opened Grids
  import opened Search
  import opened Discovery
  import opened DfsSpec

  /**
   * Searches from start until end is taken off the stack or the stack
   * runs dry, then, when end was taken off, walks the came-from links
   * back from it. The path is a route from start to end whenever it is
   * not empty; on a maze with no cell flagged beforehand it is empty
   * exactly when end cannot be reached.
   */
  method Solve(grid: Grid, start: Coord, end: Coord) returns (path: seq<Coord>)
    requires grid.Valid() && grid.InBounds(start) && grid.InBounds(end)
    modifies grid`cells
    ensures grid.Valid()
    ensures Unsolved(grid.cells) == Unsolved(old(grid.cells)) && WallsOf(grid.cells) == WallsOf(old(grid.cells))
    ensures path != [] ==> Connects(grid, WallsOf(old(grid.cells)), path, start, end)
    ensures Marked(grid.cells, set c | c in path)
    ensures NoneFlagged(old(grid.cells)) ==> (path == [] <==> !Reachable(grid, WallsOf(old(grid.cells)), start, end))
    ensures exists k: nat :: Stopped(Run(grid, old(grid.cells), start, end, k), end)
              && FlagsMatch(grid, grid.cells, old(grid.cells), Run(grid, old(grid.cells), start, end, k).cameFrom)
    ensures MarkedOn(grid, grid.cells, old(grid.cells), set c | c in path)
  {
    ghost var b0 := grid.cells;
    var cameFrom, found, k := Explore(grid, start, end);
    ghost var b1 := grid.cells;
    path := Trace(grid, cameFrom, found, start, end, b0, k);
    SameMazeViews(grid.cells, b0);
    SolvedFlags(grid, grid.cells, b1, b0, cameFrom.Keys, set c | c in path);
  }

  /**
   * The main loop: pops the top of the stack, stops when it is end, and
   * otherwise pushes its open neighbours not yet seen. On leaving it the
   * search is in the stopped state Run(k), found saying whether end was
   * taken off the stack.
   */
  method Explore(grid: Grid, start: Coord, end: Coord) returns (cameFrom: CameFrom, found: bool, ghost k: nat)
    requires grid.Valid() && grid.InBounds(start) && grid.InBounds(end)
    modifies grid`cells
    ensures grid.Valid() && grid.Shaped(old(grid.cells)) && SameMaze(grid.cells, old(grid.cells))
    ensures Stopped(Run(grid, old(grid.cells), start, end, k), end)
    ensures cameFrom == Run(grid, old(grid.cells), start, end, k).cameFrom
    ensures found <==> |Run(grid, old(grid.cells), start, end, k).pending| > 0
    ensures FlagsMatch(grid, grid.cells, old(grid.cells), cameFrom)
    ensures PathMarks(grid.cells) == PathMarks(old(grid.cells))
  {
    ghost var b0 := grid.cells;
    var stack := [start];
    cameFrom := map[start := None];
    FlagDiscovered(grid, grid.cells, b0, map[], start, None);
    SetFlags(grid, start, grid.cells[start.x][start.y].(visitedBySolver := true, inFrontier := true));
    found := false;
    k := 0;
    ghost var N := |grid.AllCoords()|;
    FewKeys(grid, cameFrom);
    while |stack| > 0
      invariant grid.Valid() && SameMaze(grid.cells, b0) && FlagsMatch(grid, grid.cells, b0, cameFrom)
      invariant PathMarks(grid.cells) == PathMarks(b0)
      invariant stack == Run(grid, b0, start, end, k).pending && cameFrom == Run(grid, b0, start, end, k).cameFrom
      invariant |cameFrom| <= N
      decreases N - |cameFrom| + |stack|
    {
      RunBounds(grid, b0, start, end, k);
      var current := stack[|stack| - 1];
      stack := stack[..|stack| - 1];
      FlagUntouched(grid, grid.cells, b0, cameFrom, current, grid.cells[current.x][current.y].(inFrontier := false));
      ghost var b1 := grid.cells;
      SetFlags(grid, current, grid.cells[current.x][current.y].(inFrontier := false));
      SameMazeTrans(grid.cells, b1, b0);
      if current == end {
        found := true;
        break;
      }
      ghost var sk := Run(grid, b0, start, end, k);
      assert Run(grid, b0, start, end, k + 1) == Expand(grid, b0, sk);
      stack, cameFrom := Discover(grid, current, stack, cameFrom, b0, Pop(sk));
      k := k + 1;
      FewKeys(grid, cameFrom);
    }
  }

  /**
   * The end of the search: when end was taken off the stack, the
   * came-from links walked back from it into a path; otherwise no path.
   */
  method Trace(grid: Grid, cameFrom: CameFrom, found: bool, start: Coord, end: Coord, ghost b0: Board, ghost k: nat)
    returns (path: seq<Coord>)
    requires grid.Valid() && grid.Shaped(b0) && grid.InBounds(start) && SameMaze(grid.cells, b0)
    requires Stopped(Run(grid, b0, start, end, k), end) && cameFrom == Run(grid, b0, start, end, k).cameFrom
    requires found <==> |Run(grid, b0, start, end, k).pending| > 0
    modifies grid`cells
    ensures grid.Valid() && SameMaze(grid.cells, b0)
    ensures path != [] ==> Connects(grid, WallsOf(b0), path, start, end)
    ensures Marked(grid.cells, set c | c in path)
    ensures NoneFlagged(b0) ==> (path == [] <==> !Reachable(grid, WallsOf(b0), start, end))
    ensures path != [] <==> found
    ensures MarkedOn(grid, grid.cells, old(grid.cells), set c | c in path)
    ensures ClosedMarks(grid.cells) == ClosedMarks(old(grid.cells))
  {
    ghost var s := Run(grid, b0, start, end, k);
    RunOutcome(grid, b0, start, end, k);
    path := [];
    if found {
      ghost var b1 := grid.cells;
      path := Reconstruct(grid, cameFrom, end, s.d);
      SameMazeTrans(grid.cells, b1, b0);
    }
    PathOutcome(grid, b0, start, end, k, path);
  }
}
