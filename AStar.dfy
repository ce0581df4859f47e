/**
 * A* search over the open passages of the maze (model/solvers/astar.py):
 * a heap of (g + heuristic, count, cell) entries with an insertion
 * counter as tiebreak, g_score and came_from keyed by position, and a
 * cell flagged visited when it is popped rather than when it is found.
 */
module AStar {
  import opened Options
  import opened Cells
  import opened Grids
  import opened Search
  import opened AStarHeap
  import opened AStarSpec

  /**
   * Searches from start until end is popped or the heap runs dry, then
   * walks the came-from links back from end. Whatever the flags on the
   * grid, the path is empty exactly when end cannot be reached, and
   * otherwise a shortest route from start to end.
   */
  method Solve(grid: Grid, start: Coord, end: Coord) returns (path: seq<Coord>)
    requires grid.Valid() && grid.InBounds(start) && grid.InBounds(end)
    modifies grid`cells
    ensures grid.Valid()
    ensures Unsolved(grid.cells) == Unsolved(old(grid.cells)) && WallsOf(grid.cells) == WallsOf(old(grid.cells))
    ensures path != [] ==> Connects(grid, WallsOf(old(grid.cells)), path, start, end)
    ensures Marked(grid.cells, set c | c in path)
    ensures path == [] <==> !Reachable(grid, WallsOf(old(grid.cells)), start, end)
    ensures forall P :: Connects(grid, WallsOf(old(grid.cells)), P, start, end) ==> |path| <= |P|
    ensures exists k: nat :: var s := Run(grid, old(grid.cells), start, end, k);
              Stopped(s, end) && FlaggedOn(grid, grid.cells, old(grid.cells), s.popped + (if |s.pq| > 0 then {end} else {}))
    ensures MarkedOn(grid, grid.cells, old(grid.cells), set c | c in path)
  {
    ghost var b0 := grid.cells;
    var cameFrom, gScore, k := Explore(grid, start, end);
    RunOutcome(grid, b0, start, end, k);
    ghost var b1 := grid.cells;
    path := Reconstruct(grid, cameFrom, end, gScore);
    SameMazeTrans(grid.cells, b1, b0);
    SameMazeViews(grid.cells, b0);
    PathOutcome(grid, b0, start, end, k, path);
    ghost var s := Run(grid, b0, start, end, k);
    SolvedFlags(grid, grid.cells, b1, b0, s.popped + (if |s.pq| > 0 then {end} else {}), set c | c in path);
  }

  /**
   * The main loop: pops the least entry, flags its cell visited, stops
   * when it is end, and otherwise relaxes the cell's open neighbours. On
   * leaving it the search is in the stopped state Run(k), and the cells
   * newly flagged visited are exactly the cells popped, end among them
   * when the heap did not run dry.
   */
  method Explore(grid: Grid, start: Coord, end: Coord) returns (cameFrom: CameFrom, gScore: map<Coord, nat>, ghost k: nat)
    requires grid.Valid() && grid.InBounds(start) && grid.InBounds(end)
    modifies grid`cells
    ensures grid.Valid() && grid.Shaped(old(grid.cells)) && SameMaze(grid.cells, old(grid.cells))
    ensures Stopped(Run(grid, old(grid.cells), start, end, k), end)
    ensures cameFrom == Run(grid, old(grid.cells), start, end, k).cameFrom
    ensures gScore == Run(grid, old(grid.cells), start, end, k).g
    ensures var s := Run(grid, old(grid.cells), start, end, k);
            FlaggedOn(grid, grid.cells, old(grid.cells), s.popped + (if |s.pq| > 0 then {end} else {}))
    ensures PathMarks(grid.cells) == PathMarks(old(grid.cells))
  {
    ghost var b0 := grid.cells;
    var count := 0;
    var pq := multiset{Entry(0, count, start)};
    cameFrom := map[start := None];
    gScore := map[start := 0];
    ghost var b1 := grid.cells;
    FlagSet(grid, grid.cells, b0, {}, start, grid.cells[start.x][start.y].(inFrontier := true));
    SetFlags(grid, start, grid.cells[start.x][start.y].(inFrontier := true));
    k := 0;
    ghost var N := |grid.AllCoords()|;
    RunBounds(grid, b0, start, end, k);
    while |pq| > 0
      invariant grid.Valid() && SameMaze(grid.cells, b0)
      invariant Holds(pq, count, gScore, cameFrom, Run(grid, b0, start, end, k))
      invariant FlaggedOn(grid, grid.cells, b0, Run(grid, b0, start, end, k).popped)
      invariant PathMarks(grid.cells) == PathMarks(b0)
      invariant |gScore.Keys| <= N
      decreases N - |gScore.Keys|, Total(gScore), |pq|
    {
      RunBounds(grid, b0, start, end, k);
      ghost var sk := Run(grid, b0, start, end, k);
      var current;
      pq, current := PopNext(grid, pq, count, b0, sk.popped);
      if current == end {
        break;
      }
      assert Run(grid, b0, start, end, k + 1) == Expand(grid, b0, sk, end);
      ExpandPopped(grid, b0, sk, end);
      pq, count, gScore, cameFrom := Relaxations(grid, current, end, pq, count, gScore, cameFrom, b0, Pop(sk));
      k := k + 1;
      RunBounds(grid, b0, start, end, k);
      ghost var sk1 := Run(grid, b0, start, end, k);
      assert Holds(pq, count, gScore, cameFrom, sk1);
      assert |sk1.g.Keys| <= N;
      MeasureDrops(sk, sk1, N);
    }
  }

  /**
   * heappop: takes the least entry off the heap, unique thanks to the
   * tiebreak counts, and flags its cell visited and out of the frontier.
   */
  method PopNext(grid: Grid, pq0: multiset<Entry>, count: nat, ghost b0: Board, ghost popped: set<Coord>)
    returns (pq: multiset<Entry>, current: Coord)
    requires grid.Valid() && grid.Shaped(b0) && SameMaze(grid.cells, b0) && FlaggedOn(grid, grid.cells, b0, popped)
    requires |pq0| > 0 && Counted(pq0, count) && grid.InBounds(Least(pq0).at)
    modifies grid`cells
    ensures grid.Valid() && SameMaze(grid.cells, b0) && FlaggedOn(grid, grid.cells, b0, popped + {current})
    ensures current == Least(pq0).at && pq == pq0 - multiset{Least(pq0)}
    ensures PathMarks(grid.cells) == PathMarks(old(grid.cells))
  {
    ghost var top := Least(pq0);
    var e :| IsLeast(e, pq0);
    LeastUnique(e, top, pq0, count);
    pq := pq0 - multiset{e};
    current := e.at;
    ghost var b1 := grid.cells;
    FlagSet(grid, grid.cells, b0, popped, current, grid.cells[current.x][current.y].(inFrontier := false, visitedBySolver := true));
    SetFlags(grid, current, grid.cells[current.x][current.y].(inFrontier := false, visitedBySolver := true));
    SameMazeTrans(grid.cells, b1, b0);
  }

  /**
   * The inner loop: each open neighbour of current whose score would fall
   * to current's score plus one gets it, is pushed under the next count,
   * linked back to current and flagged as in the frontier, as RelaxFrom
   * describes; no visited flag changes.
   */
  method Relaxations(grid: Grid, current: Coord, end: Coord, pq0: multiset<Entry>, count0: nat, g0: map<Coord, nat>, cameFrom0: CameFrom,
                     ghost b0: Board, ghost s0: St)
    returns (pq: multiset<Entry>, count: nat, gScore: map<Coord, nat>, cameFrom: CameFrom)
    requires grid.Valid() && grid.Shaped(b0) && SameMaze(grid.cells, b0) && grid.InBounds(current)
    requires Holds(pq0, count0, g0, cameFrom0, s0) && current in g0
    requires FlaggedOn(grid, grid.cells, b0, s0.popped)
    modifies grid`cells
    ensures grid.Valid() && SameMaze(grid.cells, b0) && FlaggedOn(grid, grid.cells, b0, s0.popped)
    ensures Holds(pq, count, gScore, cameFrom, RelaxFrom(s0, current, g0[current], OpenAt(grid, b0, current), |OpenAt(grid, b0, current)|, end))
    ensures PathMarks(grid.cells) == PathMarks(old(grid.cells))
  {
    var ns := grid.GetAccessibleNeighbors(current);
    grid.AccessibleFacts(current);
    OpenAtSameWalls(grid, grid.cells, b0, current);
    assert forall j :: 0 <= j < |ns| ==> grid.InBounds(ns[j]) && ns[j] != current by {
      forall j | 0 <= j < |ns| ensures grid.InBounds(ns[j]) && ns[j] != current {
        assert ns[j] in grid.Accessible(current);
      }
    }
    pq, count, gScore, cameFrom := RelaxAll(grid, current, ns, end, pq0, count0, g0, cameFrom0, b0, s0, g0[current]);
  }

  /** The inner loop over the open neighbours ns of current, none of them current itself. */
  method RelaxAll(grid: Grid, current: Coord, ns: seq<Coord>, end: Coord, pq0: multiset<Entry>, count0: nat, g0: map<Coord, nat>,
                  cameFrom0: CameFrom, ghost b0: Board, ghost s0: St, ghost gc: nat)
    returns (pq: multiset<Entry>, count: nat, gScore: map<Coord, nat>, cameFrom: CameFrom)
    requires grid.Valid() && grid.Shaped(b0) && SameMaze(grid.cells, b0) && FlaggedOn(grid, grid.cells, b0, s0.popped)
    requires forall j :: 0 <= j < |ns| ==> grid.InBounds(ns[j]) && ns[j] != current
    requires Holds(pq0, count0, g0, cameFrom0, s0) && current in g0 && g0[current] == gc
    modifies grid`cells
    ensures grid.Valid() && SameMaze(grid.cells, b0) && FlaggedOn(grid, grid.cells, b0, s0.popped)
    ensures Holds(pq, count, gScore, cameFrom, RelaxFrom(s0, current, gc, ns, |ns|, end))
    ensures PathMarks(grid.cells) == PathMarks(old(grid.cells))
  {
    pq, count, gScore, cameFrom := pq0, count0, g0, cameFrom0;
    for i := 0 to |ns|
      invariant grid.Valid() && SameMaze(grid.cells, b0) && FlaggedOn(grid, grid.cells, b0, s0.popped)
      invariant Holds(pq, count, gScore, cameFrom, RelaxFrom(s0, current, gc, ns, i, end))
      invariant current in gScore && gScore[current] == gc
      invariant PathMarks(grid.cells) == PathMarks(old(grid.cells))
    {
      pq, count, gScore, cameFrom := RelaxOne(grid, current, ns, i, end, pq, count, gScore, cameFrom, b0, s0, gc);
    }
  }

  /**
   * Pass i of the inner loop, for the neighbour n = ns[i]: when current's
   * score plus one is below n's score, or n has none, n gets it, the
   * counter is incremented, n is pushed and linked back to current and
   * flagged as in the frontier, as Relax describes.
   */
  method RelaxOne(grid: Grid, current: Coord, ns: seq<Coord>, i: nat, end: Coord, pq0: multiset<Entry>, count0: nat, g0: map<Coord, nat>,
                  cameFrom0: CameFrom, ghost b0: Board, ghost s0: St, ghost gc: nat)
    returns (pq: multiset<Entry>, count: nat, gScore: map<Coord, nat>, cameFrom: CameFrom)
    requires grid.Valid() && grid.Shaped(b0) && SameMaze(grid.cells, b0) && FlaggedOn(grid, grid.cells, b0, s0.popped)
    requires i < |ns| && grid.InBounds(ns[i]) && ns[i] != current
    requires Holds(pq0, count0, g0, cameFrom0, RelaxFrom(s0, current, gc, ns, i, end)) && current in g0 && g0[current] == gc
    modifies grid`cells
    ensures grid.Valid() && SameMaze(grid.cells, b0) && FlaggedOn(grid, grid.cells, b0, s0.popped)
    ensures Holds(pq, count, gScore, cameFrom, RelaxFrom(s0, current, gc, ns, i + 1, end)) && current in gScore && gScore[current] == gc
    ensures PathMarks(grid.cells) == PathMarks(old(grid.cells))
  {
    ghost var p := RelaxFrom(s0, current, gc, ns, i, end);
    RelaxShape(p, current, gc, ns[i], end);
    var n := ns[i];
    pq, count, gScore, cameFrom := pq0, count0, g0, cameFrom0;
    var newG := gScore[current] + 1;
    if n !in gScore || newG < gScore[n] {
      gScore := gScore[n := newG];
      var priority := newG + Heuristic(n, end);
      count := count + 1;
      pq := pq + multiset{Entry(priority, count, n)};
      cameFrom := cameFrom[n := Some(current)];
      ghost var b1 := grid.cells;
      FlagSet(grid, grid.cells, b0, s0.popped, n, grid.cells[n.x][n.y].(inFrontier := true));
      SetFlags(grid, n, grid.cells[n.x][n.y].(inFrontier := true));
      SameMazeTrans(grid.cells, b1, b0);
    }
  }
}
