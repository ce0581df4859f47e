/**
 * What the four frontier-based solvers share: the came-from predecessor
 * map, the walk back from the goal that turns it into a path, and the
 * facts about routes through the maze that their proofs use.
 */
module Search {
  import opened Options
  import opened Cells
  import opened Grids

  /** Predecessor map: the start maps to None, every other discovered cell to its discoverer. */
  type CameFrom = map<Coord, Option<Coord>>

  function Reverse<T>(s: seq<T>): (r: seq<T>)
    ensures |r| == |s|
  {
    if s == [] then [] else Reverse(s[1..]) + [s[0]]
  }

  lemma {:induction false} ReverseAt<T>(s: seq<T>, k: nat)
    requires k < |s|
    ensures Reverse(s)[k] == s[|s| - 1 - k]
  {
    if k < |s| - 1 {
      ReverseAt(s[1..], k);
    }
  }

  /** A cell with its solver flags cleared: what a solver must leave unchanged. */
  function SolverView(c: Cell): (r: Cell)
    ensures r.walls == c.walls && r.visited == c.visited
    ensures r.isEntry == c.isEntry && r.isExit == c.isExit
  {
    c.(visitedBySolver := false, inFrontier := false, isPath := false)
  }

  /** Every cell of b with its solver flags cleared. */
  ghost function Unsolved(b: Board): Board
  {
    seq(|b|, x requires 0 <= x < |b| => seq(|b[x]|, y requires 0 <= y < |b[x]| => SolverView(b[x][y])))
  }

  /** b differs from b0 at most in the solver flags of its cells. */
  ghost predicate SameMaze(b: Board, b0: Board) {
    && |b| == |b0|
    && (forall x :: 0 <= x < |b| ==> |b[x]| == |b0[x]|)
    && forall x, y :: 0 <= x < |b| && 0 <= y < |b[x]| ==> SameCell(b[x][y], b0[x][y])
  }

  /** Two cells agreeing in everything but the solver flags. */
  predicate SameCell(c: Cell, c0: Cell) {
    c.walls == c0.walls && c.visited == c0.visited && c.isEntry == c0.isEntry && c.isExit == c0.isExit
  }

  lemma SameMazeTrans(b: Board, b1: Board, b0: Board)
    requires SameMaze(b, b1) && SameMaze(b1, b0)
    ensures SameMaze(b, b0)
  {
    forall x, y | 0 <= x < |b| && 0 <= y < |b[x]| ensures SameCell(b[x][y], b0[x][y]) {
      assert SameCell(b1[x][y], b0[x][y]);
    }
  }

  /** Boards that differ only in solver flags have the same walls and the same unsolved view. */
  lemma SameMazeViews(b: Board, b0: Board)
    requires SameMaze(b, b0)
    ensures Unsolved(b) == Unsolved(b0) && WallsOf(b) == WallsOf(b0)
  {
    var u, u0, w, w0 := Unsolved(b), Unsolved(b0), WallsOf(b), WallsOf(b0);
    forall x | 0 <= x < |b| ensures u[x] == u0[x] && w[x] == w0[x] {
    }
  }

  /** No cell carries the closed-set flag: the state reset_visited leaves. */
  ghost predicate NoneFlagged(b: Board) {
    forall x, y :: 0 <= x < |b| && 0 <= y < |b[x]| ==> !b[x][y].visitedBySolver
  }

  /** Every cell named in S is on the board and marked as part of the solution path. */
  ghost predicate Marked(b: Board, S: set<Coord>) {
    forall c :: c in S ==> 0 <= c.x < |b| && 0 <= c.y < |b[c.x]| && b[c.x][c.y].isPath
  }

  /** Marking one more cell keeps the earlier marks. */
  lemma MarkOneMore(b: Board, S: set<Coord>, t: Coord, v: Cell)
    requires Marked(b, S) && 0 <= t.x < |b| && 0 <= t.y < |b[t.x]| && v.isPath
    ensures Marked(Put(b, t, v), S + {t})
  {
    forall c | c in S + {t} ensures 0 <= c.x < |Put(b, t, v)| && 0 <= c.y < |Put(b, t, v)[c.x]| && Put(b, t, v)[c.x][c.y].isPath {
      PutAt(b, t, v, c.x, c.y);
    }
  }

  /** The visited_by_solver flag of every cell of b. */
  ghost function ClosedMarks(b: Board): seq<seq<bool>>
  {
    seq(|b|, x requires 0 <= x < |b| => seq(|b[x]|, y requires 0 <= y < |b[x]| => b[x][y].visitedBySolver))
  }

  /** The is_path flag of every cell of b. */
  ghost function PathMarks(b: Board): seq<seq<bool>>
  {
    seq(|b|, x requires 0 <= x < |b| => seq(|b[x]|, y requires 0 <= y < |b[x]| => b[x][y].isPath))
  }

  /**
   * The visited-by-solver flags of b: a cell is flagged exactly when it
   * is in S or was flagged in b0.
   */
  ghost predicate FlaggedOn(grid: Grid, b: Board, b0: Board, S: set<Coord>)
    requires grid.Shaped(b) && grid.Shaped(b0)
  {
    forall x, y :: 0 <= x < grid.cols && 0 <= y < grid.rows ==>
      (b[x][y].visitedBySolver <==> Coord(x, y) in S || b0[x][y].visitedBySolver)
  }

  /** Setting the flag on c adds c to the flagged cells; leaving it alone keeps them. */
  lemma FlagSet(grid: Grid, b: Board, b0: Board, S: set<Coord>, c: Coord, v: Cell)
    requires grid.Shaped(b) && grid.Shaped(b0) && FlaggedOn(grid, b, b0, S) && grid.InBounds(c)
    ensures grid.Shaped(Put(b, c, v))
    ensures v.visitedBySolver ==> FlaggedOn(grid, Put(b, c, v), b0, S + {c})
    ensures v.visitedBySolver == b[c.x][c.y].visitedBySolver ==> FlaggedOn(grid, Put(b, c, v), b0, S)
  {
    var b': Board := Put(b, c, v);
    forall x | 0 <= x < grid.cols ensures |b'[x]| == grid.rows {
      PutAt(b, c, v, x, 0);
    }
    forall x, y | 0 <= x < grid.cols && 0 <= y < grid.rows
      ensures b'[x][y] == if Coord(x, y) == c then v else b[x][y]
    {
      PutAt(b, c, v, x, y);
    }
  }


  /**
   * The is_path flags of b: a cell is marked exactly when it is in S or
   * was marked in b0.
   */
  ghost predicate MarkedOn(grid: Grid, b: Board, b0: Board, S: set<Coord>)
    requires grid.Shaped(b) && grid.Shaped(b0)
  {
    forall x, y :: 0 <= x < grid.cols && 0 <= y < grid.rows ==>
      (b[x][y].isPath <==> Coord(x, y) in S || b0[x][y].isPath)
  }

  /** Marking the cell at c as on the path adds c to the marked cells. */
  lemma MarkSet(grid: Grid, b: Board, b0: Board, S: set<Coord>, c: Coord)
    requires grid.Shaped(b) && grid.Shaped(b0) && MarkedOn(grid, b, b0, S) && grid.InBounds(c)
    ensures grid.Shaped(Put(b, c, b[c.x][c.y].(isPath := true)))
    ensures MarkedOn(grid, Put(b, c, b[c.x][c.y].(isPath := true)), b0, S + {c})
  {
    var v := b[c.x][c.y].(isPath := true);
    var b': Board := Put(b, c, v);
    forall x | 0 <= x < grid.cols ensures |b'[x]| == grid.rows {
      PutAt(b, c, v, x, 0);
    }
    forall x, y | 0 <= x < grid.cols && 0 <= y < grid.rows
      ensures b'[x][y] == if Coord(x, y) == c then v else b[x][y]
    {
      PutAt(b, c, v, x, y);
    }
  }

  /**
   * A search that flagged the cells S and marked nothing, followed by a
   * walk back that marked the cells T and flagged nothing, flagged S and
   * marked T.
   */
  lemma SolvedFlags(grid: Grid, b2: Board, b1: Board, b0: Board, S: set<Coord>, T: set<Coord>)
    requires grid.Shaped(b2) && grid.Shaped(b1) && grid.Shaped(b0)
    requires FlaggedOn(grid, b1, b0, S) && PathMarks(b1) == PathMarks(b0)
    requires MarkedOn(grid, b2, b1, T) && ClosedMarks(b2) == ClosedMarks(b1)
    ensures FlaggedOn(grid, b2, b0, S) && MarkedOn(grid, b2, b0, T)
  {
    forall x, y | 0 <= x < grid.cols && 0 <= y < grid.rows
      ensures b2[x][y].visitedBySolver == b1[x][y].visitedBySolver && b1[x][y].isPath == b0[x][y].isPath
    {
      assert ClosedMarks(b2)[x][y] == ClosedMarks(b1)[x][y];
      assert PathMarks(b1)[x][y] == PathMarks(b0)[x][y];
    }
  }

  /** Sets solver flags of the cell at c, as the solvers do by assigning the cell's fields. */
  method SetFlags(grid: Grid, c: Coord, v: Cell)
    requires grid.Valid() && grid.InBounds(c) && SolverView(v) == SolverView(grid.cells[c.x][c.y])
    modifies grid`cells
    ensures grid.Valid() && grid.cells == Put(old(grid.cells), c, v)
    ensures SameMaze(grid.cells, old(grid.cells))
    ensures v.visitedBySolver == old(grid.cells[c.x][c.y].visitedBySolver) ==> ClosedMarks(grid.cells) == ClosedMarks(old(grid.cells))
    ensures v.isPath == old(grid.cells[c.x][c.y].isPath) ==> PathMarks(grid.cells) == PathMarks(old(grid.cells))
  {
    var b, b' := grid.cells, Put(grid.cells, c, v);
    forall x, y | 0 <= x < |b| && 0 <= y < |b[x]|
      ensures |b'[x]| == |b[x]|
      ensures SameCell(b'[x][y], b[x][y])
      ensures b'[x][y] == if Coord(x, y) == c then v else b[x][y]
    {
      PutAt(b, c, v, x, y);
    }
    if v.visitedBySolver == b[c.x][c.y].visitedBySolver {
      forall x | 0 <= x < |b| ensures ClosedMarks(b')[x] == ClosedMarks(b)[x] {
      }
    }
    if v.isPath == b[c.x][c.y].isPath {
      forall x | 0 <= x < |b| ensures PathMarks(b')[x] == PathMarks(b)[x] {
      }
    }
    grid.cells := b';
  }

  /** P is a route through the open passages of m from s to e. */
  ghost predicate Connects(g: Grid, m: WallMap, P: seq<Coord>, s: Coord, e: Coord)
    requires g.Shaped(m)
  {
    g.IsRoute(m, P) && P[0] == s && P[|P| - 1] == e
  }

  ghost predicate Reachable(g: Grid, m: WallMap, s: Coord, e: Coord)
    requires g.Shaped(m)
  {
    exists P :: Connects(g, m, P, s, e)
  }

  /**
   * Following came-from links always stays in the map and strictly
   * lowers rank, so every walk back ends at a cell mapped to None.
   */
  ghost predicate Chained(cameFrom: CameFrom, rank: map<Coord, nat>) {
    && (forall c :: c in cameFrom ==> c in rank)
    && (forall c, p :: c in cameFrom && cameFrom[c] == Some(p) ==> p in cameFrom && p in rank && c in rank && rank[p] < rank[c])
  }

  /** path is a chain of came-from links from a cell mapped to None. */
  ghost predicate FollowsLinks(cameFrom: CameFrom, path: seq<Coord>) {
    && |path| >= 1
    && (forall i :: 0 <= i < |path| ==> path[i] in cameFrom)
    && cameFrom[path[0]] == None
    && forall i :: 0 <= i < |path| - 1 ==> cameFrom[path[i + 1]] == Some(path[i])
  }

  /**
   * Walks the came-from links back from end, marking each cell on the
   * way as part of the path, then reverses the walk. The path is empty
   * when end was never recorded.
   */
  method Reconstruct(grid: Grid, cameFrom: CameFrom, end: Coord, ghost rank: map<Coord, nat>)
    returns (path: seq<Coord>)
    requires grid.Valid() && Chained(cameFrom, rank)
    requires forall c :: c in cameFrom ==> grid.InBounds(c)
    modifies grid`cells
    ensures grid.Valid()
    ensures SameMaze(grid.cells, old(grid.cells))
    ensures path == [] <==> end !in cameFrom
    ensures path != [] ==> FollowsLinks(cameFrom, path) && path[|path| - 1] == end
    ensures Marked(grid.cells, set c | c in path)
    ensures MarkedOn(grid, grid.cells, old(grid.cells), set c | c in path)
    ensures ClosedMarks(grid.cells) == ClosedMarks(old(grid.cells))
  {
    path := [];
    if end in cameFrom {
      path := WalkBack(grid, cameFrom, end, rank);
      TrailLinks(cameFrom, rank, end);
      ReversedLinks(cameFrom, path);
      path := Reverse(path);
    }
  }

  /** The cells met walking the came-from links back from c, c first. */
  ghost function Trail(cameFrom: CameFrom, rank: map<Coord, nat>, c: Coord): seq<Coord>
    requires Chained(cameFrom, rank) && c in cameFrom
    decreases rank[c]
  {
    match cameFrom[c]
    case None => [c]
    case Some(p) => [c] + Trail(cameFrom, rank, p)
  }

  /** The walk back still to come from temp: nothing once temp is None. */
  ghost function TrailFrom(cameFrom: CameFrom, rank: map<Coord, nat>, temp: Option<Coord>): seq<Coord>
    requires Chained(cameFrom, rank) && (temp.Some? ==> temp.value in cameFrom)
  {
    if temp.Some? then Trail(cameFrom, rank, temp.value) else []
  }

  /** Taking one step of the walk moves one cell from what is to come onto what is done. */
  lemma TrailStep(cameFrom: CameFrom, rank: map<Coord, nat>, done: seq<Coord>, t: Coord, whole: seq<Coord>)
    requires Chained(cameFrom, rank) && t in cameFrom
    requires done + TrailFrom(cameFrom, rank, Some(t)) == whole
    ensures (done + [t]) + TrailFrom(cameFrom, rank, cameFrom[t]) == whole
  {
    assert TrailFrom(cameFrom, rank, Some(t)) == [t] + TrailFrom(cameFrom, rank, cameFrom[t]);
    assert (done + [t]) + TrailFrom(cameFrom, rank, cameFrom[t]) == done + ([t] + TrailFrom(cameFrom, rank, cameFrom[t]));
  }

  /** The walk back from c follows came-from links until a cell mapped to None. */
  lemma {:induction false} TrailLinks(cameFrom: CameFrom, rank: map<Coord, nat>, c: Coord)
    requires Chained(cameFrom, rank) && c in cameFrom
    ensures var t := Trail(cameFrom, rank, c);
            && |t| >= 1 && t[0] == c
            && (forall i :: 0 <= i < |t| ==> t[i] in cameFrom)
            && cameFrom[t[|t| - 1]] == None
            && forall i :: 0 <= i < |t| - 1 ==> cameFrom[t[i]] == Some(t[i + 1])
    decreases rank[c]
  {
    match cameFrom[c]
    case None =>
    case Some(p) =>
      TrailLinks(cameFrom, rank, p);
      var t, t' := Trail(cameFrom, rank, c), Trail(cameFrom, rank, p);
      assert forall i :: 0 <= i < |t'| ==> t[i + 1] == t'[i];
  }

  /** The loop of Reconstruct: the walk back from end, each cell marked on the way. */
  method WalkBack(grid: Grid, cameFrom: CameFrom, end: Coord, ghost rank: map<Coord, nat>)
    returns (path: seq<Coord>)
    requires grid.Valid() && Chained(cameFrom, rank) && end in cameFrom
    requires forall c :: c in cameFrom ==> grid.InBounds(c)
    modifies grid`cells
    ensures grid.Valid()
    ensures SameMaze(grid.cells, old(grid.cells))
    ensures path == Trail(cameFrom, rank, end)
    ensures Marked(grid.cells, set c | c in path)
    ensures MarkedOn(grid, grid.cells, old(grid.cells), set c | c in path)
    ensures ClosedMarks(grid.cells) == ClosedMarks(old(grid.cells))
  {
    path := [];
    var temp: Option<Coord> := Some(end);
    while temp.Some?
      invariant grid.Valid()
      invariant SameMaze(grid.cells, old(grid.cells))
      invariant temp.Some? ==> temp.value in cameFrom
      invariant path + TrailFrom(cameFrom, rank, temp) == Trail(cameFrom, rank, end)
      invariant Marked(grid.cells, set c | c in path)
      invariant MarkedOn(grid, grid.cells, old(grid.cells), set c | c in path)
      invariant ClosedMarks(grid.cells) == ClosedMarks(old(grid.cells))
      decreases if temp.Some? then rank[temp.value] + 1 else 0
    {
      var t := temp.value;
      TrailStep(cameFrom, rank, path, t, Trail(cameFrom, rank, end));
      MarkOneMore(grid.cells, (set c | c in path), t, grid.cells[t.x][t.y].(isPath := true));
      MarkSet(grid, grid.cells, old(grid.cells), (set c | c in path), t);
      assert (set c | c in path + [t]) == (set c | c in path) + {t};
      path := path + [t];
      ghost var b1 := grid.cells;
      SetFlags(grid, t, grid.cells[t.x][t.y].(isPath := true));
      SameMazeTrans(grid.cells, b1, old(grid.cells));
      temp := cameFrom[t];
    }
  }

  /** A walk back along came-from links, reversed, follows the links forwards. */
  lemma ReversedLinks(cameFrom: CameFrom, back: seq<Coord>)
    requires |back| >= 1
    requires forall i :: 0 <= i < |back| ==> back[i] in cameFrom
    requires cameFrom[back[|back| - 1]] == None
    requires forall i :: 0 <= i < |back| - 1 ==> cameFrom[back[i]] == Some(back[i + 1])
    ensures FollowsLinks(cameFrom, Reverse(back)) && Reverse(back)[|back| - 1] == back[0]
    ensures forall c :: c in Reverse(back) <==> c in back
  {
    var path := Reverse(back);
    forall k | 0 <= k < |back| ensures path[k] == back[|back| - 1 - k] {
      ReverseAt(back, k);
    }
    forall c ensures c in path <==> c in back {
      if c in back {
        var i :| 0 <= i < |back| && back[i] == c;
        assert path[|back| - 1 - i] == c;
      }
    }
  }

  /** Along a chain whose rank grows by one per link from 0, the rank is the position. */
  lemma {:induction false} ChainLevels(cameFrom: CameFrom, d: map<Coord, nat>, path: seq<Coord>, n: nat)
    requires FollowsLinks(cameFrom, path) && n < |path|
    requires forall c :: c in cameFrom ==> c in d && (cameFrom[c].None? ==> d[c] == 0)
    requires forall c, p :: c in cameFrom && cameFrom[c] == Some(p) ==> p in d && d[c] == d[p] + 1
    ensures d[path[n]] == n
  {
    if n > 0 {
      ChainLevels(cameFrom, d, path, n - 1);
      assert cameFrom[path[n]] == Some(path[n - 1]);
    }
  }

  /** Every link of a chain whose came-from edges are open passages is itself passable. */
  lemma ChainIsRoute(grid: Grid, m: WallMap, cameFrom: CameFrom, path: seq<Coord>)
    requires grid.Shaped(m) && FollowsLinks(cameFrom, path)
    requires forall c :: c in cameFrom ==> grid.InBounds(c)
    requires forall c, p :: c in cameFrom && cameFrom[c] == Some(p) ==> grid.Passable(m, p, c)
    ensures grid.IsRoute(m, path)
  {
    forall i | 0 <= i < |path| - 1 ensures grid.Passable(m, path[i], path[i + 1]) {
      assert cameFrom[path[i + 1]] == Some(path[i]);
    }
  }

  /**
   * A route that starts in a discovered cell and ends outside the
   * expanded set leaves it somewhere: at the first such cell, which is
   * discovered, and whose level is at most base plus its position, when
   * expanding a cell discovers its open neighbours at most one level up.
   */
  lemma {:induction false} FirstUnexpanded(grid: Grid, m: WallMap, P: seq<Coord>, exp: set<Coord>, d: map<Coord, nat>, base: nat)
    returns (j: nat)
    requires grid.Shaped(m) && grid.IsRoute(m, P)
    requires P[0] in d && d[P[0]] <= base
    requires exp <= d.Keys
    requires forall u, v :: u in exp && grid.Passable(m, u, v) ==> v in d && d[v] <= d[u] + 1
    requires P[|P| - 1] !in exp
    ensures j < |P| && P[j] in d && P[j] !in exp && d[P[j]] <= base + j
  {
    if P[0] in exp {
      assert grid.Passable(m, P[0], P[1]);
      var P' := P[1..];
      forall i | 0 <= i < |P'| - 1 ensures grid.Passable(m, P'[i], P'[i + 1]) {
        assert P'[i] == P[i + 1] && P'[i + 1] == P[i + 2];
      }
      var j' := FirstUnexpanded(grid, m, P', exp, d, base + 1);
      j := j' + 1;
    } else {
      j := 0;
    }
  }

  /**
   * The search tree the solvers grow in came_from: rooted at start, every
   * other discovered cell linked to an expanded cell one open passage away,
   * one level below it.
   */
  ghost predicate Tree(g: Grid, m: WallMap, cf: CameFrom, d: map<Coord, nat>, exp: set<Coord>, start: Coord)
    requires g.Shaped(m)
  {
    && start in cf && cf[start] == None && start in d && d[start] == 0
    && d.Keys == cf.Keys && exp <= cf.Keys
    && (forall c :: c in cf ==> g.InBounds(c))
    && (forall c :: c in cf && cf[c].None? ==> c == start)
    && (forall c, p :: c in cf && cf[c] == Some(p) ==>
          p in exp && p in d && c in d && g.Passable(m, p, c) && d[c] == d[p] + 1)
  }

  /** The levels of a search tree rank its came-from links, and its cells lie on the grid. */
  lemma TreeChained(g: Grid, m: WallMap, cf: CameFrom, d: map<Coord, nat>, exp: set<Coord>, start: Coord)
    requires g.Shaped(m) && Tree(g, m, cf, d, exp, start)
    ensures Chained(cf, d) && forall c :: c in cf ==> g.InBounds(c)
  {
  }

  /** Adding a newly discovered cell n under the expanded cell p keeps the tree. */
  lemma TreeGrow(g: Grid, m: WallMap, cf: CameFrom, d: map<Coord, nat>, exp: set<Coord>, start: Coord, p: Coord, n: Coord)
    requires g.Shaped(m) && Tree(g, m, cf, d, exp, start)
    requires p in exp && n !in cf && g.Passable(m, p, n)
    ensures Tree(g, m, cf[n := Some(p)], d[n := d[p] + 1], exp, start)
  {
    assert cf[n := Some(p)].Keys == cf.Keys + {n};
    assert d[n := d[p] + 1].Keys == d.Keys + {n};
  }

  /** Expanding a discovered cell keeps the tree. */
  lemma TreeExpand(g: Grid, m: WallMap, cf: CameFrom, d: map<Coord, nat>, exp: set<Coord>, start: Coord, c: Coord)
    requires g.Shaped(m) && Tree(g, m, cf, d, exp, start) && c in cf
    ensures Tree(g, m, cf, d, exp + {c}, start)
  {
  }

  /** The chain Reconstruct walks in a search tree is a route from start to its last cell. */
  lemma TreeChainConnects(g: Grid, m: WallMap, cf: CameFrom, d: map<Coord, nat>, exp: set<Coord>, start: Coord, path: seq<Coord>)
    requires g.Shaped(m) && Tree(g, m, cf, d, exp, start) && FollowsLinks(cf, path)
    ensures Connects(g, m, path, start, path[|path| - 1])
    ensures |path| == d[path[|path| - 1]] + 1
  {
    ChainIsRoute(g, m, cf, path);
    ChainLevels(cf, d, path, |path| - 1);
  }

  /**
   * The closed-set flags: every discovered cell is on the grid, and a cell
   * is flagged exactly when this search discovered it or it was flagged
   * before the search started.
   */
  ghost predicate FlagsMatch(g: Grid, b: Board, b0: Board, cf: CameFrom)
    requires g.Shaped(b) && g.Shaped(b0)
  {
    (forall c :: c in cf ==> g.InBounds(c)) && FlaggedOn(g, b, b0, cf.Keys)
  }

  /** A cell the search treats as visited: recorded by it, or flagged before it began. */
  ghost predicate Seen(g: Grid, b0: Board, cf: CameFrom, n: Coord)
    requires g.Shaped(b0)
  {
    n in cf || (g.InBounds(n) && b0[n.x][n.y].visitedBySolver)
  }

  /** With the flags matched, a cell's flag says whether the search has seen it. */
  lemma FlagIsSeen(g: Grid, b: Board, b0: Board, cf: CameFrom, n: Coord)
    requires g.Shaped(b) && g.Shaped(b0) && FlagsMatch(g, b, b0, cf) && g.InBounds(n)
    ensures b[n.x][n.y].visitedBySolver <==> Seen(g, b0, cf, n)
  {
    assert Coord(n.x, n.y) == n;
  }

  /** Flagging a cell as discovered, and recording it, keeps the flags matched. */
  lemma FlagDiscovered(g: Grid, b: Board, b0: Board, cf: CameFrom, n: Coord, p: Option<Coord>)
    requires g.Shaped(b) && g.Shaped(b0) && FlagsMatch(g, b, b0, cf) && g.InBounds(n)
    ensures var b' := Put(b, n, b[n.x][n.y].(visitedBySolver := true, inFrontier := true));
            g.Shaped(b') && FlagsMatch(g, b', b0, cf[n := p])
  {
    var v := b[n.x][n.y].(visitedBySolver := true, inFrontier := true);
    var b': Board := Put(b, n, v);
    forall x | 0 <= x < g.cols ensures |b'[x]| == g.rows {
      PutAt(b, n, v, x, 0);
    }
    forall x, y | 0 <= x < g.cols && 0 <= y < g.rows
      ensures b'[x][y].visitedBySolver <==> Coord(x, y) in cf[n := p] || b0[x][y].visitedBySolver
    {
      PutAt(b, n, v, x, y);
    }
  }

  /** Changing a cell without touching its closed-set flag keeps the flags matched. */
  lemma FlagUntouched(g: Grid, b: Board, b0: Board, cf: CameFrom, n: Coord, v: Cell)
    requires g.Shaped(b) && g.Shaped(b0) && FlagsMatch(g, b, b0, cf) && g.InBounds(n)
    requires v.visitedBySolver == b[n.x][n.y].visitedBySolver
    ensures g.Shaped(Put(b, n, v)) && FlagsMatch(g, Put(b, n, v), b0, cf)
  {
    var b': Board := Put(b, n, v);
    forall x | 0 <= x < g.cols ensures |b'[x]| == g.rows {
      PutAt(b, n, v, x, 0);
    }
    forall x, y | 0 <= x < g.cols && 0 <= y < g.rows
      ensures b'[x][y].visitedBySolver <==> Coord(x, y) in cf || b0[x][y].visitedBySolver
    {
      PutAt(b, n, v, x, y);
    }
  }

  /**
   * The neighbours of c that no wall of c's cell in b blocks, in side
   * order: what get_accessible_neighbors returns on a grid whose walls are
   * those of b.
   */
  ghost function OpenAt(g: Grid, b: Board, c: Coord): seq<Coord>
    requires g.Shaped(b)
  {
    if g.InBounds(c) then g.Open(b[c.x][c.y], c, g.Neighbors(c)) else []
  }

  /** The open neighbours of c are exactly the cells one may step into from c. */
  lemma OpenAtPassable(g: Grid, b: Board, m: WallMap, c: Coord)
    requires g.Shaped(b) && g.Shaped(m) && g.InBounds(c) && m[c.x][c.y] == b[c.x][c.y].walls
    ensures forall k :: 0 <= k < |OpenAt(g, b, c)| ==> g.Passable(m, c, OpenAt(g, b, c)[k])
    ensures forall v :: g.Passable(m, c, v) ==> v in OpenAt(g, b, c)
  {
    var cell := b[c.x][c.y];
    var r := OpenAt(g, b, c);
    assert r == g.Open(cell, c, g.Neighbors(c));
    g.NeighborsFacts(c);
    g.OpenFacts(cell, c, g.Neighbors(c));
    forall k | 0 <= k < |r| ensures g.Passable(m, c, r[k]) {
      assert r[k] in r;
      assert !Blocked(m[c.x][c.y], c, r[k]) by {
        assert !CheckWalls(cell, c, r[k]);
      }
    }
    forall v | g.Passable(m, c, v) ensures v in r {
      assert v in g.Neighbors(c);
      assert !CheckWalls(cell, c, v);
    }
  }

  /** What the search does on the grid with walls b, it does on any board with the same walls. */
  lemma OpenAtSameWalls(g: Grid, b: Board, b0: Board, c: Coord)
    requires g.Shaped(b) && g.Shaped(b0) && g.InBounds(c) && SameMaze(b, b0)
    ensures g.Open(b[c.x][c.y], c, g.Neighbors(c)) == OpenAt(g, b0, c)
  {
    g.OpenWallsOnly(b[c.x][c.y], b0[c.x][c.y], c, g.Neighbors(c));
  }

  /** The cells among the first i entries of ns: those a loop over ns has handled. */
  ghost function Listed(ns: seq<Coord>, i: nat): set<Coord>
    requires i <= |ns|
  {
    if i == 0 then {} else Listed(ns, i - 1) + {ns[i - 1]}
  }

  lemma {:induction false} ListedAll(ns: seq<Coord>, i: nat)
    requires i <= |ns|
    ensures forall k :: 0 <= k < i ==> ns[k] in Listed(ns, i)
  {
    if i > 0 {
      ListedAll(ns, i - 1);
    }
  }

  /** A search records at most one entry per cell of the grid. */
  lemma FewKeys(g: Grid, cf: CameFrom)
    requires forall c :: c in cf ==> g.InBounds(c)
    ensures |cf| <= |g.AllCoords()|
  {
    SubsetCard(cf.Keys, g.AllCoords());
  }

  lemma {:induction false} SubsetCard<T>(a: set<T>, b: set<T>)
    requires a <= b
    ensures |a| <= |b|
    decreases |a|
  {
    if a != {} {
      var x :| x in a;
      SubsetCard(a - {x}, b - {x});
    }
  }

  /** Every discovered cell not yet expanded is waiting in the pending list. */
  ghost predicate Covers(q: seq<Coord>, cf: CameFrom, exp: set<Coord>) {
    forall c :: c in cf && c !in exp ==> c in q
  }

  /** Every open passage out of an expanded cell leads to a discovered cell. */
  ghost predicate Spread(g: Grid, m: WallMap, cf: CameFrom, exp: set<Coord>)
    requires g.Shaped(m)
  {
    forall u, v :: u in exp && g.Passable(m, u, v) ==> v in cf
  }

  /** Spread, except that of cur's passages only those to the cells in done are yet accounted for. */
  ghost predicate SpreadBut(g: Grid, m: WallMap, cf: CameFrom, exp: set<Coord>, cur: Coord, done: set<Coord>)
    requires g.Shaped(m)
  {
    forall u, v :: u in exp && g.Passable(m, u, v) && (u == cur ==> v in done) ==> v in cf
  }

  /** Expanding a cell starts its spread with none of its passages accounted for. */
  lemma PopSpread(g: Grid, m: WallMap, cf: CameFrom, exp: set<Coord>, cur: Coord)
    requires g.Shaped(m) && Spread(g, m, cf, exp)
    ensures SpreadBut(g, m, cf, exp + {cur}, cur, {})
  {
  }

  /** Meeting a discovered cell n from cur, newly or not, accounts for the passage to it. */
  lemma Reach(g: Grid, m: WallMap, cf: CameFrom, cf': CameFrom, exp: set<Coord>, cur: Coord, n: Coord, done: set<Coord>)
    requires g.Shaped(m) && SpreadBut(g, m, cf, exp, cur, done) && cf.Keys <= cf'.Keys && n in cf'
    ensures SpreadBut(g, m, cf', exp, cur, done + {n})
  {
  }

  /** Once every passage out of cur is accounted for, the expanded set spreads no further than what was discovered. */
  lemma SpreadOff(g: Grid, m: WallMap, cf: CameFrom, exp: set<Coord>, cur: Coord, done: set<Coord>)
    requires g.Shaped(m) && SpreadBut(g, m, cf, exp, cur, done)
    requires forall v :: g.Passable(m, cur, v) ==> v in done
    ensures Spread(g, m, cf, exp)
  {
  }

  /** A route that starts in a set closed under open passages stays in it. */
  lemma {:induction false} RouteStaysIn(g: Grid, m: WallMap, P: seq<Coord>, S: set<Coord>, i: nat)
    requires g.Shaped(m) && g.IsRoute(m, P) && P[0] in S && i < |P|
    requires forall u, v :: u in S && g.Passable(m, u, v) ==> v in S
    ensures P[i] in S
  {
    if i > 0 {
      RouteStaysIn(g, m, P, S, i - 1);
      assert g.Passable(m, P[i - 1], P[i]);
    }
  }

  /**
   * With every discovered cell expanded and every passage out of an
   * expanded cell leading to a discovered one, no cell left undiscovered
   * is reachable from start.
   */
  lemma SpreadUnreachable(g: Grid, m: WallMap, cf: CameFrom, exp: set<Coord>, start: Coord, e: Coord)
    requires g.Shaped(m) && start in cf && cf.Keys <= exp
    requires Spread(g, m, cf, exp) && e !in cf
    ensures !Reachable(g, m, start, e)
  {
    if P :| Connects(g, m, P, start, e) {
      RouteStaysIn(g, m, P, cf.Keys, |P| - 1);
    }
  }

  /**
   * Every open passage out of an expanded cell leads to a discovered
   * cell; with levels, to one at most one level below.
   */
  ghost predicate Closed(g: Grid, m: WallMap, cf: CameFrom, d: map<Coord, nat>, exp: set<Coord>)
    requires g.Shaped(m)
  {
    forall u, v :: u in exp && g.Passable(m, u, v) ==> v in cf && u in d && v in d && d[v] <= d[u] + 1
  }

  /** Expanded cells lie at most at level lvl, discovered ones at most one further. */
  ghost predicate Levels(d: map<Coord, nat>, exp: set<Coord>, lvl: nat) {
    && (forall c :: c in exp ==> c in d && d[c] <= lvl)
    && (forall c :: c in d ==> d[c] <= lvl + 1)
  }

  /** Closed, except that of cur's passages only those to the cells in done are yet accounted for. */
  ghost predicate ClosedBut(g: Grid, m: WallMap, cf: CameFrom, d: map<Coord, nat>, exp: set<Coord>, cur: Coord, done: set<Coord>)
    requires g.Shaped(m)
  {
    forall u, v :: u in exp && g.Passable(m, u, v) && (u == cur ==> v in done) ==>
      v in cf && u in d && v in d && d[v] <= d[u] + 1
  }

  /** Expanding a cell starts its closure with none of its passages accounted for. */
  lemma PopClosed(g: Grid, m: WallMap, cf: CameFrom, d: map<Coord, nat>, exp: set<Coord>, cur: Coord)
    requires g.Shaped(m) && Closed(g, m, cf, d, exp)
    ensures ClosedBut(g, m, cf, d, exp + {cur}, cur, {})
  {
  }

  /** Discovering n from the cell cur being expanded accounts for the passage to n. */
  lemma PushClosed(g: Grid, m: WallMap, cf: CameFrom, d: map<Coord, nat>, exp: set<Coord>, cur: Coord, n: Coord, done: set<Coord>)
    requires g.Shaped(m) && ClosedBut(g, m, cf, d, exp, cur, done) && n !in d && cur in d
    ensures ClosedBut(g, m, cf[n := Some(cur)], d[n := d[cur] + 1], exp, cur, done + {n})
  {
  }

  /** Meeting an already discovered cell n from cur accounts for the passage to it. */
  lemma Skip(g: Grid, m: WallMap, cf: CameFrom, d: map<Coord, nat>, exp: set<Coord>, lvl: nat, cur: Coord, n: Coord, done: set<Coord>)
    requires g.Shaped(m) && Levels(d, exp, lvl) && cur in d && d[cur] == lvl && n in cf && n in d
    requires ClosedBut(g, m, cf, d, exp, cur, done)
    ensures ClosedBut(g, m, cf, d, exp, cur, done + {n})
  {
  }

  /** Once every passage out of cur is accounted for, the expanded set is closed. */
  lemma CloseOff(g: Grid, m: WallMap, cf: CameFrom, d: map<Coord, nat>, exp: set<Coord>, cur: Coord, done: set<Coord>)
    requires g.Shaped(m) && ClosedBut(g, m, cf, d, exp, cur, done)
    requires forall v :: g.Passable(m, cur, v) ==> v in done
    ensures Closed(g, m, cf, d, exp)
  {
  }
  /**
   * With every discovered cell expanded and the expanded set closed,
   * nothing outside it is reachable from start.
   */
  lemma ClosedUnreachable(g: Grid, m: WallMap, cf: CameFrom, d: map<Coord, nat>, exp: set<Coord>, start: Coord, e: Coord)
    requires g.Shaped(m) && Tree(g, m, cf, d, exp, start) && cf.Keys <= exp
    requires Closed(g, m, cf, d, exp) && e !in exp
    ensures !Reachable(g, m, start, e)
  {
    if P :| Connects(g, m, P, start, e) {
      var j := FirstUnexpanded(g, m, P, exp, d, 0);
    }
  }

  /**
   * A route from start to e is no shorter than the level of e, when every
   * discovered cell still unexpanded lies at least as deep as e and e is
   * not expanded.
   */
  lemma LevelIsShortest(g: Grid, m: WallMap, cf: CameFrom, d: map<Coord, nat>, exp: set<Coord>, start: Coord, e: Coord, P: seq<Coord>)
    requires g.Shaped(m) && Tree(g, m, cf, d, exp, start) && Closed(g, m, cf, d, exp)
    requires e in d && e !in exp
    requires forall c :: c in cf && c !in exp ==> d[e] <= d[c]
    requires Connects(g, m, P, start, e)
    ensures d[e] + 1 <= |P|
  {
    var j := FirstUnexpanded(g, m, P, exp, d, 0);
  }
}
