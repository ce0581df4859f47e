/**
 * The inner loop the breadth-first and depth-first solvers share
 * (model/solvers/bfs.py, model/solvers/dfs.py): every open neighbour of
 * the cell being expanded that the search has not seen is flagged, linked
 * back to it and appended to the pending list. The two searches differ
 * only in which end of that list they take the next cell from.
 */
module Discovery {
  import opened Options
  import opened Cells
  import opened Grids
  import opened Search

  /**
   * The search state: the cells waiting to be expanded (the queue of the
   * breadth-first search, the stack of the depth-first one) and came_from,
   * and, for the proofs only, the tree depth of each discovered cell, the
   * expanded cells and the depth of the cell last expanded.
   */
  datatype St = St(pending: seq<Coord>, cameFrom: CameFrom, d: map<Coord, nat>, exp: set<Coord>, lvl: nat)

  /** Before the first round: start pending and recorded with no predecessor. */
  function Init(start: Coord): St {
    St([start], map[start := None], map[start := 0], {}, 0)
  }

  /** The neighbour n of cur is recorded and appended to the pending list unless the search has seen it. */
  ghost function VisitOne(g: Grid, b0: Board, s: St, cur: Coord, n: Coord): St
    requires g.Shaped(b0)
  {
    if Seen(g, b0, s.cameFrom, n) then s
    else s.(pending := s.pending + [n], cameFrom := s.cameFrom[n := Some(cur)], d := s.d[n := s.lvl + 1])
  }

  /** The first i neighbours in ns of cur visited in turn. */
  ghost function VisitFrom(g: Grid, b0: Board, s: St, cur: Coord, ns: seq<Coord>, i: nat): St
    requires g.Shaped(b0) && i <= |ns|
  {
    if i == 0 then s else VisitOne(g, b0, VisitFrom(g, b0, s, cur, ns, i - 1), cur, ns[i - 1])
  }

  /** One more neighbour visited: the state is kept when the search has seen it, and otherwise grows by it. */
  lemma VisitFromNext(g: Grid, b0: Board, s: St, cur: Coord, ns: seq<Coord>, i: nat)
    requires g.Shaped(b0) && i < |ns|
    ensures var p, t := VisitFrom(g, b0, s, cur, ns, i), VisitFrom(g, b0, s, cur, ns, i + 1);
            && (Seen(g, b0, p.cameFrom, ns[i]) ==> t.pending == p.pending && t.cameFrom == p.cameFrom)
            && (!Seen(g, b0, p.cameFrom, ns[i]) ==>
                  t.pending == p.pending + [ns[i]] && t.cameFrom == p.cameFrom[ns[i] := Some(cur)])
  {
  }

  /** All open neighbours of cur visited in turn. */
  ghost function Expanded(g: Grid, b0: Board, s: St, cur: Coord): St
    requires g.Shaped(b0)
  {
    VisitFrom(g, b0, s, cur, OpenAt(g, b0, cur), |OpenAt(g, b0, cur)|)
  }

  /** Visiting neighbours leaves the expanded set and the level alone and adds as many pending entries as records. */
  lemma {:induction false} VisitFromShape(g: Grid, b0: Board, s: St, cur: Coord, ns: seq<Coord>, i: nat)
    requires g.Shaped(b0) && i <= |ns|
    ensures var t := VisitFrom(g, b0, s, cur, ns, i);
            && t.exp == s.exp && t.lvl == s.lvl
            && |t.pending| - |t.cameFrom| == |s.pending| - |s.cameFrom|
  {
    if i > 0 {
      VisitFromShape(g, b0, s, cur, ns, i - 1);
      var p := VisitFrom(g, b0, s, cur, ns, i - 1);
      if !Seen(g, b0, p.cameFrom, ns[i - 1]) {
        assert ns[i - 1] !in p.cameFrom;
      }
    }
  }

  /** Visiting one open neighbour n of the expanded cell cur, at level lvl, keeps the search tree. */
  lemma VisitOneTree(g: Grid, m: WallMap, b0: Board, s: St, cur: Coord, n: Coord, start: Coord)
    requires g.Shaped(m) && g.Shaped(b0) && g.Passable(m, cur, n)
    requires Tree(g, m, s.cameFrom, s.d, s.exp, start) && cur in s.exp && cur in s.d && s.d[cur] == s.lvl
    ensures var t := VisitOne(g, b0, s, cur, n);
            && Tree(g, m, t.cameFrom, t.d, t.exp, start) && cur in t.exp && cur in t.d && t.d[cur] == t.lvl
  {
    if !Seen(g, b0, s.cameFrom, n) {
      TreeGrow(g, m, s.cameFrom, s.d, s.exp, start, cur, n);
    }
  }

  /** Visiting open neighbours of the expanded cell cur, at level lvl, keeps the search tree. */
  lemma {:induction false} VisitFromTree(g: Grid, m: WallMap, b0: Board, s: St, cur: Coord, ns: seq<Coord>, i: nat, start: Coord)
    requires g.Shaped(m) && g.Shaped(b0) && i <= |ns|
    requires Tree(g, m, s.cameFrom, s.d, s.exp, start) && cur in s.exp && cur in s.d && s.d[cur] == s.lvl
    requires forall k :: 0 <= k < |ns| ==> g.Passable(m, cur, ns[k])
    ensures var t := VisitFrom(g, b0, s, cur, ns, i);
            && Tree(g, m, t.cameFrom, t.d, t.exp, start) && cur in t.exp && cur in t.d && t.d[cur] == t.lvl
  {
    if i > 0 {
      VisitFromTree(g, m, b0, s, cur, ns, i - 1, start);
      VisitOneTree(g, m, b0, VisitFrom(g, b0, s, cur, ns, i - 1), cur, ns[i - 1], start);
    }
  }

  /**
   * The inner loop of the search: each open neighbour n of current not
   * yet flagged visited_by_solver is flagged, linked back to current and
   * appended to the pending list, as VisitFrom describes.
   */
  method Discover(grid: Grid, current: Coord, pending0: seq<Coord>, cameFrom0: CameFrom, ghost b0: Board, ghost s0: St)
    returns (pending: seq<Coord>, cameFrom: CameFrom)
    requires grid.Valid() && grid.Shaped(b0) && SameMaze(grid.cells, b0) && FlagsMatch(grid, grid.cells, b0, cameFrom0)
    requires grid.InBounds(current) && pending0 == s0.pending && cameFrom0 == s0.cameFrom
    modifies grid`cells
    ensures grid.Valid() && SameMaze(grid.cells, b0) && FlagsMatch(grid, grid.cells, b0, cameFrom)
    ensures pending == Expanded(grid, b0, s0, current).pending
    ensures cameFrom == Expanded(grid, b0, s0, current).cameFrom
    ensures PathMarks(grid.cells) == PathMarks(old(grid.cells))
  {
    var ns := grid.GetAccessibleNeighbors(current);
    grid.AccessibleFacts(current);
    OpenAtSameWalls(grid, grid.cells, b0, current);
    pending, cameFrom := pending0, cameFrom0;
    for i := 0 to |ns|
      invariant grid.Valid() && SameMaze(grid.cells, b0) && FlagsMatch(grid, grid.cells, b0, cameFrom)
      invariant pending == VisitFrom(grid, b0, s0, current, ns, i).pending
      invariant cameFrom == VisitFrom(grid, b0, s0, current, ns, i).cameFrom
      invariant PathMarks(grid.cells) == PathMarks(old(grid.cells))
    {
      var n := ns[i];
      FlagIsSeen(grid, grid.cells, b0, cameFrom, n);
      VisitFromNext(grid, b0, s0, current, ns, i);
      if !grid.cells[n.x][n.y].visitedBySolver {
        FlagDiscovered(grid, grid.cells, b0, cameFrom, n, Some(current));
        ghost var b1 := grid.cells;
        SetFlags(grid, n, grid.cells[n.x][n.y].(visitedBySolver := true, inFrontier := true));
        SameMazeTrans(grid.cells, b1, b0);
        cameFrom := cameFrom[n := Some(current)];
        pending := pending + [n];
      }
    }
  }
}
