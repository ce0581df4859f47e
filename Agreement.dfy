/**
 * What the shortest-path solvers have in common: on the same maze the
 * breadth-first search (on a grid with no cell flagged beforehand),
 * Dijkstra's algorithm and A* return paths of the same length, since
 * each returns a shortest route or, when there is none, nothing.
 */
module Agreement {
  import opened Cells
  import opened Grids
  import opened Search
  import BfsSpec
  import DijkstraSpec
  import AStarSpec

  /**
   * With unit steps Dijkstra's algorithm finds paths as short as the
   * breadth-first search does: the two paths read off stopped searches
   * of the same maze have the same length.
   */
  lemma DijkstraMatchesBfs(g: Grid, b0: Board, start: Coord, end: Coord, kb: nat, pb: seq<Coord>, kd: nat, pd: seq<Coord>)
    requires g.Shaped(b0) && g.InBounds(start) && NoneFlagged(b0)
    requires BfsSpec.Stopped(BfsSpec.Run(g, b0, start, end, kb), end)
    requires pb == [] <==> end !in BfsSpec.Run(g, b0, start, end, kb).cameFrom
    requires pb != [] ==> FollowsLinks(BfsSpec.Run(g, b0, start, end, kb).cameFrom, pb) && pb[|pb| - 1] == end
    requires DijkstraSpec.Stopped(DijkstraSpec.Run(g, b0, start, end, kd), end)
    requires pd == [] <==> end !in DijkstraSpec.Run(g, b0, start, end, kd).cameFrom
    requires pd != [] ==> FollowsLinks(DijkstraSpec.Run(g, b0, start, end, kd).cameFrom, pd) && pd[|pd| - 1] == end
    ensures |pb| == |pd|
  {
    BfsSpec.PathOutcome(g, b0, start, end, kb, pb);
    DijkstraSpec.PathOutcome(g, b0, start, end, kd, pd);
    if pb != [] {
      assert Connects(g, WallsOf(b0), pb, start, end);
      assert Connects(g, WallsOf(b0), pd, start, end);
    }
  }

  /**
   * A* with the Manhattan heuristic finds paths as short as Dijkstra's
   * algorithm does, whatever flags the grid carries.
   */
  lemma AStarMatchesDijkstra(g: Grid, b0: Board, start: Coord, end: Coord, kd: nat, pd: seq<Coord>, ka: nat, pa: seq<Coord>)
    requires g.Shaped(b0) && g.InBounds(start)
    requires DijkstraSpec.Stopped(DijkstraSpec.Run(g, b0, start, end, kd), end)
    requires pd == [] <==> end !in DijkstraSpec.Run(g, b0, start, end, kd).cameFrom
    requires pd != [] ==> FollowsLinks(DijkstraSpec.Run(g, b0, start, end, kd).cameFrom, pd) && pd[|pd| - 1] == end
    requires AStarSpec.Stopped(AStarSpec.Run(g, b0, start, end, ka), end)
    requires pa == [] <==> end !in AStarSpec.Run(g, b0, start, end, ka).cameFrom
    requires pa != [] ==> FollowsLinks(AStarSpec.Run(g, b0, start, end, ka).cameFrom, pa) && pa[|pa| - 1] == end
    ensures |pd| == |pa|
  {
    DijkstraSpec.PathOutcome(g, b0, start, end, kd, pd);
    AStarSpec.PathOutcome(g, b0, start, end, ka, pa);
    if pd != [] {
      assert Connects(g, WallsOf(b0), pd, start, end);
      assert Connects(g, WallsOf(b0), pa, start, end);
    }
  }
}
