/**
 * Prim's maze generator (model/generators/prims.py): from a random
 * start cell, repeatedly take a random cell of the frontier (untaken
 * cells next to the maze), knock down the wall into one of its taken
 * neighbours, take it in and add its untaken neighbours to the frontier.
 * Random choices are the verifier's: any choice the source could make.
 */
module Prims {
  import opened Options
  import opened Cells
  import opened Grids
  import opened Carving

  /** Every frontier cell is on the grid, not yet taken, and next to a taken cell. */
  ghost predicate Frontier(g: Grid, b: Board, F: set<Coord>)
    requires g.Shaped(b)
  {
    forall f :: f in F ==>
      && g.InBounds(f) && !b[f.x][f.y].visited
      && exists n :: g.InBounds(n) && Adjacent(f, n) && b[n.x][n.y].visited
  }

  /** Every untaken neighbour of a taken cell is on the frontier. */
  ghost predicate Rimmed(g: Grid, b: Board, F: set<Coord>)
    requires g.Shaped(b)
  {
    forall c, n :: c in VisitedCells(g, b) && g.InBounds(n) && Adjacent(c, n) ==> b[n.x][n.y].visited || n in F
  }

  /** What the loop keeps: a frontier, and on a run from a fresh board a growing maze the frontier rims. */
  ghost predicate Kept(g: Grid, b: Board, F: set<Coord>, fromFresh: bool, start: Coord)
    requires g.Shaped(b)
  {
    Frontier(g, b, F) && (fromFresh ==> Growing(g, b, start) && Rimmed(g, b, F))
  }

  /** A frontier cell always has a taken neighbour to knock through to. */
  lemma FrontierHasTakenNeighbor(g: Grid, b: Board, F: set<Coord>, f: Coord)
    requires g.Shaped(b) && Frontier(g, b, F) && f in F
    ensures g.VisitedAmong(b, g.Neighbors(f), true) != []
  {
    var n :| g.InBounds(n) && Adjacent(f, n) && b[n.x][n.y].visited;
    g.NeighborsFacts(f);
    g.VisitedAmongMembers(b, g.Neighbors(f), true);
    assert n in g.VisitedAmong(b, g.Neighbors(f), true);
  }

  /** The frontier F after cur, taken in on b, is traded for its untaken neighbours. */
  ghost function Traded(g: Grid, b: Board, F: set<Coord>, cur: Coord): set<Coord>
    requires g.Shaped(b)
  {
    (F + set n | n in g.UnvisitedIn(b, cur)) - {cur}
  }

  /** Taking cur in on a board whose flags are those of b changes no other cell's flag. */
  lemma TakeIn(g: Grid, b: Board, b1: Board, cur: Coord)
    requires g.Shaped(b) && g.Shaped(b1) && FlagsOf(b1) == FlagsOf(b) && g.InBounds(cur)
    ensures g.Shaped(Visit(b1, cur))
    ensures forall q :: g.InBounds(q) ==> (Visit(b1, cur)[q.x][q.y].visited <==> b[q.x][q.y].visited || q == cur)
    ensures Untaken(g, Visit(b1, cur)) == Untaken(g, b) - {cur}
  {
    var b2: Board := Visit(b1, cur);
    VisitAdds(g, b, b1, cur);
    forall q | g.InBounds(q) ensures b2[q.x][q.y].visited <==> b[q.x][q.y].visited || q == cur {
      assert q in VisitedCells(g, b2) <==> q in VisitedCells(g, b) || q == cur;
    }
  }

  /**
   * Taking a frontier cell in, on a board whose flags are those of b,
   * and trading it on the frontier for its untaken neighbours keeps the
   * frontier a frontier, keeps it rimming the maze, and leaves one cell
   * fewer untaken.
   */
  lemma Advance(g: Grid, b: Board, F: set<Coord>, cur: Coord, b1: Board, b2: Board)
    requires g.Shaped(b) && g.Shaped(b1) && FlagsOf(b1) == FlagsOf(b)
    requires Frontier(g, b, F) && cur in F && b2 == Visit(b1, cur)
    ensures g.Shaped(b2)
    ensures Frontier(g, b2, Traded(g, b2, F, cur))
    ensures Rimmed(g, b, F) ==> Rimmed(g, b2, Traded(g, b2, F, cur))
    ensures |Untaken(g, b2)| < |Untaken(g, b)|
  {
    TakeIn(g, b, b1, cur);
    var N := set n | n in g.UnvisitedIn(b2, cur);
    g.UnvisitedNeighborsFacts(b2, cur);
    AdvanceFrontier(g, b, b2, F, cur, N);
    if Rimmed(g, b, F) {
      AdvanceRim(g, b, b2, F, cur, N);
    }
    RemoveOne(Untaken(g, b), cur);
  }

  /** The frontier after one step is still a frontier. */
  lemma AdvanceFrontier(g: Grid, b: Board, b2: Board, F: set<Coord>, cur: Coord, N: set<Coord>)
    requires g.Shaped(b) && g.Shaped(b2) && Frontier(g, b, F) && cur in F
    requires forall q :: g.InBounds(q) ==> (b2[q.x][q.y].visited <==> b[q.x][q.y].visited || q == cur)
    requires forall n :: n in N ==> g.InBounds(n) && Adjacent(cur, n) && !b2[n.x][n.y].visited
    ensures Frontier(g, b2, (F + N) - {cur})
  {
    forall f | f in (F + N) - {cur}
      ensures g.InBounds(f) && !b2[f.x][f.y].visited
      ensures exists n :: g.InBounds(n) && Adjacent(f, n) && b2[n.x][n.y].visited
    {
      if f in N {
        assert g.InBounds(cur) && Adjacent(f, cur) && b2[cur.x][cur.y].visited;
      } else {
        var n :| g.InBounds(n) && Adjacent(f, n) && b[n.x][n.y].visited;
        assert b2[n.x][n.y].visited;
      }
    }
  }

  /** After one step the frontier still holds every untaken neighbour of the maze. */
  lemma AdvanceRim(g: Grid, b: Board, b2: Board, F: set<Coord>, cur: Coord, N: set<Coord>)
    requires g.Shaped(b) && g.Shaped(b2) && Rimmed(g, b, F) && g.InBounds(cur)
    requires forall q :: g.InBounds(q) ==> (b2[q.x][q.y].visited <==> b[q.x][q.y].visited || q == cur)
    requires forall n :: g.InBounds(n) && Adjacent(cur, n) && !b2[n.x][n.y].visited ==> n in N
    ensures Rimmed(g, b2, (F + N) - {cur})
  {
    forall c, n | c in VisitedCells(g, b2) && g.InBounds(n) && Adjacent(c, n)
      ensures b2[n.x][n.y].visited || n in (F + N) - {cur}
    {
      if c != cur {
        assert c in VisitedCells(g, b);
      }
    }
  }

  /** The start cell taken in, its untaken neighbours make a frontier that rims a fresh maze. */
  lemma FrontierStart(g: Grid, b: Board, start: Coord)
    requires g.Shaped(b) && g.InBounds(start)
    ensures var b1 := Visit(b, start);
            && g.Shaped(b1)
            && Frontier(g, b1, set n | n in g.UnvisitedIn(b1, start))
            && (Fresh(g, b) ==> Rimmed(g, b1, set n | n in g.UnvisitedIn(b1, start)))
  {
    var b1: Board := Visit(b, start);
    TakeIn(g, b, b, start);
    g.UnvisitedNeighborsFacts(b1, start);
    var F := set n | n in g.UnvisitedIn(b1, start);
    forall f | f in F ensures exists n :: g.InBounds(n) && Adjacent(f, n) && b1[n.x][n.y].visited {
      assert g.InBounds(start) && Adjacent(f, start) && b1[start.x][start.y].visited;
    }
    if Fresh(g, b) {
      forall c, n | c in VisitedCells(g, b1) && g.InBounds(n) && Adjacent(c, n) ensures b1[n.x][n.y].visited || n in F {
        assert c == start;
      }
    }
  }

  /** With no frontier left, a rimmed maze has every neighbour of a taken cell taken. */
  lemma RimmedSaturated(g: Grid, b: Board)
    requires g.Shaped(b) && Rimmed(g, b, {})
    ensures Saturated(g, b)
  {
    forall p, n | g.InBounds(p) && g.InBounds(n) && Adjacent(p, n) && b[p.x][p.y].visited ensures b[n.x][n.y].visited {
      assert p in VisitedCells(g, b);
    }
  }

  /**
   * Carves a maze into grid by Prim's method from a start cell drawn
   * anywhere on the grid. A fresh board ends as a perfect maze; the
   * display pointer ends cleared.
   */
  method Generate(grid: Grid)
    requires grid.Valid()
    modifies grid
    ensures grid.Valid() && grid.current == None
    ensures Fresh(grid, old(grid.cells)) ==> PerfectMaze(grid, grid.cells)
  {
    ghost var fromFresh := Fresh(grid, grid.cells);
    var startX :| 0 <= startX <= grid.cols - 1;
    var startY :| 0 <= startY <= grid.rows - 1;
    var start := Coord(startX, startY);
    FrontierStart(grid, grid.cells, start);
    if fromFresh {
      GrowStart(grid, grid.cells, start);
    }
    grid.cells := Visit(grid.cells, start);
    grid.current := Some(start);
    var frontier := set n | n in grid.GetUnvisitedNeighbors(start);
    while frontier != {}
      invariant grid.Valid() && Kept(grid, grid.cells, frontier, fromFresh, start)
      decreases |Untaken(grid, grid.cells)|
    {
      var current, neighbor;
      frontier, current, neighbor := Expand(grid, frontier, fromFresh, start);
    }
    grid.current := None;
    if fromFresh {
      RimmedSaturated(grid, grid.cells);
      Spans(grid, grid.cells, start);
    }
  }

  /**
   * What one pass of the loop keeps: knocking through from frontier cell
   * cur into its taken neighbour nb and taking cur in keeps the frontier,
   * keeps a fresh run growing and rimmed, and leaves one cell fewer untaken.
   */
  lemma Pass(g: Grid, b: Board, F: set<Coord>, cur: Coord, nb: Coord, b1: Board, b2: Board, fromFresh: bool, start: Coord)
    requires g.Shaped(b) && Kept(g, b, F, fromFresh, start) && cur in F
    requires g.InBounds(nb) && Adjacent(cur, nb) && b[nb.x][nb.y].visited
    requires b1 == g.WithoutWall(b, cur, nb) && b2 == Visit(b1, cur)
    ensures g.Shaped(b2) && Kept(g, b2, Traded(g, b2, F, cur), fromFresh, start)
    ensures |Untaken(g, b2)| < |Untaken(g, b)|
  {
    g.WithoutWallFacts(b, cur, nb);
    Advance(g, b, F, cur, b1, b2);
    if fromFresh {
      GrowKeeps(g, b, start, cur, nb, cur, b1);
    }
  }

  /**
   * One pass of the loop: take a frontier cell current in through the
   * wall knocked down into a taken neighbour, and trade it on the
   * frontier for its untaken neighbours.
   */
  method Expand(grid: Grid, frontier0: set<Coord>, ghost fromFresh: bool, ghost start: Coord)
    returns (frontier: set<Coord>, current: Coord, neighbor: Coord)
    requires grid.Valid() && frontier0 != {} && Kept(grid, grid.cells, frontier0, fromFresh, start)
    modifies grid
    ensures current in frontier0 && grid.current == Some(current)
    ensures grid.InBounds(neighbor) && Adjacent(current, neighbor) && old(grid.cells)[neighbor.x][neighbor.y].visited
    ensures grid.Valid() && grid.cells == Visit(grid.WithoutWall(old(grid.cells), current, neighbor), current)
    ensures frontier == Traded(grid, grid.cells, frontier0, current)
    ensures Kept(grid, grid.cells, frontier, fromFresh, start)
    ensures |Untaken(grid, grid.cells)| < |Untaken(grid, old(grid.cells))|
  {
    current :| current in frontier0;
    grid.current := Some(current);
    ghost var b := grid.cells;
    FrontierHasTakenNeighbor(grid, b, frontier0, current);
    neighbor := KnockThrough(grid, current);
    Pass(grid, b, frontier0, current, neighbor, grid.cells, Visit(grid.cells, current), fromFresh, start);
    grid.cells := Visit(grid.cells, current);
    var newNeighbors := grid.GetUnvisitedNeighbors(current);
    var added := AddAll(frontier0, newNeighbors);
    frontier := added - {current};
    TradedBy(grid, grid.cells, frontier0, current, newNeighbors, added);
  }

  /**
   * Knocks down the wall between cur and a neighbour already taken,
   * drawn from those there are; the caller guarantees there is one.
   */
  method KnockThrough(grid: Grid, cur: Coord) returns (neighbor: Coord)
    requires grid.Valid() && grid.InBounds(cur) && grid.VisitedAmong(grid.cells, grid.Neighbors(cur), true) != []
    modifies grid`cells
    ensures grid.InBounds(neighbor) && Adjacent(cur, neighbor) && old(grid.cells)[neighbor.x][neighbor.y].visited
    ensures grid.Valid() && grid.cells == grid.WithoutWall(old(grid.cells), cur, neighbor)
  {
    var neighbors := grid.GetNeighbors(cur);
    var visitedNeighbors := grid.VisitedAmong(grid.cells, neighbors, true);
    if |visitedNeighbors| > 0 {
      assert visitedNeighbors[0] in visitedNeighbors;
      neighbor :| neighbor in visitedNeighbors;
      grid.VisitedAmongMembers(grid.cells, neighbors, true);
      grid.RemoveWall(cur, neighbor);
    } else {
      // A frontier cell always has a taken neighbour.
      assert false;
    }
  }

  /** The frontier after a pass, as the loop builds it. */
  lemma TradedBy(g: Grid, b: Board, F: set<Coord>, cur: Coord, ns: seq<Coord>, added: set<Coord>)
    requires g.Shaped(b) && ns == g.UnvisitedIn(b, cur) && added == F + set n | n in ns
    ensures added - {cur} == Traded(g, b, F, cur)
  {
  }

  /** Adds the members of ns to the set F one at a time. */
  method AddAll(F: set<Coord>, ns: seq<Coord>) returns (r: set<Coord>)
    ensures r == F + set n | n in ns
  {
    r := F;
    for i := 0 to |ns|
      invariant forall n :: n in r <==> n in F || n in ns[..i]
    {
      assert forall n :: n in ns[..i + 1] <==> n in ns[..i] || n == ns[i];
      r := r + {ns[i]};
    }
    assert ns[..|ns|] == ns;
    assert r == F + set n | n in ns;
  }
}
