/**
 * What the two maze generators share: the cells taken into the maze,
 * the passages carved so far, the invariant of a carving that grows a
 * spanning tree one cell at a time, and the perfect maze it ends in.
 */
module Carving {
  import opened Options
  import opened Cells
  import opened Grids
  import opened Search

  /** b with the cell at c taken into the maze. */
  function Visit(b: Board, c: Coord): Board
    requires 0 <= c.x < |b| && 0 <= c.y < |b[c.x]|
  {
    Put(b, c, b[c.x][c.y].(visited := true))
  }

  /** The cells of b a generator has taken into the maze. */
  ghost function VisitedCells(g: Grid, b: Board): set<Coord>
    requires g.Shaped(b)
  {
    set c | c in g.AllCoords() && b[c.x][c.y].visited
  }

  /** The cells of b not yet taken into the maze. */
  ghost function Untaken(g: Grid, b: Board): set<Coord>
    requires g.Shaped(b)
  {
    g.AllCoords() - VisitedCells(g, b)
  }

  /** A board a generator may start from: every wall standing and no cell taken. */
  ghost predicate Fresh(g: Grid, b: Board)
    requires g.Shaped(b)
  {
    forall x, y :: 0 <= x < g.cols && 0 <= y < g.rows ==> b[x][y].walls == AllWalls && !b[x][y].visited
  }

  /** The cells with a right-hand neighbour and no wall towards it. */
  ghost function OpenRight(g: Grid, m: WallMap): set<Coord>
    requires g.Shaped(m)
  {
    set c | c in g.AllCoords() && c.x < g.cols - 1 && !m[c.x][c.y].right
  }

  /** The cells with a neighbour below and no wall towards it. */
  ghost function OpenBelow(g: Grid, m: WallMap): set<Coord>
    requires g.Shaped(m)
  {
    set c | c in g.AllCoords() && c.y < g.rows - 1 && !m[c.x][c.y].bottom
  }

  /** The number of inner walls knocked down in m, each counted once. */
  ghost function Passages(g: Grid, m: WallMap): nat
    requires g.Shaped(m)
  {
    |OpenRight(g, m)| + |OpenBelow(g, m)|
  }

  /** The outer wall of the grid stands all round. */
  ghost predicate Enclosed(g: Grid, m: WallMap)
    requires g.Shaped(m)
  {
    forall x, y :: 0 <= x < g.cols && 0 <= y < g.rows ==>
      && (x == 0 ==> m[x][y].left) && (x == g.cols - 1 ==> m[x][y].right)
      && (y == 0 ==> m[x][y].top) && (y == g.rows - 1 ==> m[x][y].bottom)
  }

  /**
   * A carving in progress, grown from root: the walls agree between
   * neighbours, every cell not yet taken is still fully walled, every
   * taken cell is reachable from root, and the carved passages number
   * one less than the taken cells, so that they form a tree over them.
   */
  ghost predicate Growing(g: Grid, b: Board, root: Coord)
    requires g.Shaped(b)
  {
    && g.InBounds(root) && b[root.x][root.y].visited
    && g.SymmetricWalls(WallsOf(b))
    && Enclosed(g, WallsOf(b))
    && (forall x, y :: 0 <= x < g.cols && 0 <= y < g.rows && !b[x][y].visited ==> b[x][y].walls == AllWalls)
    && (forall c :: c in VisitedCells(g, b) ==> Reachable(g, WallsOf(b), root, c))
    && Passages(g, WallsOf(b)) + 1 == |VisitedCells(g, b)|
  }

  /**
   * A perfect maze: every cell taken, the outer wall intact, the walls
   * agreeing between neighbours, every cell reachable from every other,
   * and exactly rows * cols - 1 inner walls knocked down, so that the
   * passages form a spanning tree of the grid.
   */
  ghost predicate PerfectMaze(g: Grid, b: Board)
    requires g.Shaped(b)
  {
    && (forall x, y :: 0 <= x < g.cols && 0 <= y < g.rows ==> b[x][y].visited)
    && g.SymmetricWalls(WallsOf(b))
    && Enclosed(g, WallsOf(b))
    && (forall c, d :: g.InBounds(c) && g.InBounds(d) ==> Reachable(g, WallsOf(b), c, d))
    && Passages(g, WallsOf(b)) == g.rows * g.cols - 1
  }

  /** Knocking down a wall only ever opens sides of a cell. */
  lemma WallAfterOnlyOpens(w: Walls, a: Coord, c: Coord, p: Coord, s: Side)
    ensures WallAfter(w, a, c, p).Get(s) ==> w.Get(s)
  {
  }

  /** Every passage open before a wall is knocked down stays open. */
  lemma PassagesKept(g: Grid, m: WallMap, a: Coord, c: Coord)
    requires g.Shaped(m) && g.InBounds(a) && g.InBounds(c)
    ensures forall p, n :: g.Passable(m, p, n) ==> g.Passable(g.RemoveWallIn(m, a, c), p, n)
  {
    var m' := g.RemoveWallIn(m, a, c);
    forall p, n | g.Passable(m, p, n) ensures g.Passable(m', p, n) {
      WallAfterOnlyOpens(m[p.x][p.y], a, c, p, SideToward(p, n).value);
    }
  }

  /** A route through m is still a route through any m' that opens at least the passages of m. */
  lemma RouteKept(g: Grid, m: WallMap, m': WallMap, P: seq<Coord>)
    requires g.Shaped(m) && g.Shaped(m') && g.IsRoute(m, P)
    requires forall p, n :: g.Passable(m, p, n) ==> g.Passable(m', p, n)
    ensures g.IsRoute(m', P)
  {
    forall i | 0 <= i < |P| - 1 ensures g.Passable(m', P[i], P[i + 1]) {
      assert g.Passable(m, P[i], P[i + 1]);
    }
  }

  /** Knocking down a wall between two adjacent cells of the grid leaves the outer wall standing. */
  lemma EnclosedKept(g: Grid, m: WallMap, a: Coord, c: Coord)
    requires g.Shaped(m) && g.InBounds(a) && g.InBounds(c) && Adjacent(a, c) && Enclosed(g, m)
    ensures Enclosed(g, g.RemoveWallIn(m, a, c))
  {
    var r: WallMap := g.RemoveWallIn(m, a, c);
    forall x, y | 0 <= x < g.cols && 0 <= y < g.rows
      ensures && (x == 0 ==> r[x][y].left) && (x == g.cols - 1 ==> r[x][y].right)
              && (y == 0 ==> r[x][y].top) && (y == g.rows - 1 ==> r[x][y].bottom)
    {
      OuterKept(g, m[x][y], a, c, Coord(x, y));
    }
  }

  /** Knocking down a wall between two cells of the grid leaves each cell's outer sides as they were. */
  lemma OuterKept(g: Grid, w: Walls, a: Coord, c: Coord, p: Coord)
    requires g.InBounds(a) && g.InBounds(c) && Adjacent(a, c)
    ensures var w' := WallAfter(w, a, c, p);
            && (p.x == 0 && w.left ==> w'.left) && (p.x == g.cols - 1 && w.right ==> w'.right)
            && (p.y == 0 && w.top ==> w'.top) && (p.y == g.rows - 1 && w.bottom ==> w'.bottom)
  {
    AdjacentStep(a, c);
    var s := SideToward(a, c).value;
    var w' := WallAfter(w, a, c, p);
    if p == a {
      assert w' == w.Open(s);
      match s
      case Top => assert c.y == a.y - 1;
      case Right => assert c.x == a.x + 1;
      case Bottom => assert c.y == a.y + 1;
      case Left => assert c.x == a.x - 1;
    } else if p == c {
      assert w' == w.Open(Opposite(s));
      match s
      case Top => assert c.y == a.y - 1;
      case Right => assert c.x == a.x + 1;
      case Bottom => assert c.y == a.y + 1;
      case Left => assert c.x == a.x - 1;
    } else {
      assert w' == w;
    }
  }

  /**
   * Knocking down the standing wall between lo and its right-hand
   * neighbour opens exactly one more passage to the right and none below.
   */
  lemma CarveAcross(g: Grid, m: WallMap, a: Coord, c: Coord, lo: Coord)
    requires g.Shaped(m) && g.InBounds(a) && g.InBounds(c)
    requires (a == lo && c == Coord(lo.x + 1, lo.y)) || (c == lo && a == Coord(lo.x + 1, lo.y))
    requires m[lo.x][lo.y].right
    ensures OpenRight(g, g.RemoveWallIn(m, a, c)) == OpenRight(g, m) + {lo}
    ensures lo !in OpenRight(g, m)
    ensures OpenBelow(g, g.RemoveWallIn(m, a, c)) == OpenBelow(g, m)
    ensures Passages(g, g.RemoveWallIn(m, a, c)) == Passages(g, m) + 1
  {
    var m': WallMap := g.RemoveWallIn(m, a, c);
    g.RemoveWallEffect(m, a, c);
    forall q: Coord | g.InBounds(q) ensures m'[q.x][q.y].right == (m[q.x][q.y].right && q != lo)
                                && m'[q.x][q.y].bottom == m[q.x][q.y].bottom {
    }
  }

  /**
   * Knocking down the standing wall between lo and its neighbour below
   * opens exactly one more passage below and none to the right.
   */
  lemma CarveDown(g: Grid, m: WallMap, a: Coord, c: Coord, lo: Coord)
    requires g.Shaped(m) && g.InBounds(a) && g.InBounds(c)
    requires (a == lo && c == Coord(lo.x, lo.y + 1)) || (c == lo && a == Coord(lo.x, lo.y + 1))
    requires m[lo.x][lo.y].bottom
    ensures OpenBelow(g, g.RemoveWallIn(m, a, c)) == OpenBelow(g, m) + {lo}
    ensures lo !in OpenBelow(g, m)
    ensures OpenRight(g, g.RemoveWallIn(m, a, c)) == OpenRight(g, m)
    ensures Passages(g, g.RemoveWallIn(m, a, c)) == Passages(g, m) + 1
  {
    var m': WallMap := g.RemoveWallIn(m, a, c);
    g.RemoveWallEffect(m, a, c);
    forall q: Coord | g.InBounds(q) ensures m'[q.x][q.y].bottom == (m[q.x][q.y].bottom && q != lo)
                                && m'[q.x][q.y].right == m[q.x][q.y].right {
    }
  }

  /**
   * With the walls agreeing between neighbours, knocking down the wall
   * between adjacent a and c, one of them still fully walled, adds
   * exactly one passage.
   */
  lemma CarveCounts(g: Grid, m: WallMap, a: Coord, c: Coord, u: Coord)
    requires g.Shaped(m) && g.InBounds(a) && g.InBounds(c) && Adjacent(a, c)
    requires g.SymmetricWalls(m) && (u == a || u == c) && m[u.x][u.y] == AllWalls
    ensures Passages(g, g.RemoveWallIn(m, a, c)) == Passages(g, m) + 1
  {
    if a.y == c.y {
      CountsAcross(g, m, a, c, u);
    } else {
      CountsDown(g, m, a, c, u);
    }
  }

  /** CarveCounts for two cells side by side. */
  lemma CountsAcross(g: Grid, m: WallMap, a: Coord, c: Coord, u: Coord)
    requires g.Shaped(m) && g.InBounds(a) && g.InBounds(c) && Adjacent(a, c) && a.y == c.y
    requires g.SymmetricWalls(m) && (u == a || u == c) && m[u.x][u.y] == AllWalls
    ensures Passages(g, g.RemoveWallIn(m, a, c)) == Passages(g, m) + 1
  {
    var lo := if a.x < c.x then a else c;
    assert m[lo.x][lo.y].right == m[lo.x + 1][lo.y].left;
    CarveAcross(g, m, a, c, lo);
  }

  /** CarveCounts for two cells one above the other. */
  lemma CountsDown(g: Grid, m: WallMap, a: Coord, c: Coord, u: Coord)
    requires g.Shaped(m) && g.InBounds(a) && g.InBounds(c) && Adjacent(a, c) && a.y != c.y
    requires g.SymmetricWalls(m) && (u == a || u == c) && m[u.x][u.y] == AllWalls
    ensures Passages(g, g.RemoveWallIn(m, a, c)) == Passages(g, m) + 1
  {
    var lo := if a.y < c.y then a else c;
    assert m[lo.x][lo.y].bottom == m[lo.x][lo.y + 1].top;
    CarveDown(g, m, a, c, lo);
  }

  /**
   * Taking u into the maze on a board whose flags are those of b adds
   * u to the taken cells and changes no wall.
   */
  lemma VisitAdds(g: Grid, b: Board, b1: Board, u: Coord)
    requires g.Shaped(b) && g.Shaped(b1) && FlagsOf(b1) == FlagsOf(b) && g.InBounds(u)
    ensures g.Shaped(Visit(b1, u))
    ensures VisitedCells(g, Visit(b1, u)) == VisitedCells(g, b) + {u}
    ensures WallsOf(Visit(b1, u)) == WallsOf(b1)
  {
    var b2: Board := Visit(b1, u);
    PutKeepsWalls(b1, u, b1[u.x][u.y].(visited := true));
    forall q: Coord | g.InBounds(q) ensures b1[q.x][q.y].visited == b[q.x][q.y].visited {
      assert FlagsOf(b1)[q.x][q.y] == FlagsOf(b)[q.x][q.y];
    }
    forall q: Coord | g.InBounds(q) ensures b2[q.x][q.y].visited == (b[q.x][q.y].visited || q == u) {
      PutAt(b1, u, b1[u.x][u.y].(visited := true), q.x, q.y);
    }
  }

  /** A fresh board with root taken in is a carving grown from root, of root alone. */
  lemma GrowStart(g: Grid, b: Board, root: Coord)
    requires g.Shaped(b) && Fresh(g, b) && g.InBounds(root)
    ensures g.Shaped(Visit(b, root)) && Growing(g, Visit(b, root), root)
    ensures VisitedCells(g, Visit(b, root)) == {root}
  {
    var b1 := Visit(b, root);
    VisitAdds(g, b, b, root);
    assert VisitedCells(g, b) == {};
    var m := WallsOf(b1);
    assert forall x, y :: 0 <= x < g.cols && 0 <= y < g.rows ==> m[x][y] == AllWalls;
    assert OpenRight(g, m) == {} && OpenBelow(g, m) == {};
    assert Connects(g, m, [root], root, root);
  }

  /**
   * Every cell taken in b, and u with it, is reachable from root once the
   * wall between adjacent a and c is knocked down, u being one of the two
   * and the other already taken.
   */
  lemma GrowReach(g: Grid, b: Board, root: Coord, a: Coord, c: Coord, u: Coord)
    requires g.Shaped(b) && g.InBounds(a) && g.InBounds(c) && Adjacent(a, c)
    requires (u == a && b[c.x][c.y].visited) || (u == c && b[a.x][a.y].visited)
    requires forall x :: x in VisitedCells(g, b) ==> Reachable(g, WallsOf(b), root, x)
    ensures forall x :: x in VisitedCells(g, b) + {u} ==> Reachable(g, g.RemoveWallIn(WallsOf(b), a, c), root, x)
  {
    var m := WallsOf(b);
    var m1: WallMap := g.RemoveWallIn(m, a, c);
    var v := if u == a then c else a;
    assert v in VisitedCells(g, b);
    g.RemoveWallOpens(m, a, c);
    PassagesKept(g, m, a, c);
    forall x | x in VisitedCells(g, b) + {u} ensures Reachable(g, m1, root, x) {
      var t := if x == u then v else x;
      var P :| Connects(g, m, P, root, t);
      RouteKept(g, m, m1, P);
      if x == u {
        assert Connects(g, m1, P + [u], root, u);
      } else {
        assert Connects(g, m1, P, root, x);
      }
    }
  }

  /** Two sets with no member in common have as many members together as apart. */
  lemma DisjointUnion<T>(A: set<T>, B: set<T>)
    requires A * B == {}
    ensures |A + B| == |A| + |B|
  {
  }

  lemma AddOne<T>(A: set<T>, u: T)
    requires u !in A
    ensures |A + {u}| == |A| + 1
  {
    assert A * {u} == {};
  }

  /** Removing a member of a set takes one from its size. */
  lemma RemoveOne<T>(A: set<T>, u: T)
    requires u in A
    ensures |A - {u}| == |A| - 1
  {
    assert A == (A - {u}) + {u};
    AddOne(A - {u}, u);
  }

  /** After the wall between a and c is knocked down and u taken in, the cells not taken are still fully walled. */
  lemma StillWalled(g: Grid, b: Board, b2: Board, a: Coord, c: Coord, u: Coord)
    requires g.Shaped(b) && g.Shaped(b2) && g.InBounds(a) && g.InBounds(c)
    requires b[a.x][a.y].visited || a == u
    requires b[c.x][c.y].visited || c == u
    requires forall x, y :: 0 <= x < g.cols && 0 <= y < g.rows && !b[x][y].visited ==> b[x][y].walls == AllWalls
    requires WallsOf(b2) == g.RemoveWallIn(WallsOf(b), a, c)
    requires VisitedCells(g, b2) == VisitedCells(g, b) + {u}
    ensures forall x, y :: 0 <= x < g.cols && 0 <= y < g.rows && !b2[x][y].visited ==> b2[x][y].walls == AllWalls
  {
    var m: WallMap := WallsOf(b);
    g.RemoveWallEffect(m, a, c);
    forall x, y | 0 <= x < g.cols && 0 <= y < g.rows && !b2[x][y].visited
      ensures WallsOf(b2)[x][y] == AllWalls
    {
      assert Coord(x, y) !in VisitedCells(g, b2);
      assert Coord(x, y) !in VisitedCells(g, b);
    }
  }

  /**
   * Knocking down the wall between adjacent a and c, where u, one of the
   * two, is walled all round, keeps the walls agreeing and the outer wall
   * standing, opens a passage between a and c, keeps every other passage
   * open, and adds exactly one passage.
   */
  lemma CarveWalls(g: Grid, m: WallMap, a: Coord, c: Coord, u: Coord, m1: WallMap)
    requires g.Shaped(m) && g.InBounds(a) && g.InBounds(c) && Adjacent(a, c)
    requires g.SymmetricWalls(m) && Enclosed(g, m)
    requires (u == a || u == c) && m[u.x][u.y] == AllWalls
    requires m1 == g.RemoveWallIn(m, a, c)
    ensures g.Shaped(m1) && g.SymmetricWalls(m1) && Enclosed(g, m1)
    ensures Passages(g, m1) == Passages(g, m) + 1
    ensures g.Passable(m1, a, c) && g.Passable(m1, c, a)
    ensures forall p, n :: g.Passable(m, p, n) ==> g.Passable(m1, p, n)
  {
    g.RemoveWallKeepsSymmetry(m, a, c);
    EnclosedKept(g, m, a, c);
    CarveCounts(g, m, a, c, u);
    g.RemoveWallOpens(m, a, c);
    PassagesKept(g, m, a, c);
  }

  /**
   * Knocking down the wall between adjacent a and c, one of them taken
   * and the other, u, not yet, then taking u in, keeps a carving
   * growing, with u the one cell added.
   */
  lemma GrowKeeps(g: Grid, b: Board, root: Coord, a: Coord, c: Coord, u: Coord, b1: Board)
    requires g.Shaped(b) && Growing(g, b, root)
    requires g.InBounds(a) && g.InBounds(c) && Adjacent(a, c)
    requires (u == a && b[c.x][c.y].visited) || (u == c && b[a.x][a.y].visited)
    requires !b[u.x][u.y].visited && b1 == g.WithoutWall(b, a, c)
    ensures g.Shaped(Visit(b1, u)) && Growing(g, Visit(b1, u), root)
    ensures VisitedCells(g, Visit(b1, u)) == VisitedCells(g, b) + {u}
  {
    GrowReach(g, b, root, a, c, u);
    GrowBoard(g, b, a, c, u);
    assert root in VisitedCells(g, Visit(b1, u));
  }

  /**
   * Everything GrowKeeps needs but reachability: after the wall between
   * a and c is knocked down and u taken in, the walls still agree, the
   * outer wall stands, the cells not taken are walled all round, and
   * there is one passage fewer than taken cells.
   */
  lemma GrowBoard(g: Grid, b: Board, a: Coord, c: Coord, u: Coord)
    requires g.Shaped(b) && g.SymmetricWalls(WallsOf(b)) && Enclosed(g, WallsOf(b))
    requires forall x, y :: 0 <= x < g.cols && 0 <= y < g.rows && !b[x][y].visited ==> b[x][y].walls == AllWalls
    requires Passages(g, WallsOf(b)) + 1 == |VisitedCells(g, b)|
    requires g.InBounds(a) && g.InBounds(c) && Adjacent(a, c)
    requires (u == a && b[c.x][c.y].visited) || (u == c && b[a.x][a.y].visited)
    requires !b[u.x][u.y].visited
    ensures var b2, m1 := Visit(g.WithoutWall(b, a, c), u), g.RemoveWallIn(WallsOf(b), a, c);
            && g.Shaped(b2) && WallsOf(b2) == m1 && VisitedCells(g, b2) == VisitedCells(g, b) + {u}
            && g.SymmetricWalls(m1) && Enclosed(g, m1)
            && (forall x, y :: 0 <= x < g.cols && 0 <= y < g.rows && !b2[x][y].visited ==> b2[x][y].walls == AllWalls)
            && Passages(g, m1) + 1 == |VisitedCells(g, b2)|
  {
    var b1 := g.WithoutWall(b, a, c);
    var m1: WallMap := g.RemoveWallIn(WallsOf(b), a, c);
    var b2: Board := Visit(b1, u);
    var m := WallsOf(b);
    g.WithoutWallFacts(b, a, c);
    assert WallsOf(b1) == m1 && FlagsOf(b1) == FlagsOf(b);
    VisitAdds(g, b, b1, u);
    assert m[u.x][u.y] == AllWalls;
    CarveWalls(g, m, a, c, u, m1);
    StillWalled(g, b, b2, a, c, u);
    assert u !in VisitedCells(g, b);
    AddOne(VisitedCells(g, b), u);
  }

  /** Every neighbour of a taken cell is taken. */
  ghost predicate Saturated(g: Grid, b: Board)
    requires g.Shaped(b)
  {
    forall p, n :: g.InBounds(p) && g.InBounds(n) && Adjacent(p, n) && b[p.x][p.y].visited ==> b[n.x][n.y].visited
  }

  /** With taken cells saturated, every cell at any distance from a taken root is taken. */
  lemma {:induction false} TakenByDistance(g: Grid, b: Board, root: Coord, c: Coord)
    requires g.Shaped(b) && g.InBounds(root) && g.InBounds(c) && b[root.x][root.y].visited && Saturated(g, b)
    ensures b[c.x][c.y].visited
    decreases Manhattan(root, c)
  {
    if c != root {
      var n :=
        if c.x < root.x then Coord(c.x + 1, c.y)
        else if c.x > root.x then Coord(c.x - 1, c.y)
        else if c.y < root.y then Coord(c.x, c.y + 1)
        else Coord(c.x, c.y - 1);
      TakenByDistance(g, b, root, n);
      assert Adjacent(n, c);
    }
  }

  /** The cells of column x with y below n. */
  ghost function Column(x: int, n: nat): (r: set<Coord>)
    ensures forall c :: c in r <==> c.x == x && 0 <= c.y < n
  {
    set y | 0 <= y < n :: Coord(x, y)
  }

  /** A column of n cells has n members. */
  lemma {:induction false} ColumnSize(x: int, n: nat)
    ensures |Column(x, n)| == n
  {
    if n > 0 {
      ColumnSize(x, n - 1);
      assert Column(x, n) == Column(x, n - 1) + {Coord(x, n - 1)};
      AddOne(Column(x, n - 1), Coord(x, n - 1));
    }
  }

  /** The cells of the first n columns of height h. */
  ghost function Block(n: nat, h: nat): (r: set<Coord>)
    ensures forall c :: c in r <==> 0 <= c.x < n && 0 <= c.y < h
  {
    set x, y | 0 <= x < n && 0 <= y < h :: Coord(x, y)
  }

  /** The first n columns are the first n - 1 and the last one, which share no cell. */
  lemma BlockSplit(n: nat, h: nat)
    requires n > 0
    ensures Block(n, h) == Block(n - 1, h) + Column(n - 1, h)
    ensures Block(n - 1, h) * Column(n - 1, h) == {}
  {
  }

  /** One more column of height h adds h. */
  lemma MoreColumns(n: nat, h: nat)
    requires n > 0
    ensures (n - 1) * h + h == n * h
  {
  }

  /** n columns of height h hold n * h cells. */
  lemma {:induction false} BlockSize(n: nat, h: nat)
    ensures |Block(n, h)| == n * h
  {
    if n == 0 {
      assert Block(n, h) == {};
    } else {
      var k: nat := n - 1;
      var A, B := Block(k, h), Column(k, h);
      BlockSize(k, h);
      ColumnSize(k, h);
      BlockSplit(n, h);
      DisjointUnion(A, B);
      MoreColumns(n, h);
    }
  }

  /** A grid of rows * cols positions. */
  lemma CoordsCount(g: Grid)
    requires 0 <= g.rows && 0 <= g.cols
    ensures |g.AllCoords()| == g.rows * g.cols
  {
    BlockSize(g.cols, g.rows);
    assert g.AllCoords() == Block(g.cols, g.rows);
  }

  /** With the walls agreeing between neighbours, every passage can be taken both ways. */
  lemma PassableBack(g: Grid, m: WallMap, p: Coord, n: Coord)
    requires g.Shaped(m) && g.SymmetricWalls(m) && g.Passable(m, p, n)
    ensures g.Passable(m, n, p)
  {
    AdjacentStep(p, n);
    var s := SideToward(p, n).value;
    StepFacing(p, s);
    match s
    case Right => assert m[p.x][p.y].right == m[n.x][n.y].left;
    case Left => assert m[n.x][n.y].right == m[p.x][p.y].left;
    case Bottom => assert m[p.x][p.y].bottom == m[n.x][n.y].top;
    case Top => assert m[n.x][n.y].bottom == m[p.x][p.y].top;
  }

  /** P walked backwards. */
  ghost function Backwards(P: seq<Coord>): (r: seq<Coord>)
    ensures |r| == |P| && forall i :: 0 <= i < |P| ==> r[i] == P[|P| - 1 - i]
  {
    seq(|P|, i requires 0 <= i < |P| => P[|P| - 1 - i])
  }

  /** With the walls agreeing between neighbours, a route walked backwards is a route. */
  lemma RouteBack(g: Grid, m: WallMap, P: seq<Coord>)
    requires g.Shaped(m) && g.SymmetricWalls(m) && g.IsRoute(m, P)
    ensures g.IsRoute(m, Backwards(P))
  {
    var R := Backwards(P);
    var k := |P| - 1;
    if k > 0 {
      assert g.Passable(m, P[k - 1], P[k]);
    }
    forall i | 0 <= i < |R| - 1 ensures g.Passable(m, R[i], R[i + 1]) {
      PassableBack(g, m, P[k - 1 - i], P[k - i]);
    }
  }

  /**
   * With the walls agreeing between neighbours and every cell reachable
   * from root, every cell is reachable from every other.
   */
  lemma AllConnected(g: Grid, m: WallMap, root: Coord)
    requires g.Shaped(m) && g.SymmetricWalls(m)
    requires forall c :: g.InBounds(c) ==> Reachable(g, m, root, c)
    ensures forall c, d :: g.InBounds(c) && g.InBounds(d) ==> Reachable(g, m, c, d)
  {
    forall c, d | g.InBounds(c) && g.InBounds(d) ensures Reachable(g, m, c, d) {
      var Q :| Connects(g, m, Q, root, c);
      var P :| Connects(g, m, P, root, d);
      RouteBack(g, m, Q);
      var R := Backwards(Q) + P[1..];
      forall i | 0 <= i < |R| - 1 ensures g.Passable(m, R[i], R[i + 1]) {
        if i < |Q| - 1 {
          assert g.Passable(m, Backwards(Q)[i], Backwards(Q)[i + 1]);
        } else {
          assert g.Passable(m, P[i - |Q| + 1], P[i - |Q| + 2]);
        }
      }
      assert Connects(g, m, R, c, d);
    }
  }

  /**
   * A carving grown from root that has taken every cell in is a perfect
   * maze: a spanning tree of the grid's rows * cols cells.
   */
  lemma Spans(g: Grid, b: Board, root: Coord)
    requires g.Shaped(b) && Growing(g, b, root) && Saturated(g, b)
    ensures PerfectMaze(g, b)
  {
    forall x, y | 0 <= x < g.cols && 0 <= y < g.rows ensures b[x][y].visited {
      TakenByDistance(g, b, root, Coord(x, y));
    }
    assert VisitedCells(g, b) == g.AllCoords();
    CoordsCount(g);
    assert Passages(g, WallsOf(b)) == g.rows * g.cols - 1;
    forall c | g.InBounds(c) ensures Reachable(g, WallsOf(b), root, c) {
      assert c in VisitedCells(g, b);
    }
    AllConnected(g, WallsOf(b), root);
  }
}
