/**
 * The maze grid: cols columns of rows cells each, indexed cells[x][y],
 * the neighbour queries over it and the operations that update it in
 * place (model/grid.py).
 */
module Grids {
  import opened Options
  import opened Cells

  /** The cells of a grid, column by column: b[x][y] is the cell at (x, y). */
  type Board = seq<seq<Cell>>

  /** A snapshot of every cell's walls, indexed [x][y]. */
  type WallMap = seq<seq<Walls>>

  /** b with the cell at c replaced by v. */
  function Put(b: Board, c: Coord, v: Cell): Board
    requires 0 <= c.x < |b| && 0 <= c.y < |b[c.x]|
  {
    b[c.x := b[c.x][c.y := v]]
  }

  /** Reading the cell at (x, y) after Put. */
  lemma PutAt(b: Board, c: Coord, v: Cell, x: int, y: int)
    requires 0 <= c.x < |b| && 0 <= c.y < |b[c.x]| && 0 <= x < |b| && 0 <= y < |b[x]|
    ensures |Put(b, c, v)| == |b| && |Put(b, c, v)[x]| == |b[x]|
    ensures Put(b, c, v)[x][y] == if x == c.x && y == c.y then v else b[x][y]
  {
  }

  /** The walls of every cell of b. */
  ghost function WallsOf(b: Board): WallMap
  {
    seq(|b|, x requires 0 <= x < |b| => seq(|b[x]|, y requires 0 <= y < |b[x]| => b[x][y].walls))
  }

  /** Every cell of b with its walls left out: what wall removal must not touch. */
  ghost function FlagsOf(b: Board): Board
  {
    seq(|b|, x requires 0 <= x < |b| => seq(|b[x]|, y requires 0 <= y < |b[x]| => b[x][y].(walls := AllWalls)))
  }

  /** Replacing a cell updates the wall map at that cell and nowhere else. */
  lemma PutWalls(b: Board, c: Coord, v: Cell)
    requires 0 <= c.x < |b| && 0 <= c.y < |b[c.x]|
    ensures WallsOf(Put(b, c, v)) == WallsOf(b)[c.x := WallsOf(b)[c.x][c.y := v.walls]]
  {
    var m, m' := WallsOf(b)[c.x := WallsOf(b)[c.x][c.y := v.walls]], WallsOf(Put(b, c, v));
    forall x | 0 <= x < |b| ensures m'[x] == m[x] {
    }
  }

  /** Changing only the walls of one cell changes no flag anywhere. */
  lemma PutKeepsFlags(b: Board, c: Coord, w: Walls)
    requires 0 <= c.x < |b| && 0 <= c.y < |b[c.x]|
    ensures FlagsOf(Put(b, c, b[c.x][c.y].(walls := w))) == FlagsOf(b)
  {
    var f, f' := FlagsOf(b), FlagsOf(Put(b, c, b[c.x][c.y].(walls := w)));
    forall x | 0 <= x < |b| ensures f'[x] == f[x] {
    }
  }

  /** Replacing a cell by one with the same walls leaves the wall map as it was. */
  lemma PutKeepsWalls(b: Board, c: Coord, v: Cell)
    requires 0 <= c.x < |b| && 0 <= c.y < |b[c.x]| && v.walls == b[c.x][c.y].walls
    ensures WallsOf(Put(b, c, v)) == WallsOf(b)
  {
    PutWalls(b, c, v);
    var m := WallsOf(b);
    assert m[c.x][c.y := v.walls] == m[c.x];
  }

  /** The direction number (0 top .. 3 left) of the step from c to n; 4 when none. */
  function Heading(c: Coord, n: Coord): nat {
    match SideToward(n, c)
    case None => 4
    case Some(s) => SideIndex(Opposite(s))
  }

  /** ns lists positions in strictly increasing heading as seen from c. */
  ghost predicate InSideOrder(c: Coord, ns: seq<Coord>) {
    forall i, j :: 0 <= i < j < |ns| ==> Heading(c, ns[i]) < Heading(c, ns[j])
  }

  /** Stepping through side s lands on a cell whose heading from c is s's number. */
  lemma HeadingOfStep(c: Coord, s: Side)
    ensures Heading(c, Step(c, s)) == SideIndex(s)
  {
    StepFacing(c, s);
  }

  lemma SideRoundTrip(s: Side)
    ensures SideAt(SideIndex(s)) == s
  {
  }

  /** Appending a position whose heading exceeds every heading in ns keeps the order. */
  lemma InSideOrderSnoc(c: Coord, ns: seq<Coord>, n: Coord)
    requires InSideOrder(c, ns) && forall m :: m in ns ==> Heading(c, m) < Heading(c, n)
    ensures InSideOrder(c, ns + [n])
  {
    var r := ns + [n];
    forall i, j | 0 <= i < j < |r| ensures Heading(c, r[i]) < Heading(c, r[j]) {
      assert r[i] == ns[i];
      if j == |ns| {
        assert ns[i] in ns;
      } else {
        assert r[j] == ns[j];
      }
    }
  }

  /** A list in strictly increasing heading, every heading in [lo, 4), has at most 4 - lo members. */
  lemma {:induction false} InSideOrderBound(c: Coord, ns: seq<Coord>, lo: nat)
    requires lo <= 4 && InSideOrder(c, ns) && forall n :: n in ns ==> lo <= Heading(c, n) < 4
    ensures |ns| + lo <= 4
  {
    if ns != [] {
      assert ns[0] in ns;
      forall n | n in ns[1..] ensures Heading(c, ns[0]) + 1 <= Heading(c, n) < 4 {
        var i :| 0 <= i < |ns[1..]| && ns[1..][i] == n;
        assert ns[i + 1] == n;
      }
      forall i, j | 0 <= i < j < |ns[1..]| ensures Heading(c, ns[1..][i]) < Heading(c, ns[1..][j]) {
        assert ns[1..][i] == ns[i + 1] && ns[1..][j] == ns[j + 1];
      }
      InSideOrderBound(c, ns[1..], Heading(c, ns[0]) + 1);
    }
  }

  /**
   * The walls w of the cell at p after the wall between a and b is knocked
   * down: a loses its side facing b, b the opposite side, when their
   * coordinates differ by a unit step.
   */
  function WallAfter(w: Walls, a: Coord, b: Coord, p: Coord): Walls {
    match SideToward(a, b)
    case None => w
    case Some(s) => if p == a then w.Open(s) else if p == b then w.Open(Opposite(s)) else w
  }

  /**
   * Across the side s of p, with the facing walls agreeing before, they
   * still agree after the wall between adjacent a and b is knocked down.
   */
  lemma WallAfterAcross(w: Walls, v: Walls, a: Coord, b: Coord, p: Coord, s: Side)
    requires Adjacent(a, b) && w.Get(s) == v.Get(Opposite(s))
    ensures WallAfter(w, a, b, p).Get(s) == WallAfter(v, a, b, Step(p, s)).Get(Opposite(s))
  {
    AdjacentStep(a, b);
    StepFacing(a, SideToward(a, b).value);
    StepFacing(p, s);
  }

  /** A cell with its generation and solver flags cleared. */
  function ResetFlags(c: Cell): (r: Cell)
    ensures r.walls == c.walls
    ensures r.isEntry == c.isEntry && r.isExit == c.isExit
    ensures !r.visited && !r.visitedBySolver && !r.inFrontier && !r.isPath
  {
    c.(visited := false, visitedBySolver := false, inFrontier := false, isPath := false)
  }

  class Grid {
    const rows: int
    const cols: int
    var cells: Board
    /** The cell an algorithm is examining, kept for display only. */
    var current: Option<Coord>

    predicate InBounds(c: Coord) {
      0 <= c.x < cols && 0 <= c.y < rows
    }

    /** m has one entry per cell of the grid. */
    ghost predicate Shaped<T>(m: seq<seq<T>>) {
      |m| == cols && forall x :: 0 <= x < cols ==> |m[x]| == rows
    }

    ghost predicate Valid()
      reads this`cells
    {
      1 <= rows && 1 <= cols && Shaped(cells)
    }

    /** A new grid: every cell fully walled, no flag set, the first cell current. */
    constructor (rows: int, cols: int)
      requires 1 <= rows && 1 <= cols
      ensures this.rows == rows && this.cols == cols && Valid()
      ensures forall x, y :: 0 <= x < cols && 0 <= y < rows ==> cells[x][y] == NewCell()
      ensures current == Some(Coord(0, 0))
      ensures Symmetric()
    {
      this.rows := rows;
      this.cols := cols;
      cells := seq(cols, x => seq(rows, y => NewCell()));
      current := Some(Coord(0, 0));
    }

    /** The cell at (x, y), or None off the grid. */
    function GetCell(x: int, y: int): (r: Option<Cell>)
      requires Valid()
      reads this`cells
      ensures r.Some? <==> InBounds(Coord(x, y))
      ensures r.Some? ==> r.value == cells[x][y]
    {
      if 0 <= x < cols && 0 <= y < rows then Some(cells[x][y]) else None
    }

    /** The in-bounds position one step from c through side s, if any. */
    function Toward(c: Coord, s: Side): seq<Coord> {
      if InBounds(Step(c, s)) then [Step(c, s)] else []
    }

    /**
     * The in-bounds positions one step from c through the first k sides in
     * the order top, right, bottom, left.
     */
    function NeighborsUpTo(c: Coord, k: nat): seq<Coord>
      requires k <= 4
    {
      if k == 0 then [] else NeighborsUpTo(c, k - 1) + Toward(c, SideAt(k - 1))
    }

    /** What the first k directions contribute: on-grid adjacent cells, each of them, in side order. */
    lemma {:induction false} NeighborsUpToFacts(c: Coord, k: nat)
      requires k <= 4
      ensures forall n :: n in NeighborsUpTo(c, k) ==> InBounds(n) && Adjacent(c, n) && Heading(c, n) < k
      ensures forall d :: 0 <= d < k && InBounds(Step(c, SideAt(d))) ==> Step(c, SideAt(d)) in NeighborsUpTo(c, k)
      ensures InSideOrder(c, NeighborsUpTo(c, k))
    {
      if k > 0 {
        var rest := NeighborsUpTo(c, k - 1);
        NeighborsUpToFacts(c, k - 1);
        HeadingOfStep(c, SideAt(k - 1));
        AdjacentStep(c, Step(c, SideAt(k - 1)));
        assert forall n :: n in rest ==> Heading(c, n) < Heading(c, Step(c, SideAt(k - 1)));
        if InBounds(Step(c, SideAt(k - 1))) {
          InSideOrderSnoc(c, rest, Step(c, SideAt(k - 1)));
        } else {
          assert NeighborsUpTo(c, k) == rest;
        }
      }
    }

    /** The geometric neighbours of c, walls ignored: top, right, bottom, left. */
    function Neighbors(c: Coord): (r: seq<Coord>)
      ensures forall n :: n in r ==> InBounds(n) && Adjacent(c, n)
    {
      NeighborsUpToFacts(c, 4);
      NeighborsUpTo(c, 4)
    }

    /** The neighbours of c are the on-grid cells adjacent to it, at most four, in side order. */
    lemma NeighborsFacts(c: Coord)
      ensures |Neighbors(c)| <= 4
      ensures forall n :: n in Neighbors(c) <==> InBounds(n) && Adjacent(c, n)
      ensures InSideOrder(c, Neighbors(c))
    {
      var r := NeighborsUpTo(c, 4);
      NeighborsUpToFacts(c, 4);
      forall n | InBounds(n) && Adjacent(c, n) ensures n in r {
        AdjacentStep(c, n);
        var s := SideToward(c, n).value;
        assert Step(c, SideAt(SideIndex(s))) == n by {
          SideRoundTrip(s);
        }
      }
      InSideOrderBound(c, r, 0);
    }

    /** Collects the neighbouring cells that exist, trying the four directions in turn. */
    method GetNeighbors(c: Coord) returns (r: seq<Coord>)
      requires Valid()
      ensures r == Neighbors(c)
    {
      r := [];
      for d := 0 to 4
        invariant r == NeighborsUpTo(c, d)
      {
        var n := Step(c, SideAt(d));
        var neighbor := GetCell(n.x, n.y);
        if neighbor.Some? {
          r := r + [n];
        }
      }
    }

    /** The members of ns whose cell in b has its visited flag equal to v, in order. */
    function VisitedAmong(b: Board, ns: seq<Coord>, v: bool): seq<Coord>
      requires Shaped(b) && forall n :: n in ns ==> InBounds(n)
    {
      if ns == [] then []
      else
        var k := |ns| - 1;
        assert ns[k] in ns && forall n :: n in ns[..k] ==> n in ns;
        assert InBounds(ns[k]) && |b[ns[k].x]| == rows;
        var rest := VisitedAmong(b, ns[..k], v);
        if b[ns[k].x][ns[k].y].visited == v then rest + [ns[k]] else rest
    }

    /** VisitedAmong keeps exactly the members whose visited flag is v. */
    lemma {:induction false} VisitedAmongMembers(b: Board, ns: seq<Coord>, v: bool)
      requires Shaped(b) && forall n :: n in ns ==> InBounds(n)
      ensures forall n :: n in VisitedAmong(b, ns, v) <==> n in ns && b[n.x][n.y].visited == v
    {
      if ns != [] {
        var k := |ns| - 1;
        var t := ns[..k];
        assert forall n :: n in t ==> n in ns;
        assert forall n :: n in ns ==> n in t || n == ns[k];
        VisitedAmongMembers(b, t, v);
      }
    }

    /** VisitedAmong keeps the members it retains in their order. */
    lemma {:induction false} VisitedAmongInSideOrder(b: Board, c: Coord, ns: seq<Coord>, v: bool)
      requires Shaped(b) && forall n :: n in ns ==> InBounds(n)
      requires InSideOrder(c, ns)
      ensures InSideOrder(c, VisitedAmong(b, ns, v))
    {
      if ns != [] {
        var k := |ns| - 1;
        var t := ns[..k];
        assert forall n :: n in t ==> n in ns;
        forall i, j | 0 <= i < j < |t| ensures Heading(c, t[i]) < Heading(c, t[j]) {
          assert t[i] == ns[i] && t[j] == ns[j];
        }
        VisitedAmongInSideOrder(b, c, t, v);
        VisitedAmongMembers(b, t, v);
        var rest := VisitedAmong(b, t, v);
        assert ns[k] in ns;
        if b[ns[k].x][ns[k].y].visited == v {
          forall n | n in rest ensures Heading(c, n) < Heading(c, ns[k]) {
            var i :| 0 <= i < |t| && t[i] == n;
            assert ns[i] == n;
          }
          InSideOrderSnoc(c, rest, ns[k]);
        }
      }
    }

    /** The neighbours of c in b not yet visited by a generator, in side order. */
    function UnvisitedIn(b: Board, c: Coord): seq<Coord>
      requires Shaped(b)
    {
      NeighborsFacts(c);
      VisitedAmong(b, Neighbors(c), false)
    }

    /** The neighbours of c not yet visited by a generator, in side order. */
    function GetUnvisitedNeighbors(c: Coord): seq<Coord>
      requires Valid()
      reads this`cells
    {
      UnvisitedIn(cells, c)
    }

    /** The unvisited neighbours are the on-grid adjacent cells not yet in the maze, in side order. */
    lemma UnvisitedNeighborsFacts(b: Board, c: Coord)
      requires Shaped(b)
      ensures forall n :: n in UnvisitedIn(b, c) <==> InBounds(n) && Adjacent(c, n) && !b[n.x][n.y].visited
      ensures InSideOrder(c, UnvisitedIn(b, c))
    {
      NeighborsFacts(c);
      VisitedAmongMembers(b, Neighbors(c), false);
      VisitedAmongInSideOrder(b, c, Neighbors(c), false);
    }

    /** The members of ns with no wall of self, the cell at c, towards them, in order. */
    function Open(self: Cell, c: Coord, ns: seq<Coord>): seq<Coord> {
      if ns == [] then []
      else
        var k := |ns| - 1;
        var rest := Open(self, c, ns[..k]);
        if !CheckWalls(self, c, ns[k]) then rest + [ns[k]] else rest
    }

    /** Open keeps exactly the members no wall of self blocks, in their order. */
    lemma {:induction false} OpenFacts(self: Cell, c: Coord, ns: seq<Coord>)
      ensures forall n :: n in Open(self, c, ns) <==> n in ns && !CheckWalls(self, c, n)
      ensures InSideOrder(c, ns) ==> InSideOrder(c, Open(self, c, ns))
    {
      if ns != [] {
        var k := |ns| - 1;
        var t := ns[..k];
        OpenFacts(self, c, t);
        var rest := Open(self, c, t);
        assert forall n :: n in t ==> n in ns;
        assert ns[k] in ns;
        assert forall n :: n in ns ==> n in t || n == ns[k];
        if InSideOrder(c, ns) {
          forall i, j | 0 <= i < j < |t| ensures Heading(c, t[i]) < Heading(c, t[j]) {
            assert t[i] == ns[i] && t[j] == ns[j];
          }
          if !CheckWalls(self, c, ns[k]) {
            forall n | n in rest ensures Heading(c, n) < Heading(c, ns[k]) {
              var i :| 0 <= i < |t| && t[i] == n;
              assert ns[i] == n;
            }
            InSideOrderSnoc(c, rest, ns[k]);
          }
        }
      }
    }

    /** Only the walls of self decide which members of ns are open. */
    lemma {:induction false} OpenWallsOnly(self: Cell, other: Cell, c: Coord, ns: seq<Coord>)
      requires self.walls == other.walls
      ensures Open(self, c, ns) == Open(other, c, ns)
      decreases |ns|
    {
      if ns != [] {
        OpenWallsOnly(self, other, c, ns[..|ns| - 1]);
      }
    }

    /** The neighbours of c that no wall of c separates from it, in side order. */
    function Accessible(c: Coord): seq<Coord>
      requires Valid() && InBounds(c)
      reads this`cells
    {
      Open(cells[c.x][c.y], c, Neighbors(c))
    }

    /** The accessible neighbours are the on-grid adjacent cells no wall of c blocks, in side order. */
    lemma AccessibleFacts(c: Coord)
      requires Valid() && InBounds(c)
      ensures forall n :: n in Accessible(c) <==> InBounds(n) && Adjacent(c, n) && !CheckWalls(cells[c.x][c.y], c, n)
      ensures InSideOrder(c, Accessible(c))
    {
      NeighborsFacts(c);
      OpenFacts(cells[c.x][c.y], c, Neighbors(c));
    }

    /** Keeps, in order, the neighbours of c that no wall of c's cell blocks. */
    method GetAccessibleNeighbors(c: Coord) returns (r: seq<Coord>)
      requires Valid() && InBounds(c)
      ensures r == Accessible(c)
    {
      var ns := GetNeighbors(c);
      r := [];
      for i := 0 to |ns|
        invariant r == Open(cells[c.x][c.y], c, ns[..i])
      {
        assert ns[..i + 1][..i] == ns[..i];
        if !CheckWalls(cells[c.x][c.y], c, ns[i]) {
          r := r + [ns[i]];
        }
      }
      assert ns[..|ns|] == ns;
    }

    /**
     * In the wall map m the walls of every pair of adjacent cells agree:
     * a wall stands either on both facing sides or on neither.
     */
    ghost predicate SymmetricWalls(m: WallMap)
      requires Shaped(m)
    {
      && (forall x, y :: 0 <= x < cols - 1 && 0 <= y < rows ==> m[x][y].right == m[x + 1][y].left)
      && (forall x, y :: 0 <= x < cols && 0 <= y < rows - 1 ==> m[x][y].bottom == m[x][y + 1].top)
    }

    /** The wall symmetry invariant of the grid's current walls. */
    ghost predicate Symmetric()
      requires Valid()
      reads this`cells
    {
      SymmetricWalls(WallsOf(cells))
    }

    /** The walls m after the wall between a and b is knocked down on both cells. */
    ghost function RemoveWallIn(m: WallMap, a: Coord, b: Coord): (r: WallMap)
      requires Shaped(m) && InBounds(a) && InBounds(b)
      ensures Shaped(r)
      ensures forall x, y :: 0 <= x < cols && 0 <= y < rows ==> r[x][y] == WallAfter(m[x][y], a, b, Coord(x, y))
    {
      seq(cols, x requires 0 <= x < cols => seq(rows, y requires 0 <= y < rows => WallAfter(m[x][y], a, b, Coord(x, y))))
    }

    /**
     * Knocking down a wall changes the wall of a on the side facing b and
     * the opposite wall of b, and nothing else; with no unit offset between
     * them nothing changes.
     */
    lemma RemoveWallEffect(m: WallMap, a: Coord, b: Coord)
      requires Shaped(m) && InBounds(a) && InBounds(b)
      ensures SideToward(a, b).None? ==> RemoveWallIn(m, a, b) == m
      ensures SideToward(a, b).Some? ==>
                var s, r := SideToward(a, b).value, RemoveWallIn(m, a, b);
                && r[a.x][a.y] == m[a.x][a.y].Open(s)
                && r[b.x][b.y] == m[b.x][b.y].Open(Opposite(s))
                && forall x, y :: 0 <= x < cols && 0 <= y < rows && Coord(x, y) != a && Coord(x, y) != b
                     ==> r[x][y] == m[x][y]
    {
      var r := RemoveWallIn(m, a, b);
      if SideToward(a, b).None? {
        forall x | 0 <= x < cols ensures r[x] == m[x] {
        }
      } else {
        assert a != b;
      }
    }

    /** Between adjacent cells the removal opens the passage both ways. */
    lemma RemoveWallOpens(m: WallMap, a: Coord, b: Coord)
      requires Shaped(m) && InBounds(a) && InBounds(b) && Adjacent(a, b)
      ensures Passable(RemoveWallIn(m, a, b), a, b)
      ensures Passable(RemoveWallIn(m, a, b), b, a)
    {
      AdjacentStep(a, b);
      var s := SideToward(a, b).value;
      StepFacing(a, s);
      assert a != b;
      assert Adjacent(b, a);
    }

    /** Removing the wall between adjacent cells keeps each left-right pair of facing walls in agreement. */
    lemma RemoveWallKeepsRows(m: WallMap, a: Coord, b: Coord)
      requires Shaped(m) && InBounds(a) && InBounds(b) && Adjacent(a, b)
      requires forall x, y :: 0 <= x < cols - 1 && 0 <= y < rows ==> m[x][y].right == m[x + 1][y].left
      ensures var r := RemoveWallIn(m, a, b);
              forall x, y :: 0 <= x < cols - 1 && 0 <= y < rows ==> r[x][y].right == r[x + 1][y].left
    {
      var r: WallMap := RemoveWallIn(m, a, b);
      forall x: int, y: int | 0 <= x < cols - 1 && 0 <= y < rows
        ensures r[x][y].right == r[x + 1][y].left
      {
        assert m[x][y].Get(Right) == m[x + 1][y].Get(Left);
        WallAfterAcross(m[x][y], m[x + 1][y], a, b, Coord(x, y), Right);
      }
    }

    /** Removing the wall between adjacent cells keeps each top-bottom pair of facing walls in agreement. */
    lemma RemoveWallKeepsColumns(m: WallMap, a: Coord, b: Coord)
      requires Shaped(m) && InBounds(a) && InBounds(b) && Adjacent(a, b)
      requires forall x, y :: 0 <= x < cols && 0 <= y < rows - 1 ==> m[x][y].bottom == m[x][y + 1].top
      ensures var r := RemoveWallIn(m, a, b);
              forall x, y :: 0 <= x < cols && 0 <= y < rows - 1 ==> r[x][y].bottom == r[x][y + 1].top
    {
      var r: WallMap := RemoveWallIn(m, a, b);
      forall x: int, y: int | 0 <= x < cols && 0 <= y < rows - 1
        ensures r[x][y].bottom == r[x][y + 1].top
      {
        assert m[x][y].Get(Bottom) == m[x][y + 1].Get(Top);
        WallAfterAcross(m[x][y], m[x][y + 1], a, b, Coord(x, y), Bottom);
      }
    }

    /** Removing the wall between adjacent cells keeps the walls symmetric. */
    lemma RemoveWallKeepsSymmetry(m: WallMap, a: Coord, b: Coord)
      requires Shaped(m) && InBounds(a) && InBounds(b) && Adjacent(a, b)
      requires SymmetricWalls(m)
      ensures SymmetricWalls(RemoveWallIn(m, a, b))
    {
      RemoveWallKeepsRows(m, a, b);
      RemoveWallKeepsColumns(m, a, b);
    }

    /** After the two single-cell updates of RemoveWall, the cell at (x, y) has its walls as in WallAfter. */
    lemma RemoveWallPutsAt(b0: Board, b1: Board, b2: Board, a: Coord, b: Coord, s: Side, x: int, y: int)
      requires Shaped(b0) && InBounds(a) && InBounds(b) && SideToward(a, b) == Some(s)
      requires b1 == Put(b0, a, b0[a.x][a.y].(walls := b0[a.x][a.y].walls.Open(s)))
      requires b2 == Put(b1, b, b1[b.x][b.y].(walls := b1[b.x][b.y].walls.Open(Opposite(s))))
      requires 0 <= x < cols && 0 <= y < rows
      ensures |b2| == cols && |b2[x]| == rows
      ensures b2[x][y] == b0[x][y].(walls := WallAfter(b0[x][y].walls, a, b, Coord(x, y)))
    {
      assert a != b;
      PutAt(b0, a, b0[a.x][a.y].(walls := b0[a.x][a.y].walls.Open(s)), b.x, b.y);
      PutAt(b0, a, b0[a.x][a.y].(walls := b0[a.x][a.y].walls.Open(s)), x, y);
      PutAt(b1, b, b1[b.x][b.y].(walls := b1[b.x][b.y].walls.Open(Opposite(s))), x, y);
    }

    /** The two single-cell updates of RemoveWall make exactly the wall change RemoveWallIn describes. */
    lemma RemoveWallPuts(b0: Board, b1: Board, b2: Board, a: Coord, b: Coord, s: Side)
      requires Shaped(b0) && InBounds(a) && InBounds(b) && SideToward(a, b) == Some(s)
      requires b1 == Put(b0, a, b0[a.x][a.y].(walls := b0[a.x][a.y].walls.Open(s)))
      requires b2 == Put(b1, b, b1[b.x][b.y].(walls := b1[b.x][b.y].walls.Open(Opposite(s))))
      ensures Shaped(b2)
      ensures WallsOf(b2) == RemoveWallIn(WallsOf(b0), a, b)
      ensures FlagsOf(b2) == FlagsOf(b0)
    {
      var w, r := WallsOf(b2), RemoveWallIn(WallsOf(b0), a, b);
      var f, f0 := FlagsOf(b2), FlagsOf(b0);
      forall x | 0 <= x < cols ensures |b2[x]| == rows && w[x] == r[x] && f[x] == f0[x] {
        RemoveWallPutsAt(b0, b1, b2, a, b, s, x, 0);
        forall y | 0 <= y < rows ensures w[x][y] == r[x][y] && f[x][y] == f0[x][y] {
          RemoveWallPutsAt(b0, b1, b2, a, b, s, x, y);
        }
      }
    }

    /**
     * The board b after the wall between a and c is knocked down on both
     * cells: the walls change as RemoveWallIn says and no flag changes.
     */
    ghost function WithoutWall(b: Board, a: Coord, c: Coord): (r: Board)
      requires Shaped(b) && InBounds(a) && InBounds(c)
      ensures Shaped(r)
    {
      match SideToward(a, c)
      case None => b
      case Some(s) =>
        var b1: Board := Put(b, a, b[a.x][a.y].(walls := b[a.x][a.y].walls.Open(s)));
        Put(b1, c, b1[c.x][c.y].(walls := b1[c.x][c.y].walls.Open(Opposite(s))))
    }

    /** Knocking down a wall on a board changes its walls as RemoveWallIn says and no flag. */
    lemma WithoutWallFacts(b: Board, a: Coord, c: Coord)
      requires Shaped(b) && InBounds(a) && InBounds(c)
      ensures WallsOf(WithoutWall(b, a, c)) == RemoveWallIn(WallsOf(b), a, c)
      ensures FlagsOf(WithoutWall(b, a, c)) == FlagsOf(b)
    {
      match SideToward(a, c)
      case None =>
        RemoveWallEffect(WallsOf(b), a, c);
      case Some(s) =>
        var b1: Board := Put(b, a, b[a.x][a.y].(walls := b[a.x][a.y].walls.Open(s)));
        var b2: Board := Put(b1, c, b1[c.x][c.y].(walls := b1[c.x][c.y].walls.Open(Opposite(s))));
        RemoveWallPuts(b, b1, b2, a, c, s);
    }

    /** Knocks down the wall between a and b on both cells; a no-op unless their offset is a unit step. */
    method RemoveWall(a: Coord, b: Coord)
      requires Valid() && InBounds(a) && InBounds(b)
      modifies this`cells
      ensures Valid() && cells == WithoutWall(old(cells), a, b)
      ensures FlagsOf(cells) == FlagsOf(old(cells))
      ensures WallsOf(cells) == RemoveWallIn(WallsOf(old(cells)), a, b)
      ensures Adjacent(a, b) ==> Passable(WallsOf(cells), a, b) && Passable(WallsOf(cells), b, a)
      ensures old(Symmetric()) && Adjacent(a, b) ==> Symmetric()
    {
      ghost var m := WallsOf(cells);
      match SideToward(a, b)
      case None =>
        RemoveWallEffect(m, a, b);
      case Some(s) =>
        ghost var b0 := cells;
        cells := Put(cells, a, cells[a.x][a.y].(walls := cells[a.x][a.y].walls.Open(s)));
        ghost var b1 := cells;
        cells := Put(cells, b, cells[b.x][b.y].(walls := cells[b.x][b.y].walls.Open(Opposite(s))));
        RemoveWallPuts(b0, b1, cells, a, b, s);
      if Adjacent(a, b) {
        RemoveWallOpens(m, a, b);
        if SymmetricWalls(m) {
          RemoveWallKeepsSymmetry(m, a, b);
        }
      }
    }

    /** Clears visited, visitedBySolver, inFrontier and isPath on every cell, column by column. */
    method ResetVisited()
      requires Valid()
      modifies this`cells
      ensures Valid()
      ensures forall x, y :: 0 <= x < cols && 0 <= y < rows ==> cells[x][y] == ResetFlags(old(cells[x][y]))
      ensures WallsOf(cells) == WallsOf(old(cells))
    {
      for x := 0 to cols
        invariant Valid()
        invariant forall i, j :: 0 <= i < cols && 0 <= j < rows ==>
                    cells[i][j] == if i < x then ResetFlags(old(cells[i][j])) else old(cells[i][j])
      {
        for y := 0 to rows
          invariant Valid()
          invariant forall i, j :: 0 <= i < cols && 0 <= j < rows ==>
                      cells[i][j] == if i < x || (i == x && j < y) then ResetFlags(old(cells[i][j])) else old(cells[i][j])
        {
          cells := Put(cells, Coord(x, y), ResetFlags(cells[x][y]));
        }
      }
      ghost var m, m' := WallsOf(old(cells)), WallsOf(cells);
      forall x | 0 <= x < cols ensures m'[x] == m[x] {
      }
    }

    /** In the maze with walls m one may step from p straight into n. */
    ghost predicate Passable(m: WallMap, p: Coord, n: Coord)
      requires Shaped(m)
    {
      InBounds(p) && InBounds(n) && Adjacent(p, n) && !Blocked(m[p.x][p.y], p, n)
    }

    /** P is a walk through open passages of m. */
    ghost predicate IsRoute(m: WallMap, P: seq<Coord>)
      requires Shaped(m)
    {
      && |P| >= 1 && InBounds(P[0])
      && forall i :: 0 <= i < |P| - 1 ==> Passable(m, P[i], P[i + 1])
    }

    /** Every position of the grid. */
    ghost function AllCoords(): (r: set<Coord>)
      ensures forall c :: c in r <==> InBounds(c)
    {
      set x, y | 0 <= x < cols && 0 <= y < rows :: Coord(x, y)
    }

    /** The accessible neighbours of c are exactly the cells one may step into from c. */
    lemma AccessibleIsPassable(c: Coord)
      requires Valid() && InBounds(c)
      ensures forall n :: n in Accessible(c) <==> Passable(WallsOf(cells), c, n)
    {
      AccessibleFacts(c);
    }
  }
}
