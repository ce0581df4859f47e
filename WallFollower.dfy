/**
 * The right-hand-rule walk (model/solvers/wall_follower.py): at every
 * cell the walker tries, relative to its heading, a right turn, straight
 * on, a left turn and turning back, and steps through the first side
 * whose wall is down and whose neighbour exists.
 */
module WallFollowerSpec {
  import opened Options
  import opened Cells
  import opened Grids
  import opened Search

  /** The turns tried, in order: right, straight on, left, back. */
  const Rotations: seq<int> := [1, 0, -1, 2]

  /** A step of the walk: the cell entered and the heading it was entered with. */
  datatype Move = Move(to: Coord, heading: nat)

  /** Every turn listed lies between a quarter turn anticlockwise and a half turn. */
  predicate Turns(rots: seq<int>) {
    forall i :: 0 <= i < |rots| ==> -1 <= rots[i] <= 2
  }

  /** The heading d turned by rot quarter turns clockwise. */
  function Turned(d: nat, rot: int): (nd: nat)
    requires d < 4 && -1 <= rot <= 2
    ensures nd < 4
  {
    if d + rot < 0 then d + rot + 4 else if d + rot >= 4 then d + rot - 4 else d + rot
  }

  /** Turning agrees with the floored remainder the walker computes, (d + rot) mod 4. */
  lemma TurnedIsRemainder(d: nat, rot: int)
    requires d < 4 && -1 <= rot <= 2
    ensures Turned(d, rot) == (d + rot) % 4 && 0 <= (d + rot) % 4 < 4
  {
  }

  /** From c, with walls w, one cannot leave through the side numbered nd. */
  predicate Shut(g: Grid, w: Walls, c: Coord, nd: nat)
    requires nd < 4
  {
    w.Get(SideAt(nd)) || !g.InBounds(Step(c, SideAt(nd)))
  }

  /** Every way out of c is shut: the walker is stuck whatever its heading. */
  predicate Stuck(g: Grid, w: Walls, c: Coord) {
    forall nd: nat :: nd < 4 ==> Shut(g, w, c, nd)
  }

  /** The move taken by the first of the turns rots, from heading d, that is not shut. */
  function FirstOpen(g: Grid, w: Walls, c: Coord, d: nat, rots: seq<int>): Option<Move>
    requires d < 4 && Turns(rots)
    decreases |rots|
  {
    if rots == [] then None
    else if !Shut(g, w, c, Turned(d, rots[0])) then
      Some(Move(Step(c, SideAt(Turned(d, rots[0]))), Turned(d, rots[0])))
    else FirstOpen(g, w, c, d, rots[1..])
  }

  /** The move the right-hand rule makes from c, heading d, with walls w. */
  function NextMove(g: Grid, w: Walls, c: Coord, d: nat): Option<Move>
    requires d < 4
  {
    FirstOpen(g, w, c, d, Rotations)
  }

  /**
   * FirstOpen finds nothing exactly when every turn listed is shut, and
   * otherwise takes the earliest turn that is open.
   */
  lemma {:induction false} FirstOpenFacts(g: Grid, w: Walls, c: Coord, d: nat, rots: seq<int>)
    requires d < 4 && Turns(rots)
    ensures FirstOpen(g, w, c, d, rots).None? <==>
              forall i :: 0 <= i < |rots| ==> Shut(g, w, c, Turned(d, rots[i]))
    ensures FirstOpen(g, w, c, d, rots).Some? ==>
              exists i :: 0 <= i < |rots| && FirstOpen(g, w, c, d, rots).value.heading == Turned(d, rots[i])
                && !Shut(g, w, c, Turned(d, rots[i]))
                && (forall j :: 0 <= j < i ==> Shut(g, w, c, Turned(d, rots[j])))
    ensures FirstOpen(g, w, c, d, rots).Some? ==>
              FirstOpen(g, w, c, d, rots).value.heading < 4
              && FirstOpen(g, w, c, d, rots).value.to == Step(c, SideAt(FirstOpen(g, w, c, d, rots).value.heading))
    decreases |rots|
  {
    if rots != [] && Shut(g, w, c, Turned(d, rots[0])) {
      FirstOpenFacts(g, w, c, d, rots[1..]);
      var r := FirstOpen(g, w, c, d, rots[1..]);
      if r.Some? {
        var i :| 0 <= i < |rots[1..]| && r.value.heading == Turned(d, rots[1..][i])
                 && !Shut(g, w, c, Turned(d, rots[1..][i]))
                 && (forall j :: 0 <= j < i ==> Shut(g, w, c, Turned(d, rots[1..][j])));
        assert forall j :: 0 <= j < i + 1 ==> Shut(g, w, c, Turned(d, rots[j])) by {
          forall j | 0 <= j < i + 1 ensures Shut(g, w, c, Turned(d, rots[j])) {
            if j > 0 {
              assert rots[j] == rots[1..][j - 1];
            }
          }
        }
        assert rots[i + 1] == rots[1..][i];
      } else {
        forall i | 0 <= i < |rots| ensures Shut(g, w, c, Turned(d, rots[i])) {
          if i > 0 {
            assert rots[i] == rots[1..][i - 1];
          }
        }
      }
    }
  }

  /** The right-hand rule takes the first turn that is not shut. */
  lemma NextMoveAt(g: Grid, w: Walls, c: Coord, d: nat, i: nat)
    requires d < 4 && i < |Rotations|
    requires forall j :: 0 <= j < i ==> Shut(g, w, c, Turned(d, Rotations[j]))
    requires !Shut(g, w, c, Turned(d, Rotations[i]))
    ensures NextMove(g, w, c, d) == Some(Move(Step(c, SideAt(Turned(d, Rotations[i]))), Turned(d, Rotations[i])))
  {
    FirstOpenFacts(g, w, c, d, Rotations);
    var k :| 0 <= k < |Rotations| && NextMove(g, w, c, d).value.heading == Turned(d, Rotations[k])
             && !Shut(g, w, c, Turned(d, Rotations[k]))
             && (forall j :: 0 <= j < k ==> Shut(g, w, c, Turned(d, Rotations[j])));
    assert k == i;
  }

  /** With every turn shut, the right-hand rule makes no move. */
  lemma NextMoveNone(g: Grid, w: Walls, c: Coord, d: nat)
    requires d < 4
    requires forall j :: 0 <= j < |Rotations| ==> Shut(g, w, c, Turned(d, Rotations[j]))
    ensures NextMove(g, w, c, d) == None
  {
    FirstOpenFacts(g, w, c, d, Rotations);
  }

  /** The four turns lead out through all four sides, whatever the heading. */
  lemma TurnsCoverSides(d: nat, nd: nat)
    requires d < 4 && nd < 4
    ensures exists i :: 0 <= i < |Rotations| && Turned(d, Rotations[i]) == nd
  {
    var i := if nd == Turned(d, 1) then 0 else if nd == d then 1 else if nd == Turned(d, -1) then 2 else 3;
    assert Turned(d, Rotations[i]) == nd;
  }

  /**
   * The right-hand rule: the move made goes through an open side into a
   * cell of the grid, and every turn ranked before it (right, straight on,
   * left, back) is shut; no move is made exactly when the walker is stuck.
   */
  lemma NextMoveRule(g: Grid, w: Walls, c: Coord, d: nat)
    requires d < 4
    ensures NextMove(g, w, c, d).None? <==> Stuck(g, w, c)
    ensures NextMove(g, w, c, d).Some? ==>
              var mv := NextMove(g, w, c, d).value;
              mv.heading < 4 && mv.to == Step(c, SideAt(mv.heading))
              && !w.Get(SideAt(mv.heading)) && g.InBounds(mv.to)
              && exists i :: 0 <= i < 4 && mv.heading == Turned(d, Rotations[i])
                   && forall j :: 0 <= j < i ==> Shut(g, w, c, Turned(d, Rotations[j]))
  {
    FirstOpenFacts(g, w, c, d, Rotations);
    if NextMove(g, w, c, d).None? {
      forall nd: nat | nd < 4 ensures Shut(g, w, c, nd) {
        TurnsCoverSides(d, nd);
      }
    }
  }

  /**
   * The path P, which has brought the walker to c heading d, extended by
   * every cell the walker enters until it stands on end, is stuck, or has
   * made fuel more steps.
   */
  function Walk(g: Grid, m: WallMap, P: seq<Coord>, c: Coord, d: nat, end: Coord, fuel: nat): seq<Coord>
    requires g.Shaped(m) && g.InBounds(c) && d < 4
    decreases fuel
  {
    if c == end || fuel == 0 then P
    else
      match NextMove(g, m[c.x][c.y], c, d)
      case None => P
      case Some(mv) =>
        NextMoveRule(g, m[c.x][c.y], c, d);
        Walk(g, m, P + [mv.to], mv.to, mv.heading, end, fuel - 1)
  }

  /** One step of the walk: from P at c heading d, the rule moves to c1 heading d1, giving P1. */
  lemma WalkStep(g: Grid, m: WallMap, P: seq<Coord>, c: Coord, d: nat, end: Coord, fuel: nat,
                 mv: Option<Move>, P1: seq<Coord>, c1: Coord, d1: nat, fuel1: nat)
    requires g.Shaped(m) && g.InBounds(c) && d < 4 && c != end && fuel > 0
    requires mv == NextMove(g, m[c.x][c.y], c, d) && mv.Some?
    requires c1 == mv.value.to && d1 == mv.value.heading && P1 == P + [c1] && fuel1 == fuel - 1
    ensures g.InBounds(c1) && d1 < 4
    ensures Walk(g, m, P, c, d, end, fuel) == Walk(g, m, P1, c1, d1, end, fuel1)
  {
    NextMoveRule(g, m[c.x][c.y], c, d);
  }

  /** Where the walk stops, it adds nothing more to the path. */
  lemma WalkDone(g: Grid, m: WallMap, P: seq<Coord>, c: Coord, d: nat, end: Coord, fuel: nat)
    requires g.Shaped(m) && g.InBounds(c) && d < 4
    requires c == end || fuel == 0 || NextMove(g, m[c.x][c.y], c, d).None?
    ensures Walk(g, m, P, c, d, end, fuel) == P
  {
  }

  /** The path the solver reports: the start followed by every cell the walk enters, heading right at first. */
  function Trace(g: Grid, m: WallMap, start: Coord, end: Coord, fuel: nat): seq<Coord>
    requires g.Shaped(m) && g.InBounds(start)
  {
    Walk(g, m, [start], start, 1, end, fuel)
  }

  /** Every step of the walk goes through an open passage, so a route stays a route. */
  lemma {:induction false} WalkIsRoute(g: Grid, m: WallMap, P: seq<Coord>, c: Coord, d: nat, end: Coord, fuel: nat)
    requires g.Shaped(m) && g.InBounds(c) && d < 4
    requires g.IsRoute(m, P) && P[|P| - 1] == c
    ensures g.IsRoute(m, Walk(g, m, P, c, d, end, fuel))
    decreases fuel
  {
    if c != end && fuel != 0 && NextMove(g, m[c.x][c.y], c, d).Some? {
      var mv := NextMove(g, m[c.x][c.y], c, d).value;
      NextMoveRule(g, m[c.x][c.y], c, d);
      StepFacing(c, SideAt(mv.heading));
      var Q := P + [mv.to];
      assert g.Passable(m, c, mv.to);
      forall i | 0 <= i < |Q| - 1 ensures g.Passable(m, Q[i], Q[i + 1]) {
        if i < |P| - 1 {
          assert Q[i] == P[i] && Q[i + 1] == P[i + 1];
        }
      }
      WalkIsRoute(g, m, Q, mv.to, mv.heading, end, fuel - 1);
    }
  }

  /**
   * The walk only extends P, by at most fuel cells; it never passes
   * through end, and stops only at end, when stuck, or when the fuel is
   * spent.
   */
  lemma {:induction false} WalkStops(g: Grid, m: WallMap, P: seq<Coord>, c: Coord, d: nat, end: Coord, fuel: nat)
    requires g.Shaped(m) && g.InBounds(c) && d < 4
    requires P != [] && P[|P| - 1] == c && forall i :: 0 <= i < |P| - 1 ==> P[i] != end
    ensures var R := Walk(g, m, P, c, d, end, fuel);
      && P <= R && |R| <= |P| + fuel
      && (forall i :: 0 <= i < |R| - 1 ==> R[i] != end)
      && g.InBounds(R[|R| - 1])
      && (R[|R| - 1] == end || |R| == |P| + fuel || Stuck(g, m[R[|R| - 1].x][R[|R| - 1].y], R[|R| - 1]))
    decreases fuel
  {
    NextMoveRule(g, m[c.x][c.y], c, d);
    if c != end && fuel != 0 && NextMove(g, m[c.x][c.y], c, d).Some? {
      var mv := NextMove(g, m[c.x][c.y], c, d).value;
      var Q := P + [mv.to];
      assert forall i :: 0 <= i < |Q| - 1 ==> Q[i] != end by {
        forall i | 0 <= i < |Q| - 1 ensures Q[i] != end {
          if i < |P| - 1 {
            assert Q[i] == P[i];
          }
        }
      }
      WalkStops(g, m, Q, mv.to, mv.heading, end, fuel - 1);
    }
  }

  /** The walk only appends to the path it is given, at most one cell per unit of fuel. */
  lemma {:induction false} WalkGrows(g: Grid, m: WallMap, P: seq<Coord>, c: Coord, d: nat, end: Coord, fuel: nat)
    requires g.Shaped(m) && g.InBounds(c) && d < 4
    ensures P <= Walk(g, m, P, c, d, end, fuel) && |Walk(g, m, P, c, d, end, fuel)| <= |P| + fuel
    decreases fuel
  {
    if c != end && fuel != 0 && NextMove(g, m[c.x][c.y], c, d).Some? {
      var mv := NextMove(g, m[c.x][c.y], c, d).value;
      NextMoveRule(g, m[c.x][c.y], c, d);
      WalkGrows(g, m, P + [mv.to], mv.to, mv.heading, end, fuel - 1);
    }
  }

  /**
   * More fuel only lets the walk go on: the walk with less fuel is the
   * beginning of the walk with more, and the same walk if it stopped
   * before the fuel ran out; so the bound cuts the unbounded walk short
   * without changing it.
   */
  lemma {:induction false} WalkExtends(g: Grid, m: WallMap, P: seq<Coord>, c: Coord, d: nat, end: Coord, fuel: nat, more: nat)
    requires g.Shaped(m) && g.InBounds(c) && d < 4 && fuel <= more
    ensures Walk(g, m, P, c, d, end, fuel) <= Walk(g, m, P, c, d, end, more)
    ensures |Walk(g, m, P, c, d, end, fuel)| < |P| + fuel ==> Walk(g, m, P, c, d, end, fuel) == Walk(g, m, P, c, d, end, more)
    decreases fuel
  {
    if c != end && fuel != 0 && NextMove(g, m[c.x][c.y], c, d).Some? {
      var mv := NextMove(g, m[c.x][c.y], c, d).value;
      NextMoveRule(g, m[c.x][c.y], c, d);
      WalkExtends(g, m, P + [mv.to], mv.to, mv.heading, end, fuel - 1, more - 1);
    } else if fuel == 0 {
      WalkGrows(g, m, P, c, d, end, more);
    }
  }

  /**
   * The reported path is a route from start through open passages, of at
   * most fuel + 1 cells, that meets end at most as its last cell and ends
   * at end, at a cell with no way out, or when the fuel is spent.
   */
  lemma TraceFacts(g: Grid, m: WallMap, start: Coord, end: Coord, fuel: nat)
    requires g.Shaped(m) && g.InBounds(start)
    ensures var T := Trace(g, m, start, end, fuel);
      && g.IsRoute(m, T) && T[0] == start && |T| <= fuel + 1
      && (forall i :: 0 <= i < |T| - 1 ==> T[i] != end)
      && g.InBounds(T[|T| - 1])
      && (T[|T| - 1] == end || |T| == fuel + 1 || Stuck(g, m[T[|T| - 1].x][T[|T| - 1].y], T[|T| - 1]))
  {
    WalkIsRoute(g, m, [start], start, 1, end, fuel);
    WalkStops(g, m, [start], start, 1, end, fuel);
  }

  /** Every cell of b is the cell of b0, with both solver flags raised on the cells of the walk S. */
  ghost predicate Trodden(b: Board, b0: Board, S: seq<Coord>) {
    && |b| == |b0|
    && (forall x :: 0 <= x < |b| ==> |b[x]| == |b0[x]|)
    && forall x, y :: 0 <= x < |b| && 0 <= y < |b[x]| ==>
         b[x][y] == if Coord(x, y) in S then b0[x][y].(visitedBySolver := true, isPath := true) else b0[x][y]
  }

  /** Raising solver flags changes neither walls nor anything else of the maze. */
  lemma TroddenSameMaze(b: Board, b0: Board, S: seq<Coord>)
    requires Trodden(b, b0, S)
    ensures SameMaze(b, b0)
  {
  }

  /** On a trodden board every cell keeps the walls it started with. */
  lemma TroddenWalls(b: Board, b0: Board, S: seq<Coord>, c: Coord)
    requires Trodden(b, b0, S) && 0 <= c.x < |b0| && 0 <= c.y < |b0[c.x]|
    ensures 0 <= c.x < |b| && 0 <= c.y < |b[c.x]|
    ensures b[c.x][c.y].walls == WallsOf(b0)[c.x][c.y]
  {
  }

  /** Raising both flags at c, one after the other, adds c to the trodden cells. */
  lemma Tread(b: Board, b0: Board, S: seq<Coord>, c: Coord, b1: Board, b2: Board)
    requires Trodden(b, b0, S) && 0 <= c.x < |b| && 0 <= c.y < |b[c.x]|
    requires b1 == Put(b, c, b[c.x][c.y].(visitedBySolver := true))
    requires b2 == Put(b1, c, b1[c.x][c.y].(isPath := true))
    ensures Trodden(b2, b0, S + [c])
  {
    forall x, y | 0 <= x < |b2| && 0 <= y < |b2[x]|
      ensures |b2| == |b0| && |b2[x]| == |b0[x]|
      ensures b2[x][y] == if Coord(x, y) in S + [c] then b0[x][y].(visitedBySolver := true, isPath := true) else b0[x][y]
    {
      PutAt(b, c, b[c.x][c.y].(visitedBySolver := true), x, y);
      PutAt(b1, c, b1[c.x][c.y].(isPath := true), x, y);
    }
  }
}

module WallFollower {
  import opened Options
  import opened Cells
  import opened Grids
  import opened Search
  import opened WallFollowerSpec

  /**
   * The move the walker makes from c, heading d, reading c's walls from
   * the grid: the turns are tried in the order right, straight on, left,
   * back, and the first whose wall is down and whose neighbour exists wins.
   */
  method Turn(grid: Grid, c: Coord, d: nat) returns (mv: Option<Move>)
    requires grid.Valid() && grid.InBounds(c) && d < 4
    ensures mv == NextMove(grid, grid.cells[c.x][c.y].walls, c, d)
  {
    var rotations := [1, 0, -1, 2];
    var moves := [(0, -1), (1, 0), (0, 1), (-1, 0)];
    var w := grid.cells[c.x][c.y].walls;
    var i := 0;
    while i < |rotations|
      invariant 0 <= i <= 4 && rotations == Rotations
      invariant forall j :: 0 <= j < i ==> Shut(grid, w, c, Turned(d, Rotations[j]))
    {
      var newDir := (d + rotations[i]) % 4;
      TurnedIsRemainder(d, rotations[i]);
      if !w.Get(SideAt(newDir)) {
        var (dx, dy) := moves[newDir];
        assert Coord(c.x + dx, c.y + dy) == Step(c, SideAt(newDir));
        var next := grid.GetCell(c.x + dx, c.y + dy);
        if next.Some? {
          NextMoveAt(grid, w, c, d, i);
          return Some(Move(Coord(c.x + dx, c.y + dy), newDir));
        }
      }
      i := i + 1;
    }
    NextMoveNone(grid, w, c, d);
    mv := None;
  }

  /** Marks c as visited and then as on the path, as the walker does on entering it. */
  method Enter(grid: Grid, c: Coord, ghost b0: Board, ghost S: seq<Coord>)
    requires grid.Valid() && grid.InBounds(c) && Trodden(grid.cells, b0, S)
    modifies grid`cells
    ensures grid.Valid() && Trodden(grid.cells, b0, S + [c])
  {
    ghost var b := grid.cells;
    SetFlags(grid, c, grid.cells[c.x][c.y].(visitedBySolver := true));
    ghost var b1 := grid.cells;
    SetFlags(grid, c, grid.cells[c.x][c.y].(isPath := true));
    Tread(b, b0, S, c, b1, grid.cells);
  }

  /**
   * Walks from start by the right-hand rule, raising the closed-set and
   * path flags of every cell entered, until it stands on end, is stuck,
   * or has made maxSteps steps; returns every cell stood on, in order.
   */
  method Solve(grid: Grid, start: Coord, end: Coord, maxSteps: nat) returns (path: seq<Coord>)
    requires grid.Valid() && grid.InBounds(start) && grid.InBounds(end)
    modifies grid`cells
    ensures grid.Valid() && SameMaze(grid.cells, old(grid.cells))
    ensures path == Trace(grid, WallsOf(old(grid.cells)), start, end, maxSteps)
    ensures Trodden(grid.cells, old(grid.cells), path)
    ensures grid.IsRoute(WallsOf(old(grid.cells)), path) && path[0] == start
    ensures var last := path[|path| - 1];
      grid.InBounds(last)
      && (last == end || |path| == maxSteps + 1 || Stuck(grid, WallsOf(old(grid.cells))[last.x][last.y], last))
  {
    ghost var b0 := grid.cells;
    ghost var m := WallsOf(b0);
    assert grid.Shaped(m);
    var direction: nat := 1;
    var current := start;
    path := [current];
    Enter(grid, current, b0, []);
    var fuel: nat := maxSteps;
    ghost var whole := Trace(grid, m, start, end, maxSteps);
    while current != end && fuel > 0
      invariant grid.Valid() && grid.InBounds(current) && direction < 4
      invariant Walk(grid, m, path, current, direction, end, fuel) == whole
      invariant Trodden(grid.cells, b0, path)
    {
      TroddenWalls(grid.cells, b0, path, current);
      var mv := Turn(grid, current, direction);
      if mv.None? {
        WalkDone(grid, m, path, current, direction, end, fuel);
        break;
      }
      NextMoveRule(grid, m[current.x][current.y], current, direction);
      ghost var path0, current0, direction0, fuel0 := path, current, direction, fuel;
      current, direction := mv.value.to, mv.value.heading;
      Enter(grid, current, b0, path);
      path := path + [current];
      fuel := fuel - 1;
      WalkStep(grid, m, path0, current0, direction0, end, fuel0, mv, path, current, direction, fuel);
    }
    if current == end || fuel == 0 {
      WalkDone(grid, m, path, current, direction, end, fuel);
    }
    TroddenSameMaze(grid.cells, b0, path);
    TraceFacts(grid, m, start, end, maxSteps);
  }
}
