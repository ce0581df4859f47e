/**
 * The recursive-backtracker maze generator
 * (model/generators/recursive_backtracker.py): a depth-first walk from
 * the top-left cell that knocks down the wall into a random untaken
 * neighbour of the stack top, or backs up when it has none.
 *
 * The random choices come from an oracle: draw k picks index
 * rand(k) % |neighbours|. The specification function Dug says what
 * board a run ends with; it does not depend on whether the run is shown.
 */
module BacktrackerSpec {
  import opened Cells
  import opened Grids
  import opened Search
  import opened Carving

  /** A run in progress: the board, the stack of cells dug through, and the draws made. */
  datatype Dig = Dig(cells: Board, stack: seq<Coord>, draws: nat)

  /** The board fits the grid and every stack cell lies on it. */
  ghost predicate Sound(g: Grid, s: Dig) {
    g.Shaped(s.cells) && forall i :: 0 <= i < |s.stack| ==> g.InBounds(s.stack[i])
  }

  /** The run starts with the top-left cell taken in and alone on the stack. */
  ghost function Begin(g: Grid, b: Board): (s: Dig)
    requires g.Shaped(b) && 1 <= g.rows && 1 <= g.cols
    ensures Sound(g, s)
  {
    Dig(Visit(b, Coord(0, 0)), [Coord(0, 0)], 0)
  }

  /**
   * One iteration: with untaken neighbours of the stack top, knock down
   * the wall into the drawn one, take it in and push it; otherwise pop.
   */
  ghost function DigStep(g: Grid, s: Dig, rand: nat -> nat): (t: Dig)
    requires Sound(g, s) && |s.stack| > 0
    ensures Sound(g, t)
  {
    var top := s.stack[|s.stack| - 1];
    g.UnvisitedNeighborsFacts(s.cells, top);
    var ns := g.UnvisitedIn(s.cells, top);
    if |ns| > 0 then
      var n := ns[rand(s.draws) % |ns|];
      Dig(Visit(g.WithoutWall(s.cells, top, n), n), s.stack + [n], s.draws + 1)
    else
      Dig(s.cells, s.stack[..|s.stack| - 1], s.draws)
  }

  /** Every iteration takes a new cell in or shortens the stack. */
  lemma StepShrinks(g: Grid, s: Dig, rand: nat -> nat)
    requires Sound(g, s) && |s.stack| > 0
    ensures var t := DigStep(g, s, rand);
            || Untaken(g, t.cells) < Untaken(g, s.cells)
            || (Untaken(g, t.cells) == Untaken(g, s.cells) && |t.stack| < |s.stack|)
  {
    var top := s.stack[|s.stack| - 1];
    g.UnvisitedNeighborsFacts(s.cells, top);
    var ns := g.UnvisitedIn(s.cells, top);
    if |ns| > 0 {
      var n := ns[rand(s.draws) % |ns|];
      assert n in ns;
      g.WithoutWallFacts(s.cells, top, n);
      VisitAdds(g, s.cells, g.WithoutWall(s.cells, top, n), n);
      var t := DigStep(g, s, rand);
      assert Untaken(g, t.cells) == Untaken(g, s.cells) - {n};
    }
  }

  /** The board a run from s ends with, once the stack is empty. */
  ghost function Dug(g: Grid, s: Dig, rand: nat -> nat): (r: Board)
    requires Sound(g, s)
    ensures g.Shaped(r)
    decreases Untaken(g, s.cells), |s.stack|
  {
    if s.stack == [] then s.cells
    else
      StepShrinks(g, s, rand);
      Dug(g, DigStep(g, s, rand), rand)
  }

  /** An iteration leaves the final board as it was. */
  lemma DugStep(g: Grid, s: Dig, rand: nat -> nat)
    requires Sound(g, s) && |s.stack| > 0
    ensures Dug(g, DigStep(g, s, rand), rand) == Dug(g, s, rand)
  {
  }

  /** Every stack cell is taken in, and each stack cell opens into the next. */
  ghost predicate Stacked(g: Grid, s: Dig)
    requires Sound(g, s)
  {
    && (forall i :: 0 <= i < |s.stack| ==> s.cells[s.stack[i].x][s.stack[i].y].visited)
    && (forall i :: 0 <= i < |s.stack| - 1 ==> g.Passable(WallsOf(s.cells), s.stack[i], s.stack[i + 1]))
  }

  /** Every iteration keeps the stack taken in and connected, whatever board the run began on. */
  lemma StepKeepsStack(g: Grid, s: Dig, rand: nat -> nat)
    requires Sound(g, s) && |s.stack| > 0 && Stacked(g, s)
    ensures Stacked(g, DigStep(g, s, rand))
  {
    var top := s.stack[|s.stack| - 1];
    g.UnvisitedNeighborsFacts(s.cells, top);
    var ns := g.UnvisitedIn(s.cells, top);
    if |ns| > 0 {
      var n := ns[rand(s.draws) % |ns|];
      assert n in ns;
      var b1 := g.WithoutWall(s.cells, top, n);
      var t := DigStep(g, s, rand);
      g.WithoutWallFacts(s.cells, top, n);
      VisitAdds(g, s.cells, b1, n);
      var m := WallsOf(s.cells);
      PassagesKept(g, m, top, n);
      g.RemoveWallOpens(m, top, n);
      forall i | 0 <= i < |t.stack| ensures t.cells[t.stack[i].x][t.stack[i].y].visited {
        assert t.stack[i] in VisitedCells(g, t.cells);
      }
      ChainExtends(g, s.stack, n, m, WallsOf(t.cells));
    }
  }

  /** A chain of open passages through m, extended by an open step from its end, is a chain through m1 if m1 opens all m does. */
  lemma ChainExtends(g: Grid, P: seq<Coord>, n: Coord, m: WallMap, m1: WallMap)
    requires g.Shaped(m) && g.Shaped(m1) && |P| > 0
    requires forall i :: 0 <= i < |P| - 1 ==> g.Passable(m, P[i], P[i + 1])
    requires forall p, q :: g.Passable(m, p, q) ==> g.Passable(m1, p, q)
    requires g.Passable(m1, P[|P| - 1], n)
    ensures forall i :: 0 <= i < |P + [n]| - 1 ==> g.Passable(m1, (P + [n])[i], (P + [n])[i + 1])
  {
    forall i | 0 <= i < |P + [n]| - 1 ensures g.Passable(m1, (P + [n])[i], (P + [n])[i + 1]) {
      if i < |P| - 1 {
        assert g.Passable(m, P[i], P[i + 1]);
      }
    }
  }

  /** Every taken cell off the stack has all its neighbours taken. */
  ghost predicate Behind(g: Grid, s: Dig)
    requires Sound(g, s)
  {
    forall c, n :: c in VisitedCells(g, s.cells) && c !in s.stack && g.InBounds(n) && Adjacent(c, n)
      ==> s.cells[n.x][n.y].visited
  }

  /** On a run from a fresh board: a growing carving, with every cell backed out of finished. */
  ghost predicate Digging(g: Grid, s: Dig)
    requires Sound(g, s)
  {
    Growing(g, s.cells, Coord(0, 0)) && Stacked(g, s) && Behind(g, s)
  }

  /** Every iteration keeps a run from a fresh board digging. */
  lemma StepKeepsDigging(g: Grid, s: Dig, rand: nat -> nat)
    requires Sound(g, s) && |s.stack| > 0 && Digging(g, s)
    ensures Digging(g, DigStep(g, s, rand))
  {
    StepKeepsStack(g, s, rand);
    var t := DigStep(g, s, rand);
    var top := s.stack[|s.stack| - 1];
    assert s.cells[top.x][top.y].visited;
    g.UnvisitedNeighborsFacts(s.cells, top);
    var ns := g.UnvisitedIn(s.cells, top);
    if |ns| > 0 {
      var n := ns[rand(s.draws) % |ns|];
      assert n in ns;
      GrowKeeps(g, s.cells, Coord(0, 0), top, n, n, g.WithoutWall(s.cells, top, n));
      forall c, p | c in VisitedCells(g, t.cells) && c !in t.stack && g.InBounds(p) && Adjacent(c, p)
        ensures t.cells[p.x][p.y].visited
      {
        assert c in VisitedCells(g, s.cells) && c !in s.stack;
        assert p in VisitedCells(g, s.cells);
      }
    } else {
      forall c, p | c in VisitedCells(g, t.cells) && c !in t.stack && g.InBounds(p) && Adjacent(c, p)
        ensures t.cells[p.x][p.y].visited
      {
        if c in s.stack {
          assert c == top by {
            var i :| 0 <= i < |s.stack| && s.stack[i] == c;
            assert t.stack == s.stack[..|s.stack| - 1];
            assert i == |s.stack| - 1;
          }
          assert p !in ns;
        }
      }
    }
  }

  /** A run from a digging state ends in a perfect maze. */
  lemma {:induction false} DugPerfect(g: Grid, s: Dig, rand: nat -> nat)
    requires Sound(g, s) && Digging(g, s)
    ensures PerfectMaze(g, Dug(g, s, rand))
    decreases Untaken(g, s.cells), |s.stack|
  {
    if s.stack == [] {
      assert Saturated(g, s.cells) by {
        forall p, n | g.InBounds(p) && g.InBounds(n) && Adjacent(p, n) && s.cells[p.x][p.y].visited
          ensures s.cells[n.x][n.y].visited
        {
          assert p in VisitedCells(g, s.cells);
        }
      }
      Spans(g, s.cells, Coord(0, 0));
    } else {
      StepShrinks(g, s, rand);
      StepKeepsDigging(g, s, rand);
      DugPerfect(g, DigStep(g, s, rand), rand);
    }
  }

  /** Run on a fresh board, the backtracker carves a perfect maze, whatever the draws. */
  lemma BacktrackerCarvesPerfectMaze(g: Grid, b: Board, rand: nat -> nat)
    requires g.Shaped(b) && 1 <= g.rows && 1 <= g.cols && Fresh(g, b)
    ensures PerfectMaze(g, Dug(g, Begin(g, b), rand))
  {
    var s := Begin(g, b);
    GrowStart(g, b, Coord(0, 0));
    assert Behind(g, s) by {
      assert s.stack == [Coord(0, 0)];
      assert VisitedCells(g, s.cells) == {Coord(0, 0)};
    }
    DugPerfect(g, s, rand);
  }
}

module Backtracker {
  import opened Options
  import opened Cells
  import opened Grids
  import opened Carving
  import opened BacktrackerSpec

  /**
   * Carves a maze into grid by depth-first backtracking from (0, 0).
   * The board it leaves is Dug's, the same whether or not the run is
   * shown; only a shown run points grid.current at the stack top, and
   * clears it at the end.
   */
  method Generate(grid: Grid, visualize: bool, rand: nat -> nat)
    requires grid.Valid()
    modifies grid
    ensures grid.Valid()
    ensures grid.cells == Dug(grid, Begin(grid, old(grid.cells)), rand)
    ensures visualize ==> grid.current == None
    ensures !visualize ==> grid.current == old(grid.current)
    ensures Fresh(grid, old(grid.cells)) ==> PerfectMaze(grid, grid.cells)
  {
    ghost var b0 := grid.cells;
    ghost var goal := Dug(grid, Begin(grid, b0), rand);
    var start := Coord(0, 0);
    grid.cells := Visit(grid.cells, start);
    var stack := [start];
    var draws := 0;
    while stack != []
      invariant grid.Valid() && Sound(grid, Dig(grid.cells, stack, draws))
      invariant Dug(grid, Dig(grid.cells, stack, draws), rand) == goal
      invariant !visualize ==> grid.current == old(grid.current)
      decreases Untaken(grid, grid.cells), |stack|
    {
      ghost var s := Dig(grid.cells, stack, draws);
      StepShrinks(grid, s, rand);
      DugStep(grid, s, rand);
      stack, draws := Iterate(grid, stack, draws, visualize, rand);
    }
    if visualize {
      grid.current := None;
    }
    assert grid.cells == goal;
    if Fresh(grid, b0) {
      BacktrackerCarvesPerfectMaze(grid, b0, rand);
    }
  }

  /** One pass of the loop: carve into a drawn untaken neighbour of the stack top, or back up. */
  method Iterate(grid: Grid, stack0: seq<Coord>, draws0: nat, visualize: bool, rand: nat -> nat)
    returns (stack: seq<Coord>, draws: nat)
    requires grid.Valid() && Sound(grid, Dig(grid.cells, stack0, draws0)) && |stack0| > 0
    modifies grid
    ensures grid.Valid() && Dig(grid.cells, stack, draws) == DigStep(grid, Dig(old(grid.cells), stack0, draws0), rand)
    ensures !visualize ==> grid.current == old(grid.current)
  {
    ghost var s := Dig(grid.cells, stack0, draws0);
    ghost var t := DigStep(grid, s, rand);
    var current := stack0[|stack0| - 1];
    if visualize {
      grid.current := Some(current);
    }
    grid.UnvisitedNeighborsFacts(grid.cells, current);
    var neighbors := grid.GetUnvisitedNeighbors(current);
    assert neighbors == grid.UnvisitedIn(s.cells, current);
    if |neighbors| > 0 {
      var neighbor := neighbors[rand(draws0) % |neighbors|];
      assert neighbor in neighbors;
      assert t == Dig(Visit(grid.WithoutWall(s.cells, current, neighbor), neighbor), stack0 + [neighbor], draws0 + 1);
      grid.RemoveWall(current, neighbor);
      ghost var b1 := grid.cells;
      grid.cells := Visit(grid.cells, neighbor);
      assert b1 == grid.WithoutWall(s.cells, current, neighbor);
      stack := stack0 + [neighbor];
      draws := draws0 + 1;
    } else {
      stack := stack0[..|stack0| - 1];
      draws := draws0;
      assert t == Dig(s.cells, stack, draws);
    }
  }
}
