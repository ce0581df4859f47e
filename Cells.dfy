/**
 * A cell of the maze: its four wall flags and the
 * transient flags that generators and solvers set on it (model/cell.py).
 */
module Cells {
  import opened Options

  /** A grid position; cells are referred to by their (x, y) pair. */
  datatype Coord = Coord(x: int, y: int)

  /** The four sides of a cell, in the order top, right, bottom, left. */
  datatype Side = Top | Right | Bottom | Left

  function Abs(n: int): nat { if n < 0 then -n else n }

  /** Manhattan distance between two positions. */
  function Manhattan(a: Coord, b: Coord): nat { Abs(a.x - b.x) + Abs(a.y - b.y) }

  /** Two positions one axis-aligned unit step apart. */
  predicate Adjacent(a: Coord, b: Coord) { Manhattan(a, b) == 1 }

  /** Direction number of a side: 0 top, 1 right, 2 bottom, 3 left. */
  function SideIndex(s: Side): (d: nat)
    ensures d < 4
  {
    match s
    case Top => 0
    case Right => 1
    case Bottom => 2
    case Left => 3
  }

  /** The side with direction number d; the inverse of SideIndex. */
  function SideAt(d: nat): (s: Side)
    requires d < 4
    ensures SideIndex(s) == d
  {
    if d == 0 then Top else if d == 1 then Right else if d == 2 then Bottom else Left
  }

  function Opposite(s: Side): Side {
    match s
    case Top => Bottom
    case Right => Left
    case Bottom => Top
    case Left => Right
  }

  /** The position one step from c through side s (y grows downwards). */
  function Step(c: Coord, s: Side): Coord {
    match s
    case Top => Coord(c.x, c.y - 1)
    case Right => Coord(c.x + 1, c.y)
    case Bottom => Coord(c.x, c.y + 1)
    case Left => Coord(c.x - 1, c.y)
  }

  /** The four wall flags of a cell; true means the wall is standing. */
  datatype Walls = Walls(top: bool, right: bool, bottom: bool, left: bool) {

    function Get(s: Side): bool {
      match s
      case Top => top
      case Right => right
      case Bottom => bottom
      case Left => left
    }

    /** These walls with the wall on side s knocked down. */
    function Open(s: Side): (w: Walls)
      ensures !w.Get(s)
      ensures forall t :: t != s ==> w.Get(t) == Get(t)
    {
      match s
      case Top => this.(top := false)
      case Right => this.(right := false)
      case Bottom => this.(bottom := false)
      case Left => this.(left := false)
    }
  }

  const AllWalls := Walls(true, true, true, true)

  /**
   * The state of one cell. Its x and y are not stored here: a cell is
   * always kept at the index (x, y) of the grid's array that it was
   * created for, so the index is its position.
   */
  datatype Cell = Cell(
    walls: Walls,
    visited: bool,          // joined the maze during generation
    isEntry: bool,
    isExit: bool,
    visitedBySolver: bool,  // closed set of a solver
    inFrontier: bool,       // open set of a solver
    isPath: bool)           // on the reported solution path

  /** A freshly made cell: fully walled, no flag set. */
  function NewCell(): (c: Cell)
    ensures forall s :: c.walls.Get(s)
    ensures !c.visited && !c.isEntry && !c.isExit
    ensures !c.visitedBySolver && !c.inFrontier && !c.isPath
  {
    Cell(AllWalls, false, false, false, false, false, false)
  }

  /**
   * The side of `from` that faces `to`, chosen from the coordinate
   * differences alone, the x difference being examined first.
   */
  function SideToward(from: Coord, to: Coord): Option<Side> {
    var dx := from.x - to.x;
    var dy := from.y - to.y;
    if dx == 1 then Some(Left)
    else if dx == -1 then Some(Right)
    else if dy == 1 then Some(Top)
    else if dy == -1 then Some(Bottom)
    else None
  }

  /** Whether walls w of a cell at `from` block the way towards `to`. */
  function Blocked(w: Walls, from: Coord, to: Coord): bool {
    match SideToward(from, to)
    case None => false
    case Some(s) => w.Get(s)
  }

  /** True when a wall of `self`, standing at `at`, stands between it and the cell at `other`. */
  function CheckWalls(self: Cell, at: Coord, other: Coord): (blocked: bool)
    ensures at.x - other.x == 1 ==> blocked == self.walls.left
    ensures at.x - other.x == -1 ==> blocked == self.walls.right
    ensures Abs(at.x - other.x) != 1 && at.y - other.y == 1 ==> blocked == self.walls.top
    ensures Abs(at.x - other.x) != 1 && at.y - other.y == -1 ==> blocked == self.walls.bottom
    ensures Abs(at.x - other.x) != 1 && Abs(at.y - other.y) != 1 ==> !blocked
  {
    Blocked(self.walls, at, other)
  }

  /** Stepping through side s is seen from both ends as s and its opposite. */
  lemma StepFacing(c: Coord, s: Side)
    ensures Adjacent(c, Step(c, s))
    ensures SideToward(c, Step(c, s)) == Some(s)
    ensures SideToward(Step(c, s), c) == Some(Opposite(s))
  {
  }

  /** Every unit neighbour is reached by exactly the side SideToward names. */
  lemma AdjacentStep(a: Coord, b: Coord)
    requires Adjacent(a, b)
    ensures SideToward(a, b).Some? && Step(a, SideToward(a, b).value) == b
  {
  }

  /**
   * With the facing walls of two adjacent cells agreeing, the check
   * gives the same answer from either cell.
   */
  lemma CheckWallsSymmetric(a: Cell, p: Coord, b: Cell, q: Coord)
    requires Adjacent(p, q)
    requires a.walls.Get(SideToward(p, q).value) == b.walls.Get(Opposite(SideToward(p, q).value))
    ensures CheckWalls(a, p, q) == CheckWalls(b, q, p)
  {
    AdjacentStep(p, q);
    StepFacing(p, SideToward(p, q).value);
  }
}
