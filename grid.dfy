/** The Some/None wrapper used for values the source marks with a sentinel. */
module Wrappers {
  datatype Option<+T> = None | Some(value: T)
}

/**
  The board of A_Star_Pathfinding: its fixed size, the encoding of its cells,
  coordinates, the four orthogonal moves and the walks they allow.
*/
module Grid {

  /** Board dimensions, ROW and COL of the header. */
  const ROW: int := 38
  const COL: int := 40

  /** Cell encoding: 1 is open and every other value blocked; a traced path is written as 3. */
  const OPEN: int := 1
  const PATH: int := 3

  /** A board coordinate (row, column), the header's `Pair`. */
  datatype Coord = Coord(row: int, col: int)

  /** The board is the caller's `int grid[ROW][COL]`. */
  predicate GridShape(grid: array2<int>)
  {
    grid.Length0 == ROW && grid.Length1 == COL
  }

  /** Every coordinate of the board. */
  function AllCells(): set<Coord>
  {
    set r, c | 0 <= r < ROW && 0 <= c < COL :: Coord(r, c)
  }

  /** isValid: the cell lies on the board. */
  predicate IsValid(row: int, col: int)
  {
    0 <= row < ROW && 0 <= col < COL
  }

  /** The board's cells are exactly the valid coordinates. */
  lemma ValidIsOnBoard(x: Coord)
    ensures IsValid(x.row, x.col) <==> x in AllCells()
  {
  }

  /**
    isUnBlocked: the cell holds exactly 1. The source reads the board
    without a bounds check, so callers test IsValid first.
  */
  predicate IsUnBlocked(grid: array2<int>, row: int, col: int)
    requires GridShape(grid) && IsValid(row, col)
    reads grid
  {
    grid[row, col] == OPEN
  }

  /** isDestination: the cell is the destination. */
  predicate IsDestination(row: int, col: int, dest: Coord)
  {
    row == dest.row && col == dest.col
  }

  /** The four successors the search generates, in the order it tries them. */
  datatype Direction = North | South | East | West

  const Directions: seq<Direction> := [North, South, East, West]

  /** Position of a direction in Directions. */
  function Index(d: Direction): (i: nat)
    ensures i < |Directions| && Directions[i] == d
  {
    match d
    case North => 0
    case South => 1
    case East => 2
    case West => 3
  }

  /** Two cells one orthogonal step apart. */
  predicate Adjacent(a: Coord, b: Coord)
  {
    (a.row == b.row && (a.col == b.col + 1 || a.col + 1 == b.col)) ||
    (a.col == b.col && (a.row == b.row + 1 || a.row + 1 == b.row))
  }

  /** The successor of `c` in direction `d`: N (i-1, j), S (i+1, j), E (i, j+1), W (i, j-1). */
  function Neighbour(c: Coord, d: Direction): (n: Coord)
    ensures Adjacent(c, n) && n != c
  {
    match d
    case North => Coord(c.row - 1, c.col)
    case South => Coord(c.row + 1, c.col)
    case East => Coord(c.row, c.col + 1)
    case West => Coord(c.row, c.col - 1)
  }

  /** The direction that leads from `a` to an adjacent `b`. */
  function DirectionTo(a: Coord, b: Coord): (d: Direction)
    requires Adjacent(a, b)
    ensures Neighbour(a, d) == b
  {
    if b.row == a.row - 1 then North
    else if b.row == a.row + 1 then South
    else if b.col == a.col + 1 then East
    else West
  }

  /** The open cells of the board: valid cells holding exactly 1. */
  ghost function OpenCells(grid: array2<int>): set<Coord>
    requires GridShape(grid)
    reads grid
  {
    set r, c | 0 <= r < ROW && 0 <= c < COL && grid[r, c] == OPEN :: Coord(r, c)
  }

  lemma OpenCellsAreUnBlocked(grid: array2<int>, x: Coord)
    requires GridShape(grid)
    ensures x in OpenCells(grid) <==> IsValid(x.row, x.col) && IsUnBlocked(grid, x.row, x.col)
  {
    if IsValid(x.row, x.col) && IsUnBlocked(grid, x.row, x.col) {
      assert Coord(x.row, x.col) in OpenCells(grid);
    }
  }

  /** A walk through `open` cells: each one orthogonal step from the next. */
  ghost predicate IsWalk(open: set<Coord>, p: seq<Coord>)
  {
    && |p| > 0
    && (forall k :: 0 <= k < |p| ==> p[k] in open)
    && (forall k :: 0 <= k < |p| - 1 ==> Adjacent(p[k], p[k + 1]))
  }

  ghost predicate IsWalkBetween(open: set<Coord>, p: seq<Coord>, src: Coord, dest: Coord)
  {
    IsWalk(open, p) && p[0] == src && p[|p| - 1] == dest
  }

  /** `dest` can be reached from `src` by orthogonal moves through `open` cells. */
  ghost predicate Reachable(open: set<Coord>, src: Coord, dest: Coord)
  {
    exists p :: IsWalkBetween(open, p, src, dest)
  }

  /**
    A set of cells that no move leaves: every valid successor of a member is
    not `dest`, and is a member itself when it is open.
  */
  ghost predicate ClosedUnderMoves(open: set<Coord>, region: set<Coord>, dest: Coord)
  {
    forall c, d :: c in region && IsValid(Neighbour(c, d).row, Neighbour(c, d).col) ==>
      Neighbour(c, d) != dest && (Neighbour(c, d) in open ==> Neighbour(c, d) in region)
  }

  /** The open cells lie on the board. */
  ghost predicate OnBoard(open: set<Coord>)
  {
    forall x | x in open :: IsValid(x.row, x.col)
  }

  /** A walk that starts inside a region closed under moves stays inside it and never meets `dest`. */
  lemma {:induction false} WalkStaysInRegion(open: set<Coord>, region: set<Coord>, dest: Coord, p: seq<Coord>)
    requires OnBoard(open) && ClosedUnderMoves(open, region, dest)
    requires IsWalk(open, p) && p[0] in region && p[0] != dest
    ensures forall k :: 0 <= k < |p| ==> p[k] in region && p[k] != dest
  {
    if |p| > 1 {
      var d := DirectionTo(p[0], p[1]);
      assert Neighbour(p[0], d) == p[1] && p[1] in open;
      assert IsWalk(open, p[1..]);
      WalkStaysInRegion(open, region, dest, p[1..]);
      forall k | 0 <= k < |p|
        ensures p[k] in region && p[k] != dest
      {
        if k > 0 {
          assert p[k] == p[1..][k - 1];
        }
      }
    }
  }

  /** Hence `dest` is unreachable from any member of such a region. */
  lemma RegionExcludesDest(open: set<Coord>, region: set<Coord>, src: Coord, dest: Coord)
    requires OnBoard(open) && ClosedUnderMoves(open, region, dest)
    requires src in region && src != dest
    ensures !Reachable(open, src, dest)
  {
    forall p | IsWalkBetween(open, p, src, dest)
      ensures false
    {
      WalkStaysInRegion(open, region, dest, p);
    }
  }
}
