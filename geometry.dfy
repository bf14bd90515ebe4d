// Grid geometry shared by the pathfinder, the explorer and the training server:
// compass directions with their unit deltas, and integer grid positions.

module Geometry {

  /** The four compass directions a crawler can face. */
  datatype Direction = North | East | South | West

  /** Horizontal component of a one-cell step; East grows x. */
  function DeltaX(d: Direction): int
  {
    match d
    case East => 1
    case West => -1
    case _ => 0
  }

  /** Vertical component of a one-cell step; North shrinks y (screen coordinates). */
  function DeltaY(d: Direction): int
  {
    match d
    case North => -1
    case South => 1
    case _ => 0
  }

  /** A quarter turn clockwise. */
  function TurnRight(d: Direction): (r: Direction)
    ensures r != d
  {
    match d
    case North => East
    case East => South
    case South => West
    case West => North
  }

  /** A quarter turn counter-clockwise. */
  function TurnLeft(d: Direction): (r: Direction)
    ensures TurnRight(r) == d
  {
    match d
    case North => West
    case East => North
    case South => East
    case West => South
  }

  /** The direction pointing the other way. */
  function Opposite(d: Direction): Direction
  {
    TurnRight(TurnRight(d))
  }

  /** A cell of a grid; equality is structural on the two coordinates. */
  datatype Position = Position(x: int, y: int)

  function Abs(n: int): (r: nat)
    ensures r == n || r == -n
  {
    if n < 0 then -n else n
  }

  /** The cell one step away in direction `d`. */
  function Move(p: Position, d: Direction): (r: Position)
    ensures r != p
  {
    Position(p.x + DeltaX(d), p.y + DeltaY(d))
  }

  /** One step in any direction covers a Manhattan distance of exactly one. */
  lemma MoveUnitStep(p: Position, d: Direction)
    ensures ManhattanDistance(p, Move(p, d)) == 1
  {
  }

  /** Number of unit steps between two cells when moving only along the axes. */
  function ManhattanDistance(a: Position, b: Position): (r: nat)
    ensures r == 0 <==> a == b
  {
    Abs(a.x - b.x) + Abs(a.y - b.y)
  }

  /** The four directions in the order every search enumerates them. */
  function AllDirections(): (r: seq<Direction>)
    ensures |r| == 4
    ensures forall i, j :: 0 <= i < j < |r| ==> r[i] != r[j]
  {
    [North, East, South, West]
  }

  /** Every direction is enumerated. */
  lemma AllDirectionsComplete(d: Direction)
    ensures d in AllDirections()
  {
    match d
    case North => assert AllDirections()[0] == d;
    case East => assert AllDirections()[1] == d;
    case South => assert AllDirections()[2] == d;
    case West => assert AllDirections()[3] == d;
  }

  /** The four 4-connected neighbours of `p`, in North, East, South, West order. */
  function Neighbors(p: Position): (r: seq<Position>)
    ensures |r| == |AllDirections()|
    ensures forall i :: 0 <= i < |r| ==> r[i] == Move(p, AllDirections()[i])
  {
    [Move(p, North), Move(p, East), Move(p, South), Move(p, West)]
  }

  /** Stepping forward and then back returns to the starting cell. */
  lemma MoveOpposite(p: Position, d: Direction)
    ensures Move(Move(p, d), Opposite(d)) == p
  {
    match d
    case North =>
    case East =>
    case South =>
    case West =>
  }

  /** Moving North lowers y by one, East raises x by one, and so on. */
  lemma MoveDeltas(p: Position)
    ensures Move(p, North) == Position(p.x, p.y - 1)
    ensures Move(p, East) == Position(p.x + 1, p.y)
    ensures Move(p, South) == Position(p.x, p.y + 1)
    ensures Move(p, West) == Position(p.x - 1, p.y)
  {
  }

  /** Two different directions lead to two different cells. */
  lemma MoveInjective(p: Position, d: Direction, e: Direction)
    ensures Move(p, d) == Move(p, e) ==> d == e
  {
  }

  lemma ManhattanSymmetric(a: Position, b: Position)
    ensures ManhattanDistance(a, b) == ManhattanDistance(b, a)
  {
  }

  lemma ManhattanTriangle(a: Position, b: Position, c: Position)
    ensures ManhattanDistance(a, c) <= ManhattanDistance(a, b) + ManhattanDistance(b, c)
  {
  }

  /** The neighbours of `p` are exactly the cells at Manhattan distance 1. */
  lemma NeighborsAtDistanceOne(p: Position, q: Position)
    ensures q in Neighbors(p) <==> ManhattanDistance(p, q) == 1
  {
    MoveUnitStep(p, North);
    MoveUnitStep(p, East);
    MoveUnitStep(p, South);
    MoveUnitStep(p, West);
    if ManhattanDistance(p, q) == 1 {
      if q.x == p.x + 1 {
        assert q == Neighbors(p)[1];
      } else if q.x == p.x - 1 {
        assert q == Neighbors(p)[3];
      } else if q.y == p.y - 1 {
        assert q == Neighbors(p)[0];
      } else {
        assert q == Neighbors(p)[2];
      }
    }
  }

  /** Adjacency is symmetric. */
  lemma NeighborsSymmetric(p: Position, q: Position)
    ensures q in Neighbors(p) <==> p in Neighbors(q)
  {
    NeighborsAtDistanceOne(p, q);
    NeighborsAtDistanceOne(q, p);
    ManhattanSymmetric(p, q);
  }

  /** The four neighbours are pairwise distinct. */
  lemma NeighborsDistinct(p: Position)
    ensures forall i, j :: 0 <= i < j < |Neighbors(p)| ==> Neighbors(p)[i] != Neighbors(p)[j]
  {
  }
}
