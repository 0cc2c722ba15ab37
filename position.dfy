/**
  Grid coordinates and compass directions. `x` grows eastwards and `y` grows
  southwards, so NORTH is one row up.
*/
module Positions {

  datatype Direction = North | South | East | West
  {
    function Opposite(): (d: Direction)
      ensures d != this
    {
      match this
      case North => South
      case South => North
      case East => West
      case West => East
    }
  }

  lemma OppositeInvolution(d: Direction)
    ensures d.Opposite().Opposite() == d
  {
  }

  function Abs(n: int): (r: nat)
    ensures r == n || r == -n
  {
    if n < 0 then -n else n
  }

  /** A cell of the grid; equality is equality of both coordinates. */
  datatype Position = Position(x: int, y: int)
  {
    /** `setX`: a position with a new x and the same y. */
    function WithX(newX: int): (p: Position)
      ensures p.x == newX && p.y == y
    {
      Position(newX, y)
    }

    /** `setY`: a position with a new y and the same x. */
    function WithY(newY: int): (p: Position)
      ensures p.x == x && p.y == newY
    {
      Position(x, newY)
    }

    /** The neighbouring cell one step in direction `d`. */
    function Adjacent(d: Direction): (p: Position)
      ensures d == North ==> p == Position(x, y - 1)
      ensures d == South ==> p == Position(x, y + 1)
      ensures d == East ==> p == Position(x + 1, y)
      ensures d == West ==> p == Position(x - 1, y)
    {
      match d
      case North => WithY(y - 1)
      case South => WithY(y + 1)
      case East => WithX(x + 1)
      case West => WithX(x - 1)
    }

    /** Manhattan distance. */
    function DistanceTo(other: Position): (r: nat)
      ensures r == 0 <==> this == other
      ensures r >= Abs(x - other.x) && r >= Abs(y - other.y)
    {
      Abs(x - other.x) + Abs(y - other.y)
    }

    /** `equals`: both coordinates match. */
    predicate Equals(other: Position)
    {
      x == other.x && y == other.y
    }
  }

  /** The copy constructor: a position with the same coordinates. */
  function Copy(p: Position): (q: Position)
    ensures q.Equals(p) && q == p
  {
    Position(p.x, p.y)
  }

  lemma EqualsIsEquality(p: Position, q: Position)
    ensures p.Equals(q) <==> p == q
  {
  }

  lemma DistanceSymmetric(p: Position, q: Position)
    ensures p.DistanceTo(q) == q.DistanceTo(p)
  {
  }

  lemma DistanceTriangle(p: Position, q: Position, r: Position)
    ensures p.DistanceTo(r) <= p.DistanceTo(q) + q.DistanceTo(r)
  {
  }

  /** Every step reaches a cell at distance exactly one, and stepping back returns. */
  lemma AdjacentIsOneStep(p: Position, d: Direction)
    ensures p.DistanceTo(p.Adjacent(d)) == 1
    ensures p.Adjacent(d).Adjacent(d.Opposite()) == p
    ensures p.Adjacent(d) != p
  {
  }

  /** The four neighbours of a cell are pairwise distinct. */
  lemma AdjacentInjective(p: Position, d: Direction, e: Direction)
    ensures p.Adjacent(d) == p.Adjacent(e) <==> d == e
  {
  }

  /** Conversely, every cell at distance one is a neighbour in some direction. */
  lemma DistanceOneIsAdjacent(p: Position, q: Position)
    requires p.DistanceTo(q) == 1
    ensures exists d: Direction :: p.Adjacent(d) == q
  {
    if q.x == p.x + 1 {
      assert p.Adjacent(East) == q;
    } else if q.x == p.x - 1 {
      assert p.Adjacent(West) == q;
    } else if q.y == p.y + 1 {
      assert p.Adjacent(South) == q;
    } else {
      assert p.Adjacent(North) == q;
    }
  }
}
