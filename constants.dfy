/**
 * Value types shared by the snake game: board positions and headings
 * (constants.py).
 */
module Constants {

  /** A position on the board, in pixels. */
  datatype Point = Point(x: int, y: int)

  /**
   * The right-hand side of `Point.__eq__`: Python lets a Point be compared
   * with any object, so the operand is either a Point or something else.
   */
  datatype Object = PointObject(point: Point) | OtherObject

  /**
   * `Point.__eq__`: an object that is not a Point is never equal; two Points
   * are equal when their x values agree and their y values agree. The
   * contract says this is exactly value equality of the two points.
   */
  function PointEquals(p: Point, obj: Object): (r: bool)
    ensures r <==> obj == PointObject(p)
    ensures r ==> obj.PointObject?
  {
    match obj
    case OtherObject => false
    case PointObject(q) => p.x == q.x && p.y == q.y
  }

  /** `Point.__eq__` is reflexive, symmetric and transitive. */
  lemma PointEqualsIsEquivalence(a: Point, b: Point, c: Point)
    ensures PointEquals(a, PointObject(a))
    ensures PointEquals(a, PointObject(b)) <==> PointEquals(b, PointObject(a))
    ensures PointEquals(a, PointObject(b)) && PointEquals(b, PointObject(c)) ==> PointEquals(a, PointObject(c))
  {
  }

  /**
   * Python's `p in points` for a list of Points: some element compares equal
   * to `p` under `Point.__eq__`, scanning from the front.
   */
  function Contains(points: seq<Point>, p: Point): bool
  {
    if points == [] then false
    else PointEquals(points[0], PointObject(p)) || Contains(points[1..], p)
  }

  /** The list scan that `in` performs agrees with Dafny's sequence membership. */
  lemma {:induction false} ContainsIsMembership(points: seq<Point>, p: Point)
    ensures Contains(points, p) <==> p in points
  {
    if points != [] {
      ContainsIsMembership(points[1..], p);
      assert points == [points[0]] + points[1..];
    }
  }

  /** The `Direction` enum: RIGHT = 1, LEFT = 2, UP = 3, DOWN = 4. */
  datatype Direction = Right | Left | Up | Down
  {
    /** The enum member's value. */
    function Value(): (v: int)
      ensures 1 <= v <= 4
    {
      match this
      case Right => 1
      case Left => 2
      case Up => 3
      case Down => 4
    }
  }

  /** The members of `Direction`, in declaration order. */
  const Directions: seq<Direction> := [Right, Left, Up, Down]

  /** Every direction is one of the four members, and the four are pairwise distinct. */
  lemma DirectionHasFourMembers(d: Direction)
    ensures d in Directions && |Directions| == 4
    ensures forall i, j :: 0 <= i < j < |Directions| ==> Directions[i] != Directions[j]
    ensures forall e: Direction :: e.Value() == d.Value() ==> e == d
  {
  }
}
