/** Rectangular bounds of a planar surface.

    A rectangle centred on the local origin is described by a bound-value
    vector [halfX, halfY] of half-lengths along the two local axes. The
    constructors and assignment write that vector in place; equality against
    another surface's bounds first checks that they are rectangle bounds at
    all; `MinDistance` is the signed distance from a local point to the
    rectangle's edge, negative inside.

    Values are real numbers, not doubles. The square root of the C library
    is passed in as a parameter; the lemmas require it to return the
    non-negative root of the one value they use it on.
 */
module Surfaces {

  /** Positions in the bound-value vector, and its length. */
  const BV_HALF_X: nat := 0
  const BV_HALF_Y: nat := 1
  const BV_LENGTH: nat := 2

  /** A local 2D position on the surface: pos[0], pos[1]. */
  datatype Vector2D = Vector2D(x: real, y: real)

  /** Surface bounds as `operator==` sees its argument: rectangle bounds, or
      the bounds of some other shape (which may hold the same numbers). */
  datatype SurfaceBounds =
    | RectangleBoundsValue(values: seq<real>)
    | OtherBounds(values: seq<real>)

  function Abs(v: real): (a: real)
    ensures a >= 0.0 && (a == v || a == -v)
  {
    if v < 0.0 then -v else v
  }

  /** dx² + dy², the squared distance from the origin to (dx, dy). */
  function SumOfSquares(dx: real, dy: real): real
  {
    dx * dx + dy * dy
  }

  /** `root` is the non-negative square root of `v`. */
  predicate IsSquareRoot(root: real, v: real)
  {
    root >= 0.0 && root * root == v
  }

  class RectangleBounds {
    var boundValues: seq<real>

    ghost predicate Valid()
      reads this
    {
      |boundValues| == BV_LENGTH
    }

    function HalfX(): real
      reads this
      requires Valid()
    {
      boundValues[BV_HALF_X]
    }

    function HalfY(): real
      reads this
      requires Valid()
    {
      boundValues[BV_HALF_Y]
    }

    /** A degenerate rectangle: every bound value is zero. */
    constructor Default()
      ensures Valid()
      ensures forall i :: 0 <= i < |boundValues| ==> boundValues[i] == 0.0
    {
      boundValues := seq(BV_LENGTH, _ => 0.0);
    }

    /** Half-lengths `halex` and `haley`; every other bound value is zero. */
    constructor (halex: real, haley: real)
      ensures Valid()
      ensures boundValues[BV_HALF_X] == halex && boundValues[BV_HALF_Y] == haley
      ensures forall i :: 0 <= i < |boundValues| && i != BV_HALF_X && i != BV_HALF_Y ==> boundValues[i] == 0.0
    {
      boundValues := seq(BV_LENGTH, _ => 0.0);
      new;
      boundValues := boundValues[BV_HALF_X := halex];
      boundValues := boundValues[BV_HALF_Y := haley];
    }

    /** A copy holds the same bound values as the original. */
    constructor Copy(recbo: RectangleBounds)
      requires recbo.Valid()
      ensures Valid()
      ensures boundValues == recbo.boundValues
    {
      boundValues := recbo.boundValues;
    }

    /** Assignment: takes over the bound values of `recbo`; assigning an
        object to itself changes nothing. Returns this object. */
    method Assign(recbo: RectangleBounds) returns (self: RectangleBounds)
      requires Valid() && recbo.Valid()
      modifies this
      ensures self == this && Valid()
      ensures boundValues == old(recbo.boundValues)
      ensures recbo == this ==> boundValues == old(boundValues)
      ensures recbo != this ==> unchanged(recbo)
    {
      if this != recbo {
        boundValues := recbo.boundValues;
      }
      self := this;
    }

    /** These bounds as an argument of `Equals`. */
    function AsSurfaceBounds(): SurfaceBounds
      reads this
    {
      RectangleBoundsValue(boundValues)
    }

    /** Equality against any surface bounds: false unless they are rectangle
        bounds; for rectangle bounds, true iff the bound-value vectors have
        the same length and agree entry by entry. */
    function Equals(sbo: SurfaceBounds): (eq: bool)
      reads this
      ensures sbo.OtherBounds? ==> !eq
      ensures sbo.RectangleBoundsValue? ==>
                (eq <==> |sbo.values| == |boundValues| &&
                         forall i :: 0 <= i < |boundValues| ==> sbo.values[i] == boundValues[i])
    {
      match sbo
      case RectangleBoundsValue(values) => boundValues == values
      case OtherBounds(_) => false
    }

    /** The excess of |x| over the half-length in x: negative inside. */
    function DX(pos: Vector2D): real
      reads this
      requires Valid()
    {
      Abs(pos.x) - HalfX()
    }

    /** The excess of |y| over the half-length in y: negative inside. */
    function DY(pos: Vector2D): real
      reads this
      requires Valid()
    {
      Abs(pos.y) - HalfY()
    }

    /** The point lies in the closed rectangle. */
    predicate Contains(pos: Vector2D)
      reads this
      requires Valid()
    {
      Abs(pos.x) <= HalfX() && Abs(pos.y) <= HalfY()
    }

    /** Signed distance from `pos` to the rectangle. Where the point is level
        with the rectangle in x or in y (or inside it) it is the larger of the
        two excesses, which is the distance to the nearest edge; beyond a
        corner it is the Euclidean distance to that corner. */
    function MinDistance(pos: Vector2D, sqrt: real -> real): (d: real)
      reads this
      requires Valid()
      ensures DX(pos) <= 0.0 || DY(pos) <= 0.0 ==>
                d >= DX(pos) && d >= DY(pos) && (d == DX(pos) || d == DY(pos))
      ensures Contains(pos) ==> d <= 0.0
    {
      var dx := DX(pos);
      var dy := DY(pos);
      if dx <= 0.0 || dy <= 0.0 then
        if dx > dy then dx else dy
      else
        sqrt(SumOfSquares(dx, dy))
    }
  }

  // -----------------------------------------------------------------------
  // Properties of equality
  // -----------------------------------------------------------------------

  /** Rectangle bounds never equal the bounds of another shape, even with
      the same bound values. */
  lemma NotEqualToOtherShape(a: RectangleBounds)
    ensures !a.Equals(OtherBounds(a.boundValues))
  {
  }

  /** Among rectangle bounds, equality is reflexive and symmetric, and holds
      exactly when the bound-value vectors are equal. */
  lemma RectangleEquality(a: RectangleBounds, b: RectangleBounds)
    ensures a.Equals(a.AsSurfaceBounds())
    ensures a.Equals(b.AsSurfaceBounds()) == b.Equals(a.AsSurfaceBounds())
    ensures a.Equals(b.AsSurfaceBounds()) <==> a.boundValues == b.boundValues
  {
  }

  // -----------------------------------------------------------------------
  // Properties of the distance
  // -----------------------------------------------------------------------

  /** Between non-negative numbers, squaring keeps the order. */
  lemma SquareMonotone(a: real, b: real)
    requires a >= 0.0 && b > 0.0 && a * a >= b * b
    ensures a >= b
  {
    assert (a - b) * (a + b) == a * a - b * b;
    assert a + b > 0.0;
  }

  /** The root of dx² + dy² is no smaller than either of two positive
      excesses, hence positive. */
  lemma RootDominates(dx: real, dy: real, root: real)
    requires dx > 0.0 && dy > 0.0
    requires IsSquareRoot(root, SumOfSquares(dx, dy))
    ensures root >= dx && root >= dy && root > 0.0
  {
    assert dy * dy > 0.0 && dx * dx > 0.0;
    SquareMonotone(root, dx);
    SquareMonotone(root, dy);
  }

  /** Beyond a corner, where the point exceeds both half-lengths, the
      distance is the square root of dx² + dy², the Euclidean distance to
      the corner. */
  lemma CornerBranch(b: RectangleBounds, pos: Vector2D, sqrt: real -> real)
    requires b.Valid()
    requires b.DX(pos) > 0.0 && b.DY(pos) > 0.0
    ensures b.MinDistance(pos, sqrt) == sqrt(SumOfSquares(b.DX(pos), b.DY(pos)))
  {
  }

  /** Beyond a corner, with a correct square root, the distance squares to
      dx² + dy², is no smaller than either excess, and is positive. */
  lemma CornerDistance(b: RectangleBounds, pos: Vector2D, sqrt: real -> real)
    requires b.Valid()
    requires b.DX(pos) > 0.0 && b.DY(pos) > 0.0
    requires IsSquareRoot(sqrt(SumOfSquares(b.DX(pos), b.DY(pos))),
                          SumOfSquares(b.DX(pos), b.DY(pos)))
    ensures var d := b.MinDistance(pos, sqrt);
            d * d == SumOfSquares(b.DX(pos), b.DY(pos)) &&
            d >= b.DX(pos) && d >= b.DY(pos) && d > 0.0
  {
    CornerBranch(b, pos, sqrt);
    RootDominates(b.DX(pos), b.DY(pos), sqrt(SumOfSquares(b.DX(pos), b.DY(pos))));
  }

  /** The distance is non-positive exactly for points of the closed
      rectangle and positive for every point outside it. */
  lemma InsideIffNonPositive(b: RectangleBounds, pos: Vector2D, sqrt: real -> real)
    requires b.Valid()
    requires var dx, dy := b.DX(pos), b.DY(pos);
             dx > 0.0 && dy > 0.0 ==> IsSquareRoot(sqrt(SumOfSquares(dx, dy)), SumOfSquares(dx, dy))
    ensures b.MinDistance(pos, sqrt) <= 0.0 <==> b.Contains(pos)
    ensures !b.Contains(pos) ==> b.MinDistance(pos, sqrt) > 0.0
  {
    var dx, dy := b.DX(pos), b.DY(pos);
    if dx > 0.0 && dy > 0.0 {
      CornerDistance(b, pos, sqrt);
    }
  }

  /** Only |x| and |y| enter the distance: mirroring the point in either
      axis does not change it. */
  lemma MirrorSymmetric(b: RectangleBounds, pos: Vector2D, sqrt: real -> real)
    requires b.Valid()
    ensures b.MinDistance(Vector2D(-pos.x, pos.y), sqrt) == b.MinDistance(pos, sqrt)
    ensures b.MinDistance(Vector2D(pos.x, -pos.y), sqrt) == b.MinDistance(pos, sqrt)
  {
    assert b.DX(Vector2D(-pos.x, pos.y)) == b.DX(pos);
    assert b.DY(Vector2D(pos.x, -pos.y)) == b.DY(pos);
  }
}
