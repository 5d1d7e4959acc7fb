/**
 * The `Circle` value of Bubbles/Circle.cs: a centre and a radius in the unit
 * image square (single-precision floats, modelled as reals) plus the `color`
 * provenance tag that the renderer uses. Also the helpers that the other files
 * call on circles: the squared 3-D distance `Dist`, the offset `Add`, the
 * minimum-distance scan and the in-unit-square random constructor.
 */
module Geometry {

  datatype Circle = Circle(x: real, y: real, radius: real, color: int)

  /** A `Vector2`: an image-space point or direction. */
  datatype Point = Point(x: real, y: real)

  /** A `Vector3` offset applied to `(x, y, radius)`. */
  datatype Offset = Offset(dx: real, dy: real, dr: real)

  /** `float.MaxValue`, the start value of the running minima. */
  const FloatMax: real := 340282346638528859811704183484516925440.0

  function Sqr(v: real): (r: real)
    ensures r >= 0.0
  {
    v * v
  }

  function Abs(v: real): real
  {
    if v < 0.0 then -v else v
  }

  /**
   * Squared distance of two circles seen as 3-D points `(x, y, radius)`; the
   * source's `MinDistToOtherCircles` sums exactly these three squares and
   * `CirclePruning.AcceptablePair` compares `Dist` with squared thresholds.
   */
  function Dist(a: Circle, b: Circle): (d: real)
    ensures d >= 0.0
  {
    Sqr(b.x - a.x) + Sqr(b.y - a.y) + Sqr(b.radius - a.radius)
  }

  /** `Vector2.DistanceSquared`. */
  function DistanceSquared(p: Point, q: Point): (d: real)
    ensures d >= 0.0
    ensures p == q ==> d == 0.0
  {
    Sqr(p.x - q.x) + Sqr(p.y - q.y)
  }

  /** `Circle.Add(Vector3)`: the circle moved by an offset, tag kept. */
  function Add(c: Circle, o: Offset): (r: Circle)
    ensures r.x - c.x == o.dx && r.y - c.y == o.dy && r.radius - c.radius == o.dr
    ensures r.color == c.color
  {
    c.(x := c.x + o.dx, y := c.y + o.dy, radius := c.radius + o.dr)
  }

  /**
   * The value under the square root in `MinDistToOtherCircles`: the running
   * minimum of the squared 3-D distances, started at `float.MaxValue` and
   * replaced only by a strictly smaller distance.
   */
  function MinSqDist(c: Circle, others: seq<Circle>): real
  {
    if others == [] then FloatMax
    else
      var rest := MinSqDist(c, others[..|others| - 1]);
      var d := Dist(c, others[|others| - 1]);
      if d < rest then d else rest
  }

  /** `MinDistToOtherCircles`: the loop keeps the running minimum, then takes the root. */
  method MinDistToOtherCircles(c: Circle, others: seq<Circle>, sqrt: real -> real) returns (d: real)
    ensures d == sqrt(MinSqDist(c, others))
    ensures others == [] ==> d == sqrt(FloatMax)
  {
    var minDist := FloatMax;
    var i := 0;
    while i < |others|
      invariant 0 <= i <= |others|
      invariant minDist == MinSqDist(c, others[..i])
    {
      var o := others[i];
      var dist := Dist(c, o);
      if dist < minDist {
        minDist := dist;
      }
      assert others[..i + 1][..i] == others[..i];
      i := i + 1;
    }
    assert others[..i] == others;
    d := sqrt(minDist);
  }

  /** The minimum is a lower bound of every listed distance and of `float.MaxValue`. */
  lemma {:induction false} MinSqDistIsLowerBound(c: Circle, others: seq<Circle>)
    ensures MinSqDist(c, others) <= FloatMax
    ensures forall k :: 0 <= k < |others| ==> MinSqDist(c, others) <= Dist(c, others[k])
  {
    if others != [] {
      var init := others[..|others| - 1];
      MinSqDistIsLowerBound(c, init);
      assert forall k :: 0 <= k < |init| ==> others[k] == init[k];
    }
  }

  /**
   * The minimum is attained: it is `float.MaxValue` only when no listed circle
   * is nearer than that, and otherwise the distance to some listed circle.
   */
  lemma {:induction false} MinSqDistIsAttained(c: Circle, others: seq<Circle>)
    ensures MinSqDist(c, others) == FloatMax || exists k :: 0 <= k < |others| && MinSqDist(c, others) == Dist(c, others[k])
    ensures (exists k :: 0 <= k < |others| && Dist(c, others[k]) < FloatMax) ==> MinSqDist(c, others) < FloatMax
  {
    if others != [] {
      var n := |others| - 1;
      var init := others[..n];
      MinSqDistIsAttained(c, init);
      MinSqDistIsLowerBound(c, init);
      assert forall k :: 0 <= k < n ==> others[k] == init[k];
      if Dist(c, others[n]) >= MinSqDist(c, init) && MinSqDist(c, init) != FloatMax {
        var k :| 0 <= k < n && MinSqDist(c, init) == Dist(c, init[k]);
        assert MinSqDist(c, others) == Dist(c, others[k]);
      }
    }
  }

  /**
   * `Circle.Random()` over three uniform draws `u0, u1, u2` in [0, 1):
   * radius in [0, 0.15) and a centre that keeps the whole circle inside the
   * unit square.
   */
  function RandomCircle(u0: real, u1: real, u2: real): (c: Circle)
    requires 0.0 <= u0 < 1.0 && 0.0 <= u1 < 1.0 && 0.0 <= u2 < 1.0
    ensures 0.0 <= c.radius < 0.15
    ensures c.radius <= c.x < 1.0 - c.radius && c.radius <= c.y < 1.0 - c.radius
    ensures 0.0 <= c.x - c.radius && c.x + c.radius < 1.0
    ensures 0.0 <= c.y - c.radius && c.y + c.radius < 1.0
  {
    var r := u0 * 0.15;
    RandomCoordInRange(r, u1);
    RandomCoordInRange(r, u2);
    Circle(r + u1 * (1.0 - 2.0 * r), r + u2 * (1.0 - 2.0 * r), r, 0)
  }

  /** `r + u * (1 - 2r)` stays in `[r, 1 - r)` for a radius below one half. */
  lemma RandomCoordInRange(r: real, u: real)
    requires 0.0 <= r < 0.5 && 0.0 <= u < 1.0
    ensures r <= r + u * (1.0 - 2.0 * r) < 1.0 - r
  {
    var span := 1.0 - 2.0 * r;
    ScaleBelow(u, span);
    calc {
      r + u * (1.0 - 2.0 * r);
      == r + u * span;
      < r + span;
      == 1.0 - r;
    }
  }

  lemma ScaleBelow(u: real, s: real)
    requires 0.0 <= u < 1.0 && s > 0.0
    ensures 0.0 <= u * s < s
  {
    assert s - u * s == (1.0 - u) * s;
  }
}
