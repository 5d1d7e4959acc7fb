/**
 * Bubbles/CirclePruning.cs: greedy selection of a non-interfering subset of
 * candidate circles. Candidates are visited best first; a candidate is
 * accepted unless one of its intersection points with the accepted circles
 * crowds an existing intersection point or it meets an accepted circle of
 * nearly the same radius, and every acceptance removes the remaining
 * candidates that are too similar to the accepted one.
 *
 * `Vector2.Normalize` and the intersection routine `Circle.AddIntersections`
 * are parameters; the random rating noise is a sequence of draws in [0, 1).
 */
module CirclePruning {
  import opened Common
  import opened Geometry

  const MinDistance3d: real := 0.02
  const MaxDistanceEquality: real := 0.0012
  const MinDistanceIntersection: real := 0.005
  const MinDistanceSegments: real := 0.005
  const MinCircleRadius: real := 0.005
  const MaxCircleRadius: real := 0.1
  const MinRating: real := 4.0
  const NumSizeBuckets: int := 10
  const BucketWeight: real := 5.0

  /** The ratio under which two intersecting circles count as the same size. */
  const SameSizeRatio: real := 1.05

  function MinReal(a: real, b: real): (m: real)
    ensures m <= a && m <= b && (m == a || m == b)
  {
    if a < b then a else b
  }

  /* ---------------------------------------------------------------------- */
  /* AcceptablePair                                                          */
  /* ---------------------------------------------------------------------- */

  /** The centres and radii are too close in 3-D, or closer than the smaller radius. */
  predicate TooClose3d(a: Circle, b: Circle)
  {
    Dist(a, b) < MinDistance3d * MinDistance3d
    || Dist(a, b) < MinReal(a.radius, b.radius) * MinReal(a.radius, b.radius)
  }

  /** A squared distance that is short but not short enough to mean "the same point". */
  predicate InterferingSquaredDistance(d: real, limit: real)
  {
    d < limit * limit && d > MaxDistanceEquality * MaxDistanceEquality
  }

  function Scale(p: Point, k: real): Point
  {
    Point(p.x * k, p.y * k)
  }

  function Plus(p: Point, q: Point): Point
  {
    Point(p.x + q.x, p.y + q.y)
  }

  function Minus(p: Point, q: Point): Point
  {
    Point(p.x - q.x, p.y - q.y)
  }

  /**
   * The squared distances between the ends of the two diameters along the line
   * of centres: `(a0, b0), (a0, b1), (a1, b0), (a1, b1)`.
   */
  function EndpointDistances(a: Circle, b: Circle, normalize: Point -> Point): (ds: seq<real>)
    ensures |ds| == 4
  {
    var rad := normalize(Point(a.x - b.x, a.y - b.y));
    var a0 := Plus(Point(a.x, a.y), Scale(rad, a.radius));
    var a1 := Minus(Point(a.x, a.y), Scale(rad, a.radius));
    var b0 := Plus(Point(b.x, b.y), Scale(rad, b.radius));
    var b1 := Minus(Point(b.x, b.y), Scale(rad, b.radius));
    [DistanceSquared(a0, b0), DistanceSquared(a0, b1), DistanceSquared(a1, b0), DistanceSquared(a1, b1)]
  }

  /** The `foreach` over the endpoint pairs: true unless one of them interferes. */
  function NoneInterfering(ds: seq<real>, limit: real): bool
  {
    if ds == [] then true
    else if InterferingSquaredDistance(ds[0], limit) then false
    else NoneInterfering(ds[1..], limit)
  }

  /** The early-returning scan finds an interfering distance exactly when there is one. */
  lemma {:induction false} NoneInterferingIff(ds: seq<real>, limit: real)
    ensures NoneInterfering(ds, limit) <==> forall k :: 0 <= k < |ds| ==> !InterferingSquaredDistance(ds[k], limit)
  {
    if ds != [] {
      NoneInterferingIff(ds[1..], limit);
      assert forall k :: 1 <= k < |ds| ==> ds[k] == ds[1..][k - 1];
    }
  }

  /** `AcceptablePair`: the 3-D distance test, then the endpoint scan. */
  function AcceptablePair(a: Circle, b: Circle, normalize: Point -> Point): bool
  {
    var distance3D := Dist(a, b);
    var minDistanceByRadius := MinReal(a.radius, b.radius);
    if distance3D < MinDistance3d * MinDistance3d || distance3D < minDistanceByRadius * minDistanceByRadius then false
    else NoneInterfering(EndpointDistances(a, b, normalize), MinDistanceSegments)
  }

  /**
   * `AcceptablePair` is false when the circles are too close in 3-D, false
   * when any endpoint pair lies strictly inside the band between the equality
   * distance and the segment distance, and true otherwise.
   */
  lemma AcceptablePairIff(a: Circle, b: Circle, normalize: Point -> Point)
    ensures AcceptablePair(a, b, normalize) <==> (!TooClose3d(a, b)
      && forall k :: 0 <= k < 4 ==> !InterferingSquaredDistance(EndpointDistances(a, b, normalize)[k], MinDistanceSegments))
  {
    NoneInterferingIff(EndpointDistances(a, b, normalize), MinDistanceSegments);
  }

  /** The colour tag plays no part in the pair test: only centres and radii matter. */
  lemma AcceptablePairIgnoresColor(a: Circle, b: Circle, a2: Circle, b2: Circle, normalize: Point -> Point)
    requires a2.x == a.x && a2.y == a.y && a2.radius == a.radius
    requires b2.x == b.x && b2.y == b.y && b2.radius == b.radius
    ensures AcceptablePair(a2, b2, normalize) == AcceptablePair(a, b, normalize)
  {
    assert Dist(a2, b2) == Dist(a, b);
    assert EndpointDistances(a2, b2, normalize) == EndpointDistances(a, b, normalize);
  }

  /* ---------------------------------------------------------------------- */
  /* CheckAndUpdateIntersections                                             */
  /* ---------------------------------------------------------------------- */

  ghost predicate PositiveRadii(circles: seq<Circle>)
  {
    forall i :: 0 <= i < |circles| ==> circles[i].radius > 0.0
  }

  /** The larger over the smaller radius, as `radiusdist` is formed. */
  function RadiusRatio(other: Circle, candidate: Circle): (r: real)
    requires other.radius > 0.0 && candidate.radius > 0.0
    ensures r >= 1.0
  {
    var q := other.radius / candidate.radius;
    if q < 1.0 then
      assert q > 0.0;
      1.0 / q
    else q
  }

  /** The points `AddIntersections` appends for every circle, in circle order. */
  function IntersectionsFor(circles: seq<Circle>, candidate: Circle, intersect: (Circle, Circle) -> seq<Point>): seq<Point>
  {
    if circles == [] then []
    else
      var n := |circles| - 1;
      IntersectionsFor(circles[..n], candidate, intersect) + intersect(candidate, circles[n])
  }

  /** One of `news` lies in the interference band of one of `olds`. */
  predicate AnyInterfering(news: seq<Point>, olds: seq<Point>)
  {
    exists i, j :: 0 <= i < |news| && 0 <= j < |olds|
      && InterferingSquaredDistance(DistanceSquared(news[i], olds[j]), MinDistanceIntersection)
  }

  /**
   * An accepted circle rules the candidate out: they intersect, and either
   * their radii are within 5% of each other or a new intersection point
   * crowds an old one.
   */
  ghost predicate RejectedBy(olds: seq<Point>, other: Circle, candidate: Circle, intersect: (Circle, Circle) -> seq<Point>)
    requires other.radius > 0.0 && candidate.radius > 0.0
  {
    var pts := intersect(candidate, other);
    |pts| > 0 && (RadiusRatio(other, candidate) < SameSizeRatio || AnyInterfering(pts, olds))
  }

  ghost predicate AcceptsCandidate(olds: seq<Point>, circles: seq<Circle>, candidate: Circle,
                                   intersect: (Circle, Circle) -> seq<Point>)
    requires PositiveRadii(circles) && candidate.radius > 0.0
  {
    forall k :: 0 <= k < |circles| ==> !RejectedBy(olds, circles[k], candidate, intersect)
  }

  /**
   * `CheckAndUpdateIntersections`: the candidate passes when no accepted
   * circle rejects it, and only then are its new intersection points appended
   * after the old ones; a rejected candidate leaves the points unchanged.
   * Each new point is compared with the points from before the call only.
   */
  method CheckAndUpdateIntersections(currentIntersections: seq<Point>, currentCircles: seq<Circle>, candidateCircle: Circle,
                                     intersect: (Circle, Circle) -> seq<Point>)
      returns (ok: bool, updated: seq<Point>)
    requires PositiveRadii(currentCircles) && candidateCircle.radius > 0.0
    ensures ok == AcceptsCandidate(currentIntersections, currentCircles, candidateCircle, intersect)
    ensures ok ==> updated == currentIntersections + IntersectionsFor(currentCircles, candidateCircle, intersect)
    ensures !ok ==> updated == currentIntersections
  {
    var newIntersections: seq<Point> := [];
    var c := 0;
    while c < |currentCircles|
      invariant 0 <= c <= |currentCircles|
      invariant newIntersections == IntersectionsFor(currentCircles[..c], candidateCircle, intersect)
      invariant forall k :: 0 <= k < c ==> !RejectedBy(currentIntersections, currentCircles[k], candidateCircle, intersect)
    {
      var other := currentCircles[c];
      var added := intersect(candidateCircle, other);
      assert currentCircles[..c + 1][..c] == currentCircles[..c];
      newIntersections := newIntersections + added;
      var numIntersections := |added|;
      if numIntersections > 0 {
        var radiusdist := other.radius / candidateCircle.radius;
        if radiusdist < 1.0 {
          radiusdist := 1.0 / radiusdist;
        }
        if radiusdist < SameSizeRatio {
          assert RejectedBy(currentIntersections, currentCircles[c], candidateCircle, intersect);
          return false, currentIntersections;
        }
        var base := |newIntersections| - numIntersections;
        var i := base;
        while i < |newIntersections|
          invariant base <= i <= |newIntersections|
          invariant forall m, j :: 0 <= m < i - base && 0 <= j < |currentIntersections| ==>
            !InterferingSquaredDistance(DistanceSquared(added[m], currentIntersections[j]), MinDistanceIntersection)
        {
          var newIntersection := newIntersections[i];
          assert newIntersection == added[i - base];
          var j := 0;
          while j < |currentIntersections|
            invariant 0 <= j <= |currentIntersections|
            invariant forall j' :: 0 <= j' < j ==>
              !InterferingSquaredDistance(DistanceSquared(newIntersection, currentIntersections[j']), MinDistanceIntersection)
          {
            var pointDistanceSq := DistanceSquared(newIntersection, currentIntersections[j]);
            if pointDistanceSq < MinDistanceIntersection * MinDistanceIntersection
               && pointDistanceSq > MaxDistanceEquality * MaxDistanceEquality {
              assert AnyInterfering(added, currentIntersections) by {
                assert InterferingSquaredDistance(DistanceSquared(added[i - base], currentIntersections[j]), MinDistanceIntersection);
              }
              assert RejectedBy(currentIntersections, currentCircles[c], candidateCircle, intersect);
              return false, currentIntersections;
            }
            j := j + 1;
          }
          i := i + 1;
        }
      }
      c := c + 1;
    }
    assert currentCircles[..c] == currentCircles;
    ok, updated := true, currentIntersections + newIntersections;
  }

  /* ---------------------------------------------------------------------- */
  /* PruneCircles                                                            */
  /* ---------------------------------------------------------------------- */

  /** `circleCandidates.Where(c => AcceptablePair(c, currentCandidate))`, order kept. */
  function Survivors(candidates: seq<Circle>, current: Circle, normalize: Point -> Point): (r: seq<Circle>)
    ensures |r| <= |candidates|
  {
    if candidates == [] then []
    else
      var rest := Survivors(candidates[1..], current, normalize);
      if AcceptablePair(candidates[0], current, normalize) then [candidates[0]] + rest else rest
  }

  /**
   * The pruning loop as a function of the remaining candidates, the circles
   * accepted so far and the intersection points collected so far.
   */
  ghost function Prune(candidates: seq<Circle>, accepted: seq<Circle>, points: seq<Point>,
                       normalize: Point -> Point, intersect: (Circle, Circle) -> seq<Point>): (seq<Circle>, seq<Point>)
    requires PositiveRadii(candidates) && PositiveRadii(accepted)
    decreases |candidates|
  {
    if candidates == [] then (accepted, points)
    else
      var current := candidates[0];
      var rest := candidates[1..];
      if AcceptsCandidate(points, accepted, current, intersect) then
        SurvivorsPositive(rest, current, normalize);
        Prune(Survivors(rest, current, normalize), accepted + [current.(color := 1)],
              points + IntersectionsFor(accepted, current, intersect), normalize, intersect)
      else
        Prune(rest, accepted, points, normalize, intersect)
  }

  /** `PruneCircles`: the greedy loop, visiting the candidates in the given order. */
  method PruneCircles(circleCandidates: seq<Circle>, normalize: Point -> Point, intersect: (Circle, Circle) -> seq<Point>)
      returns (acceptedCircles: seq<Circle>, intersectionPoints: seq<Point>)
    requires PositiveRadii(circleCandidates)
    ensures (acceptedCircles, intersectionPoints) == Prune(circleCandidates, [], [], normalize, intersect)
  {
    intersectionPoints := [];
    acceptedCircles := [];
    var candidates := circleCandidates;
    while candidates != []
      invariant PositiveRadii(candidates) && PositiveRadii(acceptedCircles)
      invariant Prune(candidates, acceptedCircles, intersectionPoints, normalize, intersect)
             == Prune(circleCandidates, [], [], normalize, intersect)
      decreases |candidates|
    {
      var currentCandidate := candidates[0];
      candidates := candidates[1..];
      var ok;
      ok, intersectionPoints := CheckAndUpdateIntersections(intersectionPoints, acceptedCircles, currentCandidate, intersect);
      if !ok {
        continue;
      }
      acceptedCircles := acceptedCircles + [currentCandidate.(color := 1)];
      SurvivorsPositive(candidates, currentCandidate, normalize);
      candidates := Survivors(candidates, currentCandidate, normalize);
    }
  }

  lemma {:induction false} SurvivorsPositive(candidates: seq<Circle>, current: Circle, normalize: Point -> Point)
    requires PositiveRadii(candidates)
    ensures PositiveRadii(Survivors(candidates, current, normalize))
  {
    if candidates != [] {
      SurvivorsPositive(candidates[1..], current, normalize);
    }
  }

  /* ---------------------------------------------------------------------- */
  /* What the pruning loop guarantees                                        */
  /* ---------------------------------------------------------------------- */

  /** `a` is `b` with some elements left out, order kept. */
  ghost predicate IsSubsequence<T>(a: seq<T>, b: seq<T>)
    decreases |b|
  {
    a == [] || (b != [] && ((a[0] == b[0] && IsSubsequence(a[1..], b[1..])) || IsSubsequence(a, b[1..])))
  }

  /** `currentCandidate with { color = 1 }` for every element. */
  function Recolored(s: seq<Circle>): (r: seq<Circle>)
    ensures |r| == |s|
    ensures forall i :: 0 <= i < |s| ==> r[i] == s[i].(color := 1)
  {
    seq(|s|, i requires 0 <= i < |s| => s[i].(color := 1))
  }

  lemma {:induction false} SubsequenceTransitive<T>(a: seq<T>, b: seq<T>, c: seq<T>)
    requires IsSubsequence(a, b) && IsSubsequence(b, c)
    ensures IsSubsequence(a, c)
    decreases |c|
  {
    if a != [] {
      if b[0] == c[0] && IsSubsequence(b[1..], c[1..]) {
        if a[0] == b[0] && IsSubsequence(a[1..], b[1..]) {
          SubsequenceTransitive(a[1..], b[1..], c[1..]);
        } else {
          SubsequenceTransitive(a, b[1..], c[1..]);
        }
      } else {
        SubsequenceTransitive(a, b, c[1..]);
      }
    }
  }

  lemma {:induction false} RecoloredSubsequence(a: seq<Circle>, b: seq<Circle>)
    requires IsSubsequence(a, b)
    ensures IsSubsequence(Recolored(a), Recolored(b))
    decreases |b|
  {
    if a != [] {
      assert Recolored(b)[1..] == Recolored(b[1..]);
      if a[0] == b[0] && IsSubsequence(a[1..], b[1..]) {
        RecoloredSubsequence(a[1..], b[1..]);
        assert Recolored(a)[1..] == Recolored(a[1..]);
      } else {
        RecoloredSubsequence(a, b[1..]);
      }
    }
  }

  /** The survivors are the candidates acceptable against `current`, in order. */
  lemma {:induction false} SurvivorsAreAcceptable(candidates: seq<Circle>, current: Circle, normalize: Point -> Point)
    ensures IsSubsequence(Survivors(candidates, current, normalize), candidates)
    ensures forall c :: c in Survivors(candidates, current, normalize) <==> c in candidates && AcceptablePair(c, current, normalize)
  {
    if candidates != [] {
      SurvivorsAreAcceptable(candidates[1..], current, normalize);
      var rest := Survivors(candidates[1..], current, normalize);
      if AcceptablePair(candidates[0], current, normalize) {
        assert ([candidates[0]] + rest)[1..] == rest;
      } else {
        if rest != [] {
          assert IsSubsequence(rest, candidates[1..]);
        }
      }
      assert forall c :: c in candidates <==> c == candidates[0] || c in candidates[1..];
    }
  }

  /**
   * The accepted circles grow at the end only, and what the loop appends is a
   * subsequence of the recoloured candidates: the result keeps the input order.
   */
  lemma {:induction false} PruneKeepsOrder(candidates: seq<Circle>, accepted: seq<Circle>, points: seq<Point>,
                                           normalize: Point -> Point, intersect: (Circle, Circle) -> seq<Point>)
    requires PositiveRadii(candidates) && PositiveRadii(accepted)
    ensures var r := Prune(candidates, accepted, points, normalize, intersect).0;
      |accepted| <= |r| && r[..|accepted|] == accepted && IsSubsequence(r[|accepted|..], Recolored(candidates))
    decreases |candidates|
  {
    if candidates != [] {
      var current := candidates[0];
      var rest := candidates[1..];
      assert Recolored(candidates)[1..] == Recolored(rest);
      if AcceptsCandidate(points, accepted, current, intersect) {
        SurvivorsPositive(rest, current, normalize);
        var survivors := Survivors(rest, current, normalize);
        var accepted' := accepted + [current.(color := 1)];
        PruneKeepsOrder(survivors, accepted', points + IntersectionsFor(accepted, current, intersect), normalize, intersect);
        var r := Prune(survivors, accepted', points + IntersectionsFor(accepted, current, intersect), normalize, intersect).0;
        SurvivorsAreAcceptable(rest, current, normalize);
        RecoloredSubsequence(survivors, rest);
        SubsequenceTransitive(r[|accepted'|..], Recolored(survivors), Recolored(rest));
        assert r[|accepted|..][1..] == r[|accepted'|..];
        assert r[..|accepted|] == r[..|accepted'|][..|accepted|];
      } else {
        PruneKeepsOrder(rest, accepted, points, normalize, intersect);
      }
    }
  }

  /** The first candidate is always accepted: nothing has been accepted to reject it. */
  lemma PruneAcceptsFirst(candidates: seq<Circle>, normalize: Point -> Point, intersect: (Circle, Circle) -> seq<Point>)
    requires PositiveRadii(candidates) && candidates != []
    ensures var r := Prune(candidates, [], [], normalize, intersect).0;
      |r| >= 1 && r[0] == candidates[0].(color := 1)
  {
    var current := candidates[0];
    assert AcceptsCandidate([], [], current, intersect);
    SurvivorsPositive(candidates[1..], current, normalize);
    var none: seq<Circle> := [];
    var accepted := none + [current.(color := 1)];
    PruneKeepsOrder(Survivors(candidates[1..], current, normalize), accepted,
                    [] + IntersectionsFor([], current, intersect), normalize, intersect);
    assert accepted[..1] == [current.(color := 1)];
  }

  /** Intersection points are only ever appended. */
  lemma {:induction false} PrunePointsGrow(candidates: seq<Circle>, accepted: seq<Circle>, points: seq<Point>,
                                           normalize: Point -> Point, intersect: (Circle, Circle) -> seq<Point>)
    requires PositiveRadii(candidates) && PositiveRadii(accepted)
    ensures var ps := Prune(candidates, accepted, points, normalize, intersect).1;
      |points| <= |ps| && ps[..|points|] == points
    decreases |candidates|
  {
    if candidates != [] {
      var current := candidates[0];
      if AcceptsCandidate(points, accepted, current, intersect) {
        SurvivorsPositive(candidates[1..], current, normalize);
        var points' := points + IntersectionsFor(accepted, current, intersect);
        PrunePointsGrow(Survivors(candidates[1..], current, normalize), accepted + [current.(color := 1)], points', normalize, intersect);
        assert points'[..|points|] == points;
      } else {
        PrunePointsGrow(candidates[1..], accepted, points, normalize, intersect);
      }
    }
  }

  /** Every later circle is an acceptable pair with every earlier one. */
  ghost predicate Pairwise(s: seq<Circle>, normalize: Point -> Point)
  {
    forall i, j :: 0 <= i < j < |s| ==> AcceptablePair(s[j], s[i], normalize)
  }

  /** Every remaining candidate is an acceptable pair with every accepted circle. */
  ghost predicate AcceptableAgainst(candidates: seq<Circle>, accepted: seq<Circle>, normalize: Point -> Point)
  {
    forall c, e :: c in candidates && 0 <= e < |accepted| ==> AcceptablePair(c, accepted[e], normalize)
  }

  /**
   * Pairwise closure: since the survivors of every acceptance are filtered
   * against the accepted circle, any two accepted circles form an acceptable
   * pair, the later one tested against the earlier.
   */
  lemma {:induction false} PruneIsPairwise(candidates: seq<Circle>, accepted: seq<Circle>, points: seq<Point>,
                                           normalize: Point -> Point, intersect: (Circle, Circle) -> seq<Point>)
    requires PositiveRadii(candidates) && PositiveRadii(accepted)
    requires Pairwise(accepted, normalize) && AcceptableAgainst(candidates, accepted, normalize)
    ensures Pairwise(Prune(candidates, accepted, points, normalize, intersect).0, normalize)
    decreases |candidates|
  {
    if candidates != [] {
      var current := candidates[0];
      var rest := candidates[1..];
      assert current in candidates;
      assert forall c :: c in rest ==> c in candidates;
      if AcceptsCandidate(points, accepted, current, intersect) {
        var current' := current.(color := 1);
        var accepted' := accepted + [current'];
        SurvivorsPositive(rest, current, normalize);
        SurvivorsAreAcceptable(rest, current, normalize);
        var survivors := Survivors(rest, current, normalize);
        forall i | 0 <= i < |accepted|
          ensures AcceptablePair(current', accepted[i], normalize)
        {
          AcceptablePairIgnoresColor(current, accepted[i], current', accepted[i], normalize);
        }
        assert Pairwise(accepted', normalize);
        forall c, e | c in survivors && 0 <= e < |accepted'|
          ensures AcceptablePair(c, accepted'[e], normalize)
        {
          if e == |accepted| {
            AcceptablePairIgnoresColor(c, current, c, current', normalize);
          }
        }
        PruneIsPairwise(survivors, accepted', points + IntersectionsFor(accepted, current, intersect), normalize, intersect);
      } else {
        PruneIsPairwise(rest, accepted, points, normalize, intersect);
      }
    }
  }

  /** `PruneCircles` returns a pairwise acceptable subsequence of its recoloured input. */
  lemma PruneCirclesResult(candidates: seq<Circle>, normalize: Point -> Point, intersect: (Circle, Circle) -> seq<Point>)
    requires PositiveRadii(candidates)
    ensures var r := Prune(candidates, [], [], normalize, intersect).0;
      IsSubsequence(r, Recolored(candidates)) && Pairwise(r, normalize)
  {
    PruneKeepsOrder(candidates, [], [], normalize, intersect);
    PruneIsPairwise(candidates, [], [], normalize, intersect);
    var r := Prune(candidates, [], [], normalize, intersect).0;
    assert r[0..] == r;
  }

  /* ---------------------------------------------------------------------- */
  /* PruneRatedCircles                                                       */
  /* ---------------------------------------------------------------------- */

  datatype RatedCircle = RatedCircle(circle: Circle, rating: real)

  /** The sort key of `RatedCircle.FitnessComparer`. */
  function Rating(rc: RatedCircle): real
  {
    rc.rating
  }

  /** `c with { Rating = c.Rating + noise }`, one noise draw per circle. */
  function Wriggle(circles: seq<RatedCircle>, noise: seq<real>): (r: seq<RatedCircle>)
    requires |noise| == |circles|
    ensures |r| == |circles|
    ensures forall i :: 0 <= i < |r| ==> r[i].circle == circles[i].circle && r[i].rating == circles[i].rating + noise[i]
  {
    seq(|circles|, i requires 0 <= i < |circles| => circles[i].(rating := circles[i].rating + noise[i]))
  }

  /** `.Select(rc => rc.Circle)`. */
  function CirclesOf(rcs: seq<RatedCircle>): (cs: seq<Circle>)
    ensures |cs| == |rcs| && forall i :: 0 <= i < |rcs| ==> cs[i] == rcs[i].circle
  {
    seq(|rcs|, i requires 0 <= i < |rcs| => rcs[i].circle)
  }

  ghost predicate PositiveRated(rcs: seq<RatedCircle>)
  {
    forall i :: 0 <= i < |rcs| ==> rcs[i].circle.radius > 0.0
  }

  /**
   * The candidates in the order `PruneRatedCircles` hands them on: sorted by
   * descending rating, after adding a noise draw to every rating when
   * wriggling, ties in input order.
   */
  function RankedCandidates(circles: seq<RatedCircle>, wriggle: bool, noise: seq<real>): (ranked: seq<RatedCircle>)
    requires |noise| == |circles|
    ensures SortedDesc(ranked, Rating)
    ensures multiset(ranked) == multiset(if wriggle then Wriggle(circles, noise) else circles)
  {
    var input := if wriggle then Wriggle(circles, noise) else circles;
    SortDescSorted(input, Rating);
    SortDescPermutes(input, Rating);
    SortDesc(input, Rating)
  }

  /** `PruneRatedCircles`: prune the ranked candidates. */
  method PruneRatedCircles(circles: seq<RatedCircle>, wriggle: bool, noise: seq<real>,
                           normalize: Point -> Point, intersect: (Circle, Circle) -> seq<Point>)
      returns (pruned: seq<Circle>, intersectionPoints: seq<Point>)
    requires |noise| == |circles| && PositiveRated(circles)
    ensures PositiveRadii(CirclesOf(RankedCandidates(circles, wriggle, noise)))
    ensures (pruned, intersectionPoints) == Prune(CirclesOf(RankedCandidates(circles, wriggle, noise)), [], [], normalize, intersect)
  {
    var ranked := RankedCandidates(circles, wriggle, noise);
    RankedPositive(circles, wriggle, noise);
    pruned, intersectionPoints := PruneCircles(CirclesOf(ranked), normalize, intersect);
  }

  lemma RankedPositive(circles: seq<RatedCircle>, wriggle: bool, noise: seq<real>)
    requires |noise| == |circles| && PositiveRated(circles)
    ensures PositiveRadii(CirclesOf(RankedCandidates(circles, wriggle, noise)))
  {
    var input := if wriggle then Wriggle(circles, noise) else circles;
    var ranked := RankedCandidates(circles, wriggle, noise);
    forall i | 0 <= i < |ranked|
      ensures ranked[i].circle.radius > 0.0
    {
      assert ranked[i] in multiset(ranked);
      assert ranked[i] in input;
    }
  }

  /** The best-rated candidate comes first, so it is the first circle kept. */
  lemma PruneRatedKeepsBest(circles: seq<RatedCircle>, wriggle: bool, noise: seq<real>,
                            normalize: Point -> Point, intersect: (Circle, Circle) -> seq<Point>, best: RatedCircle)
    requires |noise| == |circles| && PositiveRated(circles) && !wriggle && best in circles
    ensures PositiveRadii(CirclesOf(RankedCandidates(circles, wriggle, noise)))
    ensures var ranked := RankedCandidates(circles, wriggle, noise);
      var r := Prune(CirclesOf(ranked), [], [], normalize, intersect).0;
      |r| >= 1 && r[0] == ranked[0].circle.(color := 1) && ranked[0].rating >= best.rating
  {
    var ranked := RankedCandidates(circles, wriggle, noise);
    RankedPositive(circles, wriggle, noise);
    SortDescHeadIsMax(circles, Rating, best);
    PruneAcceptsFirst(CirclesOf(ranked), normalize, intersect);
  }

  /* ---------------------------------------------------------------------- */
  /* The selection loop of GenerateCirclesWithGoodRating                     */
  /* ---------------------------------------------------------------------- */

  /** The size bucket `(int)((radius - MinCircleRadius) * NumSizeBuckets / (MaxCircleRadius - MinCircleRadius))`. */
  function SizeBucket(radius: real): int
  {
    Truncate((radius - MinCircleRadius) * NumSizeBuckets as real / (MaxCircleRadius - MinCircleRadius))
  }

  /** A radius drawn in `[MinCircleRadius, MaxCircleRadius)` falls into one of the ten buckets. */
  lemma SizeBucketRange(radius: real)
    requires MinCircleRadius <= radius < MaxCircleRadius
    ensures 0 <= SizeBucket(radius) < NumSizeBuckets
    ensures 0.0 <= SizeBucket(radius) as real * BucketWeight <= 45.0
  {
    var v := (radius - MinCircleRadius) * NumSizeBuckets as real / (MaxCircleRadius - MinCircleRadius);
    assert v == (radius - MinCircleRadius) * (10.0 / 0.095);
    assert 0.0 <= v < 10.0;
  }

  /** The rating of a kept circle: its own rating plus the size bonus. */
  function SizedRating(pureRating: real, radius: real): real
  {
    pureRating + SizeBucket(radius) as real * BucketWeight
  }

  /**
   * The circles kept from a sequence of `(circle, rating)` draws: those whose
   * own rating exceeds `MinRating`, in draw order, each with its sized rating.
   */
  function GoodRated(draws: seq<(Circle, real)>): seq<RatedCircle>
  {
    if draws == [] then []
    else
      var n := |draws| - 1;
      var (c, pureRating) := draws[n];
      GoodRated(draws[..n]) + (if pureRating > MinRating then [RatedCircle(c, SizedRating(pureRating, c.radius))] else [])
  }

  /** Drawing more never changes the circles already kept. */
  lemma {:induction false} GoodRatedPrefix(draws: seq<(Circle, real)>, i: nat)
    requires i <= |draws|
    ensures |GoodRated(draws[..i])| <= |GoodRated(draws)|
    ensures GoodRated(draws)[..|GoodRated(draws[..i])|] == GoodRated(draws[..i])
    decreases |draws|
  {
    if i < |draws| {
      var n := |draws| - 1;
      assert draws[..n][..i] == draws[..i];
      GoodRatedPrefix(draws[..n], i);
      var g := GoodRated(draws[..n]);
      assert GoodRated(draws)[..|g|] == g;
      assert GoodRated(draws)[..|GoodRated(draws[..i])|] == g[..|GoodRated(draws[..i])|];
    } else {
      assert draws[..i] == draws;
    }
  }

  /**
   * Every kept circle has its own rating above `MinRating`, so with a radius in
   * the drawing range its sized rating is above `MinRating` as well.
   */
  lemma {:induction false} GoodRatedAboveMinimum(draws: seq<(Circle, real)>)
    requires forall i :: 0 <= i < |draws| ==> MinCircleRadius <= draws[i].0.radius < MaxCircleRadius
    ensures forall k :: 0 <= k < |GoodRated(draws)| ==>
      GoodRated(draws)[k].rating > MinRating && MinCircleRadius <= GoodRated(draws)[k].circle.radius < MaxCircleRadius
  {
    if draws != [] {
      var n := |draws| - 1;
      GoodRatedAboveMinimum(draws[..n]);
      SizeBucketRange(draws[n].0.radius);
    }
  }

  /**
   * The selection loop of `GenerateCirclesWithGoodRating` over a finite
   * sequence of draws: it stops after `numCircles` kept circles, or when the
   * draws run out, and keeps the prefix of `GoodRated(draws)` of that length.
   */
  method SelectGoodRatedCircles(draws: seq<(Circle, real)>, numCircles: nat) returns (circles: seq<RatedCircle>)
    ensures |circles| <= numCircles && |circles| <= |GoodRated(draws)|
    ensures |circles| == numCircles || |circles| == |GoodRated(draws)|
    ensures circles == GoodRated(draws)[..|circles|]
  {
    circles := [];
    var i := 0;
    while |circles| < numCircles && i < |draws|
      invariant 0 <= i <= |draws| && |circles| <= numCircles
      invariant circles == GoodRated(draws[..i])
    {
      var (c, pureRating) := draws[i];
      var rating := pureRating + SizeBucket(c.radius) as real * BucketWeight;
      if pureRating > MinRating {
        circles := circles + [RatedCircle(c, rating)];
      }
      assert draws[..i + 1][..i] == draws[..i];
      i := i + 1;
    }
    GoodRatedPrefix(draws, i);
    if i == |draws| {
      assert draws[..i] == draws;
    }
  }
}
