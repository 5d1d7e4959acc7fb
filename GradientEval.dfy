/**
 * Bubbles/GradientEval.cs: the central-difference gradient field of a grey-scale
 * image, its bilinear sampling, the rating of a circle by how strongly the
 * image changes across its border, and the "keep the best so far" hill-climb
 * that moves a circle along a finite-difference estimate of that rating's
 * gradient.
 *
 * Floats are reals. The sine and cosine of the 200 sample angles are outside
 * the model: `dir(s)` is the unit vector `(sin, cos)` of sample `s`, a parameter
 * of every operation that rates circles. The flat `Vector2[]` indexed by
 * `x + y * width` is a two-dimensional array indexed by `[x, y]`.
 *
 * The functions at module level define the field, the sampling and the rating
 * from the image itself; the class `GradientEval` computes them from its
 * stored array and its members are proved to agree with them.
 */
module GradientEval {
  import opened Common
  import opened Geometry

  /** Number of border samples per rating. */
  const NumSamples: int := 200

  const Zero: Point := Point(0.0, 0.0)

  /** A row-major grey-scale buffer and its dimensions. */
  datatype Image = Image(pixels: seq<byte>, width: int, height: int)
  {
    predicate Valid()
    {
      0 <= width && 0 <= height && |pixels| >= width * height
    }

    /** Every pixel of the buffer has the same grey. */
    predicate Uniform()
    {
      forall i, j :: 0 <= i < j < |pixels| ==> pixels[i] == pixels[j]
    }
  }

  /** The grey value at `(x, y)`. */
  function PixelAt(img: Image, x: int, y: int): byte
    requires img.Valid() && 0 <= x < img.width && 0 <= y < img.height
  {
    GridIndexInRange(img.width, img.height, x, y);
    img.pixels[x + y * img.width]
  }

  /**
   * The gradient the constructor stores for pixel `(x, y)`, extended by zero to
   * the whole plane: half the difference of the two horizontal and of the two
   * vertical neighbours inside the image, zero on the border rows and columns
   * and outside.
   */
  function GradientAt(img: Image, x: int, y: int): Point
    requires img.Valid()
  {
    if 1 <= x < img.width - 1 && 1 <= y < img.height - 1 then
      Point((PixelAt(img, x + 1, y) - PixelAt(img, x - 1, y)) as real * 0.5,
            (PixelAt(img, x, y + 1) - PixelAt(img, x, y - 1)) as real * 0.5)
    else Zero
  }

  /**
   * Every stored gradient component lies in [-127.5, 127.5], half the largest
   * difference of two bytes.
   */
  lemma GradientAtBounded(img: Image, x: int, y: int)
    requires img.Valid()
    ensures InGradientRange(GradientAt(img, x, y))
  {
  }

  /** The private scalar `Lerp`; `Vector2.Lerp` applies the same formula per component. */
  function Lerp(first: real, second: real, weight: real): real
  {
    first * (1.0 - weight) + second * weight
  }

  /** A blend with a weight in [0, 1] stays within any bound of both ends. */
  lemma LerpBounded(first: real, second: real, weight: real, m: real)
    requires -m <= first <= m && -m <= second <= m && 0.0 <= weight <= 1.0
    ensures -m <= Lerp(first, second, weight) <= m
  {
    MulNonNegative(m - first, 1.0 - weight);
    MulNonNegative(m - second, weight);
    MulNonNegative(first + m, 1.0 - weight);
    MulNonNegative(second + m, weight);
  }

  lemma MulNonNegative(a: real, b: real)
    requires a >= 0.0 && b >= 0.0
    ensures a * b >= 0.0
  {
  }

  function LerpPoint(a: Point, b: Point, weight: real): Point
  {
    Point(Lerp(a.x, b.x, weight), Lerp(a.y, b.y, weight))
  }

  /** Both components of `p` lie in [-127.5, 127.5]. */
  predicate InGradientRange(p: Point)
  {
    -127.5 <= p.x <= 127.5 && -127.5 <= p.y <= 127.5
  }

  lemma LerpPointBounded(a: Point, b: Point, weight: real)
    requires InGradientRange(a) && InGradientRange(b) && 0.0 <= weight <= 1.0
    ensures InGradientRange(LerpPoint(a, b, weight))
  {
    LerpBounded(a.x, b.x, weight, 127.5);
    LerpBounded(a.y, b.y, weight, 127.5);
  }

  /** The four-pixel bilinear blend `SampleGradient` computes at `pos`. */
  function SampleAt(img: Image, pos: Point): Point
    requires img.Valid()
  {
    var x := pos.x.Floor;
    var y := pos.y.Floor;
    LerpPoint(LerpPoint(GradientAt(img, x, y), GradientAt(img, x + 1, y), pos.x - x as real),
              LerpPoint(GradientAt(img, x, y + 1), GradientAt(img, x + 1, y + 1), pos.x - x as real),
              pos.y - y as real)
  }

  /**
   * At a whole-pixel position both blend weights are zero and the sample is
   * that pixel's gradient.
   */
  lemma SampleAtPixel(img: Image, x: int, y: int)
    requires img.Valid()
    ensures SampleAt(img, Point(x as real, y as real)) == GradientAt(img, x, y)
  {
    var pos := Point(x as real, y as real);
    assert pos.x.Floor == x && pos.y.Floor == y;
    var top := LerpPoint(GradientAt(img, x, y), GradientAt(img, x + 1, y), pos.x - x as real);
    var bottom := LerpPoint(GradientAt(img, x, y + 1), GradientAt(img, x + 1, y + 1), pos.x - x as real);
    LerpPointAtZero(GradientAt(img, x, y), GradientAt(img, x + 1, y), pos.x - x as real);
    LerpPointAtZero(top, bottom, pos.y - y as real);
  }

  /** A blend with weight zero is its first end. */
  lemma LerpPointAtZero(a: Point, b: Point, weight: real)
    requires weight == 0.0
    ensures LerpPoint(a, b, weight) == a
  {
  }

  /** A sample never leaves the range of the stored gradients. */
  lemma SampleAtBounded(img: Image, pos: Point)
    requires img.Valid()
    ensures InGradientRange(SampleAt(img, pos))
  {
    var x := pos.x.Floor;
    var y := pos.y.Floor;
    var fx := pos.x - x as real;
    GradientAtBounded(img, x, y);
    GradientAtBounded(img, x + 1, y);
    GradientAtBounded(img, x, y + 1);
    GradientAtBounded(img, x + 1, y + 1);
    LerpPointBounded(GradientAt(img, x, y), GradientAt(img, x + 1, y), fx);
    LerpPointBounded(GradientAt(img, x, y + 1), GradientAt(img, x + 1, y + 1), fx);
    LerpPointBounded(LerpPoint(GradientAt(img, x, y), GradientAt(img, x + 1, y), fx),
                     LerpPoint(GradientAt(img, x, y + 1), GradientAt(img, x + 1, y + 1), fx),
                     pos.y - y as real);
  }

  function Dot(a: Point, b: Point): real
  {
    a.x * b.x + a.y * b.y
  }

  /** The image-space point of sample direction `d` on the border of `c`. */
  function SamplePos(width: int, height: int, c: Circle, d: Point): Point
  {
    Point(width as real * (c.x + d.x * c.radius), height as real * (c.y + d.y * c.radius))
  }

  /** Strength of the image change across the border of `c` at sample `s`. */
  function Strength(img: Image, c: Circle, dir: int -> Point, s: int): real
    requires img.Valid()
  {
    Abs(Dot(SampleAt(img, SamplePos(img.width, img.height, c, dir(s))), dir(s)))
  }

  /** Sum of the strengths of samples `0 .. n - 1`. */
  function StrengthSum(img: Image, c: Circle, dir: int -> Point, n: nat): real
    requires img.Valid()
  {
    if n == 0 then 0.0 else StrengthSum(img, c, dir, n - 1) + Strength(img, c, dir, n - 1)
  }

  /** The value `RateCircle` computes: the mean strength over the samples. */
  function Rating(img: Image, c: Circle, dir: int -> Point): real
    requires img.Valid()
  {
    StrengthSum(img, c, dir, NumSamples) / NumSamples as real
  }

  lemma {:induction false} StrengthSumNonNegative(img: Image, c: Circle, dir: int -> Point, n: nat)
    requires img.Valid()
    ensures StrengthSum(img, c, dir, n) >= 0.0
  {
    if n > 0 {
      StrengthSumNonNegative(img, c, dir, n - 1);
      assert Strength(img, c, dir, n - 1) >= 0.0;
    }
  }

  /** A rating is the mean of absolute values and so never negative. */
  lemma RatingNonNegative(img: Image, c: Circle, dir: int -> Point)
    requires img.Valid()
    ensures Rating(img, c, dir) >= 0.0
  {
    StrengthSumNonNegative(img, c, dir, NumSamples);
  }

  /** On an image of one uniform grey every gradient is zero, so every circle rates zero. */
  lemma FlatImageRatesZero(img: Image, c: Circle, dir: int -> Point)
    requires img.Valid() && img.Uniform()
    ensures Rating(img, c, dir) == 0.0
  {
    FlatStrengthSum(img, c, dir, NumSamples);
  }

  lemma {:induction false} FlatStrengthSum(img: Image, c: Circle, dir: int -> Point, n: nat)
    requires img.Valid() && img.Uniform()
    ensures StrengthSum(img, c, dir, n) == 0.0
  {
    if n > 0 {
      FlatStrengthSum(img, c, dir, n - 1);
      FlatStrength(img, c, dir, n - 1);
    }
  }

  /** Every sample of a uniform image blends four zero gradients. */
  lemma FlatStrength(img: Image, c: Circle, dir: int -> Point, s: int)
    requires img.Valid() && img.Uniform()
    ensures Strength(img, c, dir, s) == 0.0
  {
    var pos := SamplePos(img.width, img.height, c, dir(s));
    var x := pos.x.Floor;
    var y := pos.y.Floor;
    FlatGradientIsZero(img, x, y);
    FlatGradientIsZero(img, x + 1, y);
    FlatGradientIsZero(img, x, y + 1);
    FlatGradientIsZero(img, x + 1, y + 1);
  }

  /** A uniform image has the zero gradient everywhere. */
  lemma FlatGradientIsZero(img: Image, x: int, y: int)
    requires img.Valid() && img.Uniform()
    ensures GradientAt(img, x, y) == Zero
  {
    if 1 <= x < img.width - 1 && 1 <= y < img.height - 1 {
      SameGrey(img, x + 1, y, x - 1, y);
      SameGrey(img, x, y + 1, x, y - 1);
    }
  }

  lemma SameGrey(img: Image, x1: int, y1: int, x2: int, y2: int)
    requires img.Valid() && img.Uniform()
    requires 0 <= x1 < img.width && 0 <= y1 < img.height && 0 <= x2 < img.width && 0 <= y2 < img.height
    ensures PixelAt(img, x1, y1) == PixelAt(img, x2, y2)
  {
    var i1 := x1 + y1 * img.width;
    var i2 := x2 + y2 * img.width;
    GridIndexInRange(img.width, img.height, x1, y1);
    GridIndexInRange(img.width, img.height, x2, y2);
    if i1 < i2 {
      assert img.pixels[i1] == img.pixels[i2];
    } else if i2 < i1 {
      assert img.pixels[i2] == img.pixels[i1];
    }
  }

  /**
   * `rate` is the rating `RateCircle` computes on `img` with sample directions
   * `dir`. The equation is triggered only by a `Rating` term, so that the
   * climb below can be reasoned about in terms of `rate` alone without
   * unfolding the samples of every rating it mentions.
   */
  ghost predicate IsRating(rate: Circle -> real, img: Image, dir: int -> Point)
    requires img.Valid()
  {
    forall c {:trigger Rating(img, c, dir)} :: rate(c) == Rating(img, c, dir)
  }

  /**
   * The value `EstimateCircleParamGradient` computes for the rating `rate` of
   * an image `w` pixels wide and `h` high: central differences of the rating
   * over one pixel in `x`, in `y` and (measured in pixel rows) in the radius.
   */
  function ParamGradient(rate: Circle -> real, c: Circle, w: real, h: real): Offset
    requires w > 0.0 && h > 0.0
  {
    Offset(CentralDifference(rate(c.(x := c.x + 1.0 / w)), rate(c.(x := c.x - 1.0 / w)), w),
           CentralDifference(rate(c.(y := c.y + 1.0 / h)), rate(c.(y := c.y - 1.0 / h)), h),
           CentralDifference(rate(c.(radius := c.radius + 1.0 / h)), rate(c.(radius := c.radius - 1.0 / h)), h))
  }

  /** Half the difference of the ratings one pixel either side, per unit of the circle's coordinate. */
  function CentralDifference(plus: real, minus: real, pixels: real): real
    requires pixels > 0.0
  {
    (plus - minus) * 0.5 / pixels
  }

  /** `Vector3 * float`. */
  function ScaleOffset(o: Offset, s: real): Offset
  {
    Offset(o.dx * s, o.dy * s, o.dr * s)
  }

  /**
   * `step` is one hill-climb step for the rating `rate` of an image `w` pixels
   * wide and `h` high: the circle moved by `stepSize` times the estimated
   * gradient. Like `IsRating`, the equation is triggered only by the gradient
   * term, so that the climb can be reasoned about in terms of `step` alone.
   */
  ghost predicate IsClimbStep(step: Circle -> Circle, rate: Circle -> real, w: real, h: real, stepSize: real)
    requires w > 0.0 && h > 0.0
  {
    forall c {:trigger ParamGradient(rate, c, w, h)} :: step(c) == Add(c, ScaleOffset(ParamGradient(rate, c, w, h), stepSize))
  }

  /** The circle after `k` steps from `c`. */
  function Iterate(step: Circle -> Circle, c: Circle, k: nat): Circle
  {
    if k == 0 then c else step(Iterate(step, c, k - 1))
  }

  /** A circle with its rating. */
  datatype Rated = Rated(circle: Circle, rating: real)

  /**
   * The best circle among the first `n + 1` iterates and its rating: a later
   * iterate replaces the best so far only when it rates strictly higher.
   */
  function Best(step: Circle -> Circle, rate: Circle -> real, c: Circle, n: nat): Rated
  {
    if n == 0 then Rated(c, rate(c))
    else
      var prev := Best(step, rate, c, n - 1);
      var next := Iterate(step, c, n);
      if rate(next) > prev.rating then Rated(next, rate(next)) else prev
  }

  /**
   * `b` holds iterate `k` and every earlier iterate rates strictly below
   * `b.rating`.
   */
  ghost predicate FirstReachedAt(step: Circle -> Circle, rate: Circle -> real, c: Circle, b: Rated, k: nat)
  {
    b.circle == Iterate(step, c, k) && forall j :: 0 <= j < k ==> rate(Iterate(step, c, j)) < b.rating
  }

  /**
   * The best so far is the first iterate reaching the highest rating of the
   * first `n + 1` iterates, and its recorded rating is that circle's rating.
   */
  lemma {:induction false} BestIsFirstMaximum(step: Circle -> Circle, rate: Circle -> real, c: Circle, n: nat)
    ensures Best(step, rate, c, n).rating == rate(Best(step, rate, c, n).circle)
    ensures forall k :: 0 <= k <= n ==> rate(Iterate(step, c, k)) <= Best(step, rate, c, n).rating
    ensures exists k :: 0 <= k <= n && FirstReachedAt(step, rate, c, Best(step, rate, c, n), k)
  {
    var best := Best(step, rate, c, n);
    if n > 0 {
      BestIsFirstMaximum(step, rate, c, n - 1);
      var prev := Best(step, rate, c, n - 1);
      var k :| 0 <= k <= n - 1 && FirstReachedAt(step, rate, c, prev, k);
      if rate(Iterate(step, c, n)) > prev.rating {
        assert FirstReachedAt(step, rate, c, best, n);
      } else {
        assert FirstReachedAt(step, rate, c, best, k);
      }
    } else {
      assert FirstReachedAt(step, rate, c, best, 0);
    }
  }

  /** On a uniform image every rating is zero, so the estimated gradient is zero. */
  lemma FlatParamGradient(img: Image, dir: int -> Point, rate: Circle -> real, c: Circle, w: real, h: real)
    requires img.Valid() && img.Uniform() && IsRating(rate, img, dir) && w > 0.0 && h > 0.0
    ensures ParamGradient(rate, c, w, h) == Offset(0.0, 0.0, 0.0)
  {
    FlatImageRatesZero(img, c.(x := c.x + 1.0 / w), dir);
    FlatImageRatesZero(img, c.(x := c.x - 1.0 / w), dir);
    FlatImageRatesZero(img, c.(y := c.y + 1.0 / h), dir);
    FlatImageRatesZero(img, c.(y := c.y - 1.0 / h), dir);
    FlatImageRatesZero(img, c.(radius := c.radius + 1.0 / h), dir);
    FlatImageRatesZero(img, c.(radius := c.radius - 1.0 / h), dir);
  }

  /** On a uniform image the climb never moves. */
  lemma {:induction false} FlatImageClimbStays(img: Image, dir: int -> Point, rate: Circle -> real, step: Circle -> Circle,
                                               c: Circle, k: nat, w: real, h: real, stepSize: real)
    requires img.Valid() && img.Uniform() && IsRating(rate, img, dir) && w > 0.0 && h > 0.0
    requires IsClimbStep(step, rate, w, h, stepSize)
    ensures Iterate(step, c, k) == c
  {
    if k > 0 {
      FlatImageClimbStays(img, dir, rate, step, c, k - 1, w, h, stepSize);
      FlatParamGradient(img, dir, rate, c, w, h);
    }
  }

  /** On a uniform image the optimiser keeps the starting circle, rated zero. */
  lemma {:induction false} FlatImageBestIsStart(img: Image, dir: int -> Point, rate: Circle -> real, step: Circle -> Circle,
                                                c: Circle, n: nat, w: real, h: real, stepSize: real)
    requires img.Valid() && img.Uniform() && IsRating(rate, img, dir) && w > 0.0 && h > 0.0
    requires IsClimbStep(step, rate, w, h, stepSize)
    ensures Best(step, rate, c, n) == Rated(c, 0.0)
  {
    FlatImageRatesZero(img, c, dir);
    if n > 0 {
      FlatImageBestIsStart(img, dir, rate, step, c, n - 1, w, h, stepSize);
      FlatImageClimbStays(img, dir, rate, step, c, n, w, h, stepSize);
    }
  }

  /** The number of steps a `for (s = 0; s < numSteps; ++s)` loop takes. */
  function Steps(numSteps: int): (n: nat)
    ensures numSteps >= 0 ==> n == numSteps
    ensures numSteps < 0 ==> n == 0
  {
    if numSteps < 0 then 0 else numSteps
  }

  class GradientEval {
    const width: int
    const height: int
    /** `_gradients`, indexed `[x, y]`. */
    const gradients: array2<Point>
    /** The image the field was built from. */
    ghost const image: Image

    /** The stored field is the central-difference field of `image`. */
    ghost predicate Valid()
      reads gradients
    {
      image.Valid() && image.width == width && image.height == height &&
      gradients.Length0 == width && gradients.Length1 == height &&
      forall x, y :: 0 <= x < width && 0 <= y < height ==> gradients[x, y] == GradientAt(image, x, y)
    }

    /**
     * Fills the interior of a zeroed field row by row; border entries keep the
     * zero vector.
     */
    constructor (width: int, height: int, pixels: seq<byte>)
      requires 0 <= width && 0 <= height && |pixels| >= width * height
      ensures image == Image(pixels, width, height)
      ensures Valid()
    {
      var img := Image(pixels, width, height);
      var g := new Point[width, height]((x, y) => Zero);
      var y := 1;
      while y < height - 1
        invariant 1 <= y && (height >= 2 ==> y <= height - 1)
        invariant forall i, j :: 0 <= i < width && 0 <= j < height ==>
          g[i, j] == (if j < y then GradientAt(img, i, j) else Zero)
      {
        var x := 1;
        while x < width - 1
          invariant 1 <= x && (width >= 2 ==> x <= width - 1)
          invariant forall i, j :: 0 <= i < width && 0 <= j < height ==>
            g[i, j] == (if j < y || (j == y && i < x) then GradientAt(img, i, j) else Zero)
        {
          g[x, y] := Point((PixelAt(img, x + 1, y) - PixelAt(img, x - 1, y)) as real * 0.5,
                           (PixelAt(img, x, y + 1) - PixelAt(img, x, y - 1)) as real * 0.5);
          x := x + 1;
        }
        y := y + 1;
      }
      this.width := width;
      this.height := height;
      image := img;
      gradients := g;
    }

    /**
     * `LookupGradient`: the zero vector outside the image, the stored gradient
     * inside, which is the central-difference field of the image everywhere.
     */
    function LookupGradient(x: int, y: int): (g: Point)
      reads gradients
      requires Valid()
      ensures g == GradientAt(image, x, y)
      ensures (x < 0 || y < 0 || x >= width || y >= height) ==> g == Zero
    {
      if x >= width || y >= height || x < 0 || y < 0 then Zero
      else gradients[x, y]
    }

    /** `SampleGradient`: the bilinear blend of the four stored gradients around `pos`. */
    function SampleGradient(pos: Point): (g: Point)
      reads gradients
      requires Valid()
      ensures g == SampleAt(image, pos)
    {
      var x := pos.x.Floor;
      var y := pos.y.Floor;
      LerpPoint(LerpPoint(LookupGradient(x, y), LookupGradient(x + 1, y), pos.x - x as real),
                LerpPoint(LookupGradient(x, y + 1), LookupGradient(x + 1, y + 1), pos.x - x as real),
                pos.y - y as real)
    }

    /**
     * `RateCircle`: sums the sample strengths in a loop and takes their mean,
     * which is `Rating(image, c, dir)`; `rate` names that rating so that
     * callers can use the value without unfolding its samples.
     */
    method RateCircle(c: Circle, dir: int -> Point, ghost rate: Circle -> real) returns (rating: real)
      requires Valid() && IsRating(rate, image, dir)
      ensures rating == rate(c)
      ensures rating >= 0.0
    {
      var sum := 0.0;
      var s := 0;
      while s < NumSamples
        invariant 0 <= s <= NumSamples
        invariant sum == StrengthSum(image, c, dir, s)
      {
        var radiusVec := dir(s);
        var samplePos := SamplePos(width, height, c, radiusVec);
        var strength := Dot(SampleGradient(samplePos), radiusVec);
        sum := sum + Abs(strength);
        s := s + 1;
      }
      rating := sum / NumSamples as real;
      assert rating == Rating(image, c, dir);
      RatingNonNegative(image, c, dir);
    }

    /**
     * `EstimateCircleParamGradient`: six ratings of the circle moved one pixel
     * either way in `x`, `y` and radius.
     */
    method EstimateCircleParamGradient(c: Circle, dir: int -> Point, ghost rate: Circle -> real) returns (grad: Offset)
      requires Valid() && width > 0 && height > 0 && IsRating(rate, image, dir)
      ensures grad == ParamGradient(rate, c, width as real, height as real)
    {
      var w := width as real;
      var h := height as real;
      var xPlus := RateCircle(c.(x := c.x + 1.0 / w), dir, rate);
      var xMinus := RateCircle(c.(x := c.x - 1.0 / w), dir, rate);
      var yPlus := RateCircle(c.(y := c.y + 1.0 / h), dir, rate);
      var yMinus := RateCircle(c.(y := c.y - 1.0 / h), dir, rate);
      var rPlus := RateCircle(c.(radius := c.radius + 1.0 / h), dir, rate);
      var rMinus := RateCircle(c.(radius := c.radius - 1.0 / h), dir, rate);
      grad := Offset(CentralDifference(xPlus, xMinus, w), CentralDifference(yPlus, yMinus, h), CentralDifference(rPlus, rMinus, h));
    }

    /**
     * `OptimizeCircle`: `numSteps` gradient steps from `circle`, returning the
     * first circle met with the highest rating, and that rating. `rate` names
     * the rating of this field with sample directions `dir` and `step` one
     * climb step of this field.
     */
    method OptimizeCircle(circle: Circle, numSteps: int, stepSize: real, dir: int -> Point,
                          ghost rate: Circle -> real, ghost step: Circle -> Circle)
      returns (bestCircle: Circle, bestRating: real)
      requires Valid() && width > 0 && height > 0 && IsRating(rate, image, dir)
      requires IsClimbStep(step, rate, width as real, height as real, stepSize)
      ensures Rated(bestCircle, bestRating) == Best(step, rate, circle, Steps(numSteps))
      ensures bestRating == rate(bestCircle) && bestRating >= rate(circle)
      ensures forall k :: 0 <= k <= Steps(numSteps) ==> rate(Iterate(step, circle, k)) <= bestRating
    {
      var current := circle;
      bestCircle := circle;
      bestRating := RateCircle(bestCircle, dir, rate);
      var s := 0;
      while s < numSteps
        invariant 0 <= s <= Steps(numSteps)
        invariant current == Iterate(step, circle, s)
        invariant Rated(bestCircle, bestRating) == Best(step, rate, circle, s)
      {
        var grad := EstimateCircleParamGradient(current, dir, rate);
        current := Add(current, ScaleOffset(grad, stepSize));
        var rating := RateCircle(current, dir, rate);
        s := s + 1;
        if rating > bestRating {
          bestRating := rating;
          bestCircle := current;
        }
      }
      BestIsFirstMaximum(step, rate, circle, s);
      assert Iterate(step, circle, 0) == circle;
    }

    /** `OptimizeCircles`: replaces every circle of the list by its optimised version. */
    method OptimizeCircles(circles: array<Circle>, numSteps: int, stepSize: real, dir: int -> Point,
                           ghost rate: Circle -> real, ghost step: Circle -> Circle)
      requires Valid() && width > 0 && height > 0 && IsRating(rate, image, dir)
      requires IsClimbStep(step, rate, width as real, height as real, stepSize)
      modifies circles
      ensures forall i :: 0 <= i < circles.Length ==>
        circles[i] == Best(step, rate, old(circles[i]), Steps(numSteps)).circle
    {
      var c := 0;
      while c < circles.Length
        invariant 0 <= c <= circles.Length
        invariant forall i :: 0 <= i < c ==>
          circles[i] == Best(step, rate, old(circles[i]), Steps(numSteps)).circle
        invariant forall i :: c <= i < circles.Length ==> circles[i] == old(circles[i])
      {
        var optimised, rating := OptimizeCircle(circles[c], numSteps, stepSize, dir, rate, step);
        circles[c] := optimised;
        c := c + 1;
      }
    }
  }
}
