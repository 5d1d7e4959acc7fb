/**
 * Bubbles/CircleSDFFinder.cs: the distance-field route to circles. The blurred
 * image is bucketed into five grey levels, every pixel gets its distance to
 * the nearest edge pixel (value 255), and circles are "dropped" onto that
 * field: each drop walks uphill on the grid to a local maximum, turns it into
 * a circle and carves the circle's disk out of the field so that later drops
 * find other maxima.
 *
 * Floats are reals; the square root of `Vector2.Distance` is the parameter
 * `sqrt`. The `float[,]` fields are two-dimensional arrays indexed `[x, y]`.
 */
module CircleSDFFinder {
  import opened Common
  import opened Geometry

  /**
   * The bucketing loop of `FindCirclesForImage`: every pixel of the blurred
   * buffer becomes `(byte)(((p + step / 2) / step) * step)` with the program's
   * grey step of 51. The value always fits a byte, so the cast does not wrap;
   * it is a multiple of 51 within 25 of the pixel.
   */
  method BucketPixels(pixels: array<byte>, width: int, height: int)
    requires 0 <= width && 0 <= height && pixels.Length == width * height
    modifies pixels
    ensures forall i :: 0 <= i < pixels.Length ==> pixels[i] == Quantise(old(pixels[i]), GreyScaleStep)
    ensures forall i :: 0 <= i < pixels.Length ==> pixels[i] % 51 == 0 && -25 <= pixels[i] as int - old(pixels[i]) as int <= 25
  {
    var i := 0;
    while i < width * height
      invariant 0 <= i <= pixels.Length
      invariant forall k :: 0 <= k < i ==> pixels[k] == Quantise(old(pixels[k]), GreyScaleStep)
      invariant forall k :: 0 <= k < i ==> pixels[k] % 51 == 0 && -25 <= pixels[k] as int - old(pixels[k]) as int <= 25
      invariant forall k :: i <= k < pixels.Length ==> pixels[k] == old(pixels[k])
    {
      QuantiseGreyIsByte(pixels[i]);
      pixels[i] := Quantise(pixels[i], GreyScaleStep);
      i := i + 1;
    }
  }

  /** The grey value at `(x, y)` of a row-major buffer. */
  function Grey(grey: seq<byte>, width: int, height: int, x: int, y: int): byte
    requires |grey| >= width * height && 0 <= x < width && 0 <= y < height
  {
    GridIndexInRange(width, height, x, y);
    grey[x + y * width]
  }

  /** `Vector2.Distance` between two grid cells. */
  function CellDistance(i: int, j: int, x: int, y: int, sqrt: real -> real): real
  {
    sqrt(DistanceSquared(Point(i as real, j as real), Point(x as real, y as real)))
  }

  /** `Math.Min`. */
  function Min(a: real, b: real): real
  {
    if a < b then a else b
  }

  /**
   * The running minimum of `ComputeDistance` after the rows before `j` and the
   * first `i` cells of row `j`: `float.MaxValue` lowered by the distance to
   * every edge pixel (grey 255) met in that row-major order.
   */
  function MinEdgeDistance(grey: seq<byte>, width: int, height: int, x: int, y: int, j: int, i: int, sqrt: real -> real): real
    requires |grey| >= width * height && 0 <= j <= height && 0 <= i <= width && (j == height ==> i == 0)
    decreases j, i
  {
    if i == 0 then
      if j == 0 then FloatMax else MinEdgeDistance(grey, width, height, x, y, j - 1, width, sqrt)
    else
      var m := MinEdgeDistance(grey, width, height, x, y, j, i - 1, sqrt);
      if Grey(grey, width, height, i - 1, j) == 255 then Min(m, CellDistance(i - 1, j, x, y, sqrt)) else m
  }

  /**
   * A nested scan whose outer loop has reached `outer` and whose inner loop has
   * reached `inner` has already visited the cell at inner coordinate `i` and
   * outer coordinate `j`.
   */
  predicate Scanned(i: int, j: int, outer: int, inner: int)
  {
    j < outer || (j == outer && i < inner)
  }

  /** The running minimum is at most `float.MaxValue` and the distance to every edge pixel scanned. */
  lemma {:induction false} MinEdgeDistanceIsLowerBound(grey: seq<byte>, width: int, height: int, x: int, y: int, j: int, i: int, sqrt: real -> real)
    requires |grey| >= width * height && 0 <= j <= height && 0 <= i <= width && (j == height ==> i == 0)
    ensures MinEdgeDistance(grey, width, height, x, y, j, i, sqrt) <= FloatMax
    ensures forall ci, cj :: 0 <= ci < width && 0 <= cj < height && Scanned(ci, cj, j, i) && Grey(grey, width, height, ci, cj) == 255 ==>
      MinEdgeDistance(grey, width, height, x, y, j, i, sqrt) <= CellDistance(ci, cj, x, y, sqrt)
    decreases j, i
  {
    if i == 0 {
      if j > 0 {
        MinEdgeDistanceIsLowerBound(grey, width, height, x, y, j - 1, width, sqrt);
      }
    } else {
      MinEdgeDistanceIsLowerBound(grey, width, height, x, y, j, i - 1, sqrt);
    }
  }

  /**
   * The running minimum is attained: it is still `float.MaxValue` or it is the
   * distance to an edge pixel scanned.
   */
  lemma {:induction false} MinEdgeDistanceIsAttained(grey: seq<byte>, width: int, height: int, x: int, y: int, j: int, i: int, sqrt: real -> real)
    requires |grey| >= width * height && 0 <= j <= height && 0 <= i <= width && (j == height ==> i == 0)
    ensures var m := MinEdgeDistance(grey, width, height, x, y, j, i, sqrt);
      m == FloatMax || exists ci, cj :: (0 <= ci < width && 0 <= cj < height && Scanned(ci, cj, j, i) &&
        Grey(grey, width, height, ci, cj) == 255 && m == CellDistance(ci, cj, x, y, sqrt))
    decreases j, i
  {
    if i == 0 {
      if j > 0 {
        MinEdgeDistanceIsAttained(grey, width, height, x, y, j - 1, width, sqrt);
      }
    } else {
      MinEdgeDistanceIsAttained(grey, width, height, x, y, j, i - 1, sqrt);
    }
  }

  /**
   * After the whole scan: the result is at most the distance to every edge
   * pixel, is the distance to one of them or `float.MaxValue`, and is
   * `float.MaxValue` when the image has no edge pixel.
   */
  lemma EdgeDistanceIsMinimum(grey: seq<byte>, width: int, height: int, x: int, y: int, sqrt: real -> real)
    requires 0 <= width && 0 <= height && |grey| >= width * height
    ensures var m := MinEdgeDistance(grey, width, height, x, y, height, 0, sqrt);
      (forall ci, cj :: 0 <= ci < width && 0 <= cj < height && Grey(grey, width, height, ci, cj) == 255 ==>
        m <= CellDistance(ci, cj, x, y, sqrt)) &&
      (m == FloatMax || exists ci, cj :: (0 <= ci < width && 0 <= cj < height &&
        Grey(grey, width, height, ci, cj) == 255 && m == CellDistance(ci, cj, x, y, sqrt))) &&
      ((forall ci, cj :: 0 <= ci < width && 0 <= cj < height ==> Grey(grey, width, height, ci, cj) != 255) ==> m == FloatMax)
  {
    MinEdgeDistanceIsLowerBound(grey, width, height, x, y, height, 0, sqrt);
    MinEdgeDistanceIsAttained(grey, width, height, x, y, height, 0, sqrt);
  }

  /**
   * `ComputeDistance`: zero on an edge pixel, otherwise the minimum over a
   * row-major scan of the distances to the edge pixels.
   */
  method ComputeDistance(x: int, y: int, grey: seq<byte>, width: int, height: int, sqrt: real -> real) returns (d: real)
    requires 0 <= x < width && 0 <= y < height && |grey| >= width * height
    ensures Grey(grey, width, height, x, y) == 255 ==> d == 0.0
    ensures Grey(grey, width, height, x, y) != 255 ==> d == MinEdgeDistance(grey, width, height, x, y, height, 0, sqrt)
  {
    if Grey(grey, width, height, x, y) == 255 {
      return 0.0;
    }
    var minDistance := FloatMax;
    var j := 0;
    while j < height
      invariant 0 <= j <= height
      invariant minDistance == MinEdgeDistance(grey, width, height, x, y, j, 0, sqrt)
    {
      var i := 0;
      while i < width
        invariant 0 <= i <= width
        invariant minDistance == MinEdgeDistance(grey, width, height, x, y, j, i, sqrt)
      {
        if Grey(grey, width, height, i, j) == 255 {
          var distance := CellDistance(i, j, x, y, sqrt);
          minDistance := Min(minDistance, distance);
        }
        i := i + 1;
      }
      j := j + 1;
    }
    d := minDistance;
  }

  /** A single-precision quotient: a real, or NaN for `0 / 0`. */
  datatype Float = Finite(value: real) | NaN

  /** Float division where the only zero divisor met is over a zero dividend. */
  function Divide(a: real, b: real): Float
    requires b != 0.0 || a == 0.0
  {
    if b == 0.0 then NaN else Finite(a / b)
  }

  function Max(a: real, b: real): real
  {
    if a < b then b else a
  }

  /** The largest `|m[x, j]|` for `j < n`, and 0. */
  function ColumnMaxAbs(m: array2<real>, x: int, n: int): real
    reads m
    requires 0 <= x < m.Length0 && 0 <= n <= m.Length1
  {
    if n == 0 then 0.0 else Max(ColumnMaxAbs(m, x, n - 1), Abs(m[x, n - 1]))
  }

  /** The largest `|m[i, j]|` over the columns `i < k`, and 0: the LINQ `Prepend(0).Max()`. */
  function MaxAbs(m: array2<real>, k: int): real
    reads m
    requires 0 <= k <= m.Length0
  {
    if k == 0 then 0.0 else Max(MaxAbs(m, k - 1), ColumnMaxAbs(m, k - 1, m.Length1))
  }

  lemma {:induction false} ColumnMaxAbsBounds(m: array2<real>, x: int, n: int)
    requires 0 <= x < m.Length0 && 0 <= n <= m.Length1
    ensures ColumnMaxAbs(m, x, n) >= 0.0
    ensures forall j :: 0 <= j < n ==> Abs(m[x, j]) <= ColumnMaxAbs(m, x, n)
  {
    if n > 0 {
      ColumnMaxAbsBounds(m, x, n - 1);
    }
  }

  /** `MaxAbs` is non-negative and bounds the magnitude of every entry of the columns it covers. */
  lemma {:induction false} MaxAbsBounds(m: array2<real>, k: int)
    requires 0 <= k <= m.Length0
    ensures MaxAbs(m, k) >= 0.0
    ensures forall i, j :: 0 <= i < k && 0 <= j < m.Length1 ==> Abs(m[i, j]) <= MaxAbs(m, k)
  {
    if k > 0 {
      MaxAbsBounds(m, k - 1);
      ColumnMaxAbsBounds(m, k - 1, m.Length1);
    }
  }

  lemma {:induction false} ColumnMaxAbsAttained(m: array2<real>, x: int, n: int)
    requires 0 <= x < m.Length0 && 0 <= n <= m.Length1
    ensures ColumnMaxAbs(m, x, n) == 0.0 || exists j :: 0 <= j < n && Abs(m[x, j]) == ColumnMaxAbs(m, x, n)
  {
    if n > 0 {
      ColumnMaxAbsAttained(m, x, n - 1);
    }
  }

  /** `MaxAbs` is zero or the magnitude of some entry of the columns it covers. */
  lemma {:induction false} MaxAbsAttained(m: array2<real>, k: int)
    requires 0 <= k <= m.Length0
    ensures MaxAbs(m, k) == 0.0 || exists i, j :: 0 <= i < k && 0 <= j < m.Length1 && Abs(m[i, j]) == MaxAbs(m, k)
  {
    if k > 0 {
      MaxAbsAttained(m, k - 1);
      ColumnMaxAbsAttained(m, k - 1, m.Length1);
    }
  }

  /** Entry `(i, j)` of the normalised map: `m[i, j]` divided by `MaxAbs` of the whole map. */
  function NormalizedEntry(m: array2<real>, i: int, j: int): Float
    reads m
    requires 0 <= i < m.Length0 && 0 <= j < m.Length1
  {
    MaxAbsBounds(m, m.Length0);
    Divide(m[i, j], MaxAbs(m, m.Length0))
  }

  /** Dividing by a bound of the magnitude lands in [-1, 1]. */
  lemma QuotientInUnitRange(v: real, bound: real)
    requires bound > 0.0 && Abs(v) <= bound
    ensures -1.0 <= v / bound <= 1.0
  {
    if v >= 0.0 {
      assert v / bound <= bound / bound;
    } else {
      assert -v / bound <= bound / bound;
    }
  }

  /**
   * `NormalizeDistanceMap`: a new map of the same dimensions holding every
   * entry divided by the largest magnitude (and 0). When that maximum is
   * positive every entry lies in [-1, 1]; when it is zero every entry was zero
   * and becomes NaN.
   */
  method NormalizeDistanceMap(m: array2<real>) returns (r: array2<Float>)
    ensures fresh(r) && r.Length0 == m.Length0 && r.Length1 == m.Length1
    ensures forall i, j :: 0 <= i < m.Length0 && 0 <= j < m.Length1 ==> r[i, j] == NormalizedEntry(m, i, j)
    ensures MaxAbs(m, m.Length0) > 0.0 ==>
      forall i, j :: 0 <= i < m.Length0 && 0 <= j < m.Length1 ==> r[i, j].Finite? && -1.0 <= r[i, j].value <= 1.0
    ensures MaxAbs(m, m.Length0) == 0.0 ==> forall i, j :: 0 <= i < m.Length0 && 0 <= j < m.Length1 ==> r[i, j] == NaN
  {
    r := new Float[m.Length0, m.Length1]((i, j) => NaN);
    MaxAbsBounds(m, m.Length0);
    var maxAbs := MaxAbs(m, m.Length0);
    var y := 0;
    while y < m.Length1
      invariant 0 <= y <= m.Length1
      invariant forall i, j :: 0 <= i < m.Length0 && 0 <= j < y ==> r[i, j] == Divide(m[i, j], maxAbs)
    {
      var x := 0;
      while x < m.Length0
        invariant 0 <= x <= m.Length0
        invariant forall i, j :: 0 <= i < m.Length0 && 0 <= j < m.Length1 && Scanned(i, j, y, x) ==> r[i, j] == Divide(m[i, j], maxAbs)
      {
        r[x, y] := Divide(m[x, y], maxAbs);
        x := x + 1;
      }
      y := y + 1;
    }
    forall i, j | 0 <= i < m.Length0 && 0 <= j < m.Length1 && maxAbs > 0.0
      ensures -1.0 <= m[i, j] / maxAbs <= 1.0
    {
      QuotientInUnitRange(m[i, j], maxAbs);
    }
  }

  /** `(x, y)` is on the first or last row or column of a `width` by `height` grid. */
  predicate OnBorder(x: int, y: int, width: int, height: int)
  {
    x == 0 || y == 0 || x == width - 1 || y == height - 1
  }

  /**
   * The cell one walk step moves to from the inner cell `(x, y)`: the first
   * strictly higher 4-neighbour in the order right, left, down, up; none at a
   * local maximum.
   */
  function Uphill(df: array2<real>, x: int, y: int): (next: Option<(int, int)>)
    reads df
    requires 1 <= x < df.Length0 - 1 && 1 <= y < df.Length1 - 1
    ensures next.Some? ==> (0 <= next.value.0 < df.Length0 && 0 <= next.value.1 < df.Length1 &&
      Sqr((next.value.0 - x) as real) + Sqr((next.value.1 - y) as real) == 1.0 && df[next.value.0, next.value.1] > df[x, y])
    ensures next.None? <==>
      df[x + 1, y] <= df[x, y] && df[x - 1, y] <= df[x, y] && df[x, y + 1] <= df[x, y] && df[x, y - 1] <= df[x, y]
  {
    var v := df[x, y];
    if df[x + 1, y] > v then Some((x + 1, y))
    else if df[x - 1, y] > v then Some((x - 1, y))
    else if df[x, y + 1] > v then Some((x, y + 1))
    else if df[x, y - 1] > v then Some((x, y - 1))
    else None
  }

  /** The cells of `df` holding more than `v`: the walk's termination measure. */
  ghost function Above(df: array2<real>, v: real): set<(int, int)>
    reads df
  {
    set i, j | 0 <= i < df.Length0 && 0 <= j < df.Length1 && df[i, j] > v :: (i, j)
  }

  /** Moving to a strictly higher cell removes at least that cell from the measure. */
  lemma AboveShrinks(df: array2<real>, v: real, i: int, j: int)
    requires 0 <= i < df.Length0 && 0 <= j < df.Length1 && df[i, j] > v
    ensures Above(df, df[i, j]) < Above(df, v)
  {
    assert (i, j) in Above(df, v) - Above(df, df[i, j]);
  }

  /**
   * Where the walk of `DropCircleOntoSDF` from `(x, y)` stops: at the first
   * border cell it reaches, or at an inner local maximum. Every step goes
   * strictly uphill on a finite grid, so the walk ends.
   */
  function WalkEnd(df: array2<real>, x: int, y: int): (e: (int, int))
    reads df
    requires 0 <= x < df.Length0 && 0 <= y < df.Length1
    ensures 0 <= e.0 < df.Length0 && 0 <= e.1 < df.Length1
    decreases Above(df, df[x, y])
  {
    if OnBorder(x, y, df.Length0, df.Length1) then (x, y)
    else
      match Uphill(df, x, y)
      case None => (x, y)
      case Some(next) =>
        AboveShrinks(df, df[x, y], next.0, next.1);
        WalkEnd(df, next.0, next.1)
  }

  /** The walk stops on the border or at an inner cell with no strictly higher 4-neighbour. */
  lemma {:induction false} WalkEndStops(df: array2<real>, x: int, y: int)
    requires 0 <= x < df.Length0 && 0 <= y < df.Length1
    ensures var e := WalkEnd(df, x, y);
      OnBorder(e.0, e.1, df.Length0, df.Length1) || Uphill(df, e.0, e.1).None?
    decreases Above(df, df[x, y])
  {
    if !OnBorder(x, y, df.Length0, df.Length1) && Uphill(df, x, y).Some? {
      var next := Uphill(df, x, y).value;
      AboveShrinks(df, df[x, y], next.0, next.1);
      WalkEndStops(df, next.0, next.1);
    }
  }

  /** The walk never ends lower than it started. */
  lemma {:induction false} WalkEndClimbs(df: array2<real>, x: int, y: int)
    requires 0 <= x < df.Length0 && 0 <= y < df.Length1
    ensures var e := WalkEnd(df, x, y); df[e.0, e.1] >= df[x, y]
    decreases Above(df, df[x, y])
  {
    if !OnBorder(x, y, df.Length0, df.Length1) && Uphill(df, x, y).Some? {
      var next := Uphill(df, x, y).value;
      AboveShrinks(df, df[x, y], next.0, next.1);
      WalkEndClimbs(df, next.0, next.1);
    }
  }

  /** The grid cell `(int)(x * n)` a drop at `x` in [0, 1) starts from. */
  function StartCell(x: real, n: int): (s: int)
    requires 0.0 <= x < 1.0 && n > 0
    ensures 0 <= s < n
  {
    ScaleBelow(x, n as real);
    Truncate(x * n as real)
  }

  /** Coordinate `i` lies in the stamp's range `(int)(center - value) <= i < center + value`. */
  predicate InStampRange(i: int, center: int, value: real)
  {
    Truncate(center as real - value) <= i && (i as real) < center as real + value
  }

  /**
   * How much the stamp of a circle of `value` cells around `(cx, cy)` lowers
   * cell `(i, j)`: `value - dist` inside the stamp's square and disk, else 0.
   */
  function StampDelta(cx: int, cy: int, value: real, i: int, j: int, sqrt: real -> real): real
  {
    if InStampRange(i, cx, value) && InStampRange(j, cy, value) && CellDistance(i, j, cx, cy, sqrt) < value
    then value - CellDistance(i, j, cx, cy, sqrt)
    else 0.0
  }

  /**
   * The stamp never raises a cell, lowers exactly the cells of its square that
   * lie strictly inside the disk, and leaves every other cell alone.
   */
  lemma StampDeltaLowers(cx: int, cy: int, value: real, i: int, j: int, sqrt: real -> real)
    ensures StampDelta(cx, cy, value, i, j, sqrt) >= 0.0
    ensures StampDelta(cx, cy, value, i, j, sqrt) > 0.0 <==>
      InStampRange(i, cx, value) && InStampRange(j, cy, value) && CellDistance(i, j, cx, cy, sqrt) < value
  {
  }

  /**
   * `DropCircleOntoSDF`: walks from the cell under `(x, y)` to where
   * `WalkEnd` stops; fails there on the border. Otherwise the circle has its
   * centre at that cell and radius `(value + 2) / width`; the drop fails when
   * the radius is below `minRadius` or the cell was already carved (its
   * original value is higher), and else succeeds after lowering the field by
   * `StampDelta` around the cell. A failed drop leaves the field as it was.
   */
  method DropCircleOntoSDF(x: real, y: real, width: int, height: int, df: array2<real>, original: array2<real>,
                           minRadius: real, sqrt: real -> real)
    returns (found: bool, c: Circle)
    requires 0.0 <= x < 1.0 && 0.0 <= y < 1.0
    requires df.Length0 == width && df.Length1 == height && original.Length0 == width && original.Length1 == height
    requires df != original
    modifies df
    ensures width == 0 || height == 0 ==> !found && unchanged(df)
    ensures width > 0 && height > 0 ==>
      var e := old(WalkEnd(df, StartCell(x, width), StartCell(y, height)));
      if OnBorder(e.0, e.1, width, height) then !found && unchanged(df)
      else
        var value := old(df[e.0, e.1]) + 2.0;
        c == Circle(e.0 as real / width as real, e.1 as real / height as real, value / width as real, 1) &&
        if c.radius < minRadius || original[e.0, e.1] > old(df[e.0, e.1]) then !found && unchanged(df)
        else found && forall i, j :: 0 <= i < width && 0 <= j < height ==>
          df[i, j] == old(df[i, j]) - StampDelta(e.0, e.1, value, i, j, sqrt)
  {
    found := false;
    c := Circle(0.0, 0.0, 0.0, 0);
    var sdfX := Truncate(x * width as real);
    var sdfY := Truncate(y * height as real);
    ghost var walking := width > 0 && height > 0;
    ghost var end := if walking then WalkEnd(df, StartCell(x, width), StartCell(y, height)) else (0, 0);
    while true
      invariant unchanged(df)
      invariant !walking ==> OnBorder(sdfX, sdfY, width, height)
      invariant walking ==> 0 <= sdfX < width && 0 <= sdfY < height && WalkEnd(df, sdfX, sdfY) == end
      decreases if walking then Above(df, df[sdfX, sdfY]) else {}
    {
      if sdfX == 0 || sdfY == 0 || sdfX == width - 1 || sdfY == height - 1 {
        return;
      }
      match Uphill(df, sdfX, sdfY)
      case None =>
        break;
      case Some(next) =>
        AboveShrinks(df, df[sdfX, sdfY], next.0, next.1);
        sdfX, sdfY := next.0, next.1;
    }
    assert (sdfX, sdfY) == end;
    var value := df[sdfX, sdfY] + 2.0;
    c := Circle(sdfX as real / width as real, sdfY as real / height as real, value / width as real, 1);
    if c.radius < minRadius {
      return;
    }
    if original[sdfX, sdfY] > df[sdfX, sdfY] {
      return;
    }
    Stamp(df, sdfX, sdfY, value, sqrt);
    found := true;
  }

  /**
   * The stamping loops of `DropCircleOntoSDF`: lowers the field by `StampDelta`
   * around `(sdfX, sdfY)`. Both loops run over the stamp's range clamped to the
   * field, so they end after at most `df.Length0 * df.Length1` steps whatever
   * the value; the source's loops run over the unclamped range on `int`
   * counters and never end for the value a field without edges holds (see
   * `NoEdgeStampNeverEnds`).
   */
  method Stamp(df: array2<real>, sdfX: int, sdfY: int, value: real, sqrt: real -> real)
    modifies df
    ensures forall i, j :: 0 <= i < df.Length0 && 0 <= j < df.Length1 ==>
      df[i, j] == old(df[i, j]) - StampDelta(sdfX, sdfY, value, i, j, sqrt)
  {
    var cx := Truncate(sdfX as real - value);
    cx := if cx < 0 then 0 else cx;
    while cx < df.Length0 && (cx as real) < sdfX as real + value
      invariant 0 <= cx && Truncate(sdfX as real - value) <= cx
      invariant forall i, j :: 0 <= i < df.Length0 && 0 <= j < df.Length1 ==>
        df[i, j] == old(df[i, j]) - (if i < cx then StampDelta(sdfX, sdfY, value, i, j, sqrt) else 0.0)
      decreases df.Length0 - cx
    {
      StampColumn(df, sdfX, sdfY, value, sqrt, cx);
      cx := cx + 1;
    }
  }

  /** One pass of the outer stamping loop: lowers column `cx` by `StampDelta`. */
  method StampColumn(df: array2<real>, sdfX: int, sdfY: int, value: real, sqrt: real -> real, cx: int)
    requires 0 <= cx < df.Length0 && Truncate(sdfX as real - value) <= cx && (cx as real) < sdfX as real + value
    modifies df
    ensures forall i, j :: 0 <= i < df.Length0 && 0 <= j < df.Length1 ==>
      df[i, j] == old(df[i, j]) - (if i == cx then StampDelta(sdfX, sdfY, value, i, j, sqrt) else 0.0)
  {
    var cy := Truncate(sdfY as real - value);
    cy := if cy < 0 then 0 else cy;
    while cy < df.Length1 && (cy as real) < sdfY as real + value
      invariant 0 <= cy && Truncate(sdfY as real - value) <= cy
      invariant forall i, j :: 0 <= i < df.Length0 && 0 <= j < df.Length1 ==>
        df[i, j] == old(df[i, j]) - (if i == cx && j < cy then StampDelta(sdfX, sdfY, value, i, j, sqrt) else 0.0)
      decreases df.Length1 - cy
    {
      var dist := CellDistance(cx, cy, sdfX, sdfY, sqrt);
      if dist < value {
        df[cx, cy] := df[cx, cy] - (value - dist);
      }
      cy := cy + 1;
    }
  }

  /**
   * The inner stamping loop as the source writes it,
   * `for (int cy = start; cy < sdfY + sdfValue; cy++)` on a C# `int`: whether
   * the guard fails within `steps` unchecked increments from `cy`.
   */
  predicate SourceStampLoopEndsWithin(cy: int, center: int, value: real, steps: nat)
    requires Int32Min <= cy <= Int32Max
    decreases steps
  {
    !((cy as real) < center as real + value) ||
    (steps > 0 && SourceStampLoopEndsWithin(Wrap32(cy + 1), center, value, steps - 1))
  }

  /**
   * On a field without edge pixels every entry is `float.MaxValue`, and the
   * stamp's value is at least that. The source's guard `cy < sdfY + sdfValue`
   * then holds for every `int` counter, and `cy++` wraps from `int.MaxValue` to
   * `int.MinValue`: however many increments, the loop as written never ends.
   */
  lemma {:induction false} NoEdgeStampNeverEnds(cy: int, center: int, value: real, steps: nat)
    requires Int32Min <= cy <= Int32Max && 0 <= center && value >= FloatMax
    ensures !SourceStampLoopEndsWithin(cy, center, value, steps)
    decreases steps
  {
    if steps > 0 {
      NoEdgeStampNeverEnds(Wrap32(cy + 1), center, value, steps - 1);
    }
  }

  /**
   * On a field whose cells all hold the same value no neighbour is higher, so
   * a drop stops where it lands: on a field without edges the walk ends at the
   * start cell with the value `float.MaxValue`.
   */
  lemma FlatFieldWalkStays(df: array2<real>, x: int, y: int, v: real)
    requires 0 <= x < df.Length0 && 0 <= y < df.Length1
    requires forall i, j :: 0 <= i < df.Length0 && 0 <= j < df.Length1 ==> df[i, j] == v
    ensures WalkEnd(df, x, y) == (x, y) && df[x, y] == v
  {
    if !OnBorder(x, y, df.Length0, df.Length1) {
      assert Uphill(df, x, y).None?;
    }
  }
}
