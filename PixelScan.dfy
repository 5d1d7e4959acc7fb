/**
 * The per-pixel scan of Bubbles/CircleEvaluator.cs, `GetCirclesForEachPixel`:
 * the clamped scan box of a circle, the corner-in-disk test and the relation
 * between the two. Kept apart from the fingerprint bookkeeping so that the
 * real arithmetic stays in small proofs.
 */
module PixelScan {
  import opened Geometry

  /** `(int)Math.Floor(v)`. */
  function Floor(v: real): (f: int)
    ensures f as real <= v < f as real + 1.0
  {
    v.Floor
  }

  /** `(int)Math.Ceiling(v)`. */
  function Ceiling(v: real): (c: int)
    ensures v <= c as real < v + 1.0
  {
    -((-v).Floor)
  }

  /** `Math.Floor(v)`, raised to 0 when below: the lower end of a scan range. */
  function LowerClamp(v: real): (lo: nat)
    ensures lo == 0 || lo as real <= v
    ensures v < lo as real + 1.0
  {
    if Floor(v) < 0 then 0 else Floor(v)
  }

  /** `Math.Ceiling(v)`, lowered to `limit` when above: the exclusive upper end of a scan range. */
  function UpperClamp(v: real, limit: nat): (hi: int)
    ensures hi <= limit
    ensures hi == limit || v <= hi as real
    ensures hi as real < v + 1.0
  {
    if Ceiling(v) > limit then limit else Ceiling(v)
  }

  /** The local `SqrDist`: the squared distance of `(x1, y1)` and `(x2, y2)`. */
  function SqrDist(x1: real, x2: real, y1: real, y2: real): (d: real)
    ensures d >= 0.0
  {
    Sqr(x1 - x2) + Sqr(y1 - y2)
  }

  /**
   * Coordinate `v` lies in the scan range of a circle extent `[lo, hi]` on an
   * axis of `size` pixels: from `Math.Floor(lo * size)`, raised to 0, up to
   * `Math.Ceiling(hi * size)`, lowered to `size`, exclusive.
   */
  predicate InScan(lo: real, hi: real, size: nat, v: nat)
  {
    LowerClamp(lo * size as real) <= v < UpperClamp(hi * size as real, size)
  }

  /**
   * Pixel `(x, y)` is marked for circle `c`: it lies in the circle's half-open,
   * clamped scan box and its corner `(x / width, y / height)` lies in the disk.
   */
  predicate Covers(c: Circle, width: nat, height: nat, x: nat, y: nat)
  {
    InScan(c.y - c.radius, c.y + c.radius, height, y) && InScan(c.x - c.radius, c.x + c.radius, width, x)
    && SqrDist(x as real / width as real, c.x, y as real / height as real, c.y) <= c.radius * c.radius
  }

  /**
   * The scan box loses no pixel of the disk except on its far edges: a pixel
   * of the image whose corner is in the disk is marked unless the corner lies
   * exactly on the right-most column `c.x + c.radius` or the bottom-most row
   * `c.y + c.radius` of the disk, where the half-open box stops.
   */
  lemma DiskPixelIsCovered(c: Circle, width: nat, height: nat, x: nat, y: nat)
    requires x < width && y < height && c.radius >= 0.0
    requires SqrDist(x as real / width as real, c.x, y as real / height as real, c.y) <= c.radius * c.radius
    requires x as real / width as real < c.x + c.radius && y as real / height as real < c.y + c.radius
    ensures Covers(c, width, height, x, y)
  {
    var fx := x as real / width as real;
    var fy := y as real / height as real;
    WithinRadius(fx - c.x, fy - c.y, c.radius);
    WithinRadius(fy - c.y, fx - c.x, c.radius);
    InScanRange(x, width, c.x - c.radius, c.x + c.radius);
    InScanRange(y, height, c.y - c.radius, c.y + c.radius);
  }

  /** A point of the disk is within `r` of the centre along each axis. */
  lemma WithinRadius(dx: real, dy: real, r: real)
    requires r >= 0.0 && Sqr(dx) + Sqr(dy) <= r * r
    ensures -r <= dx <= r
  {
    if dx > r {
      SquareGrows(r, dx);
    } else if dx < -r {
      SquareGrows(r, -dx);
    }
  }

  lemma SquareGrows(a: real, b: real)
    requires 0.0 <= a < b
    ensures a * a < Sqr(b)
  {
    calc {
      a * a;
      <= a * b;
      < b * b;
    }
  }

  /**
   * A coordinate `v` in `[0, size)` whose fraction `v / size` lies in
   * `[lo, hi)` is inside the clamped scan range from `lo * size` to `hi * size`.
   */
  lemma InScanRange(v: nat, size: nat, lo: real, hi: real)
    requires v < size
    requires lo <= v as real / size as real < hi
    ensures InScan(lo, hi, size, v)
  {
    ScanStartBelow(v, size, lo);
    ScanEndAbove(v, size, hi);
  }

  lemma ScanStartBelow(v: nat, size: nat, lo: real)
    requires v < size && lo <= v as real / size as real
    ensures LowerClamp(lo * size as real) <= v
  {
    var s := size as real;
    var f := v as real / s;
    assert f * s == v as real;
    ScaleLe(lo, f, s);
    LowerClampBelow(lo * s, v);
  }

  lemma ScanEndAbove(v: nat, size: nat, hi: real)
    requires v < size && v as real / size as real < hi
    ensures v < UpperClamp(hi * size as real, size)
  {
    var s := size as real;
    var f := v as real / s;
    assert f * s == v as real;
    ScaleLt(f, hi, s);
    UpperClampAbove(hi * s, size, v);
  }

  lemma LowerClampBelow(a: real, v: nat)
    requires a <= v as real
    ensures LowerClamp(a) <= v
  {
  }

  lemma UpperClampAbove(b: real, limit: nat, v: nat)
    requires v as real < b && v < limit
    ensures v < UpperClamp(b, limit)
  {
  }

  lemma ScaleLe(a: real, b: real, s: real)
    requires a <= b && s > 0.0
    ensures a * s <= b * s
  {
    assert b * s - a * s == (b - a) * s;
  }

  lemma ScaleLt(a: real, b: real, s: real)
    requires a < b && s > 0.0
    ensures a * s < b * s
  {
    assert b * s - a * s == (b - a) * s;
  }

  /** A pixel is covered only inside the circle's clamped scan box. */
  lemma CoveredInsideBox(c: Circle, width: nat, height: nat)
    ensures forall x: nat, y: nat :: Covers(c, width, height, x, y) ==>
      LowerClamp((c.x - c.radius) * width as real) <= x < UpperClamp((c.x + c.radius) * width as real, width)
      && LowerClamp((c.y - c.radius) * height as real) <= y < UpperClamp((c.y + c.radius) * height as real, height)
  {
    forall x: nat, y: nat | Covers(c, width, height, x, y)
      ensures InScan(c.x - c.radius, c.x + c.radius, width, x) && InScan(c.y - c.radius, c.y + c.radius, height, y)
    {
      CoveredPointInsideBox(c, width, height, x, y);
    }
  }

  lemma CoveredPointInsideBox(c: Circle, width: nat, height: nat, x: nat, y: nat)
    requires Covers(c, width, height, x, y)
    ensures InScan(c.x - c.radius, c.x + c.radius, width, x) && InScan(c.y - c.radius, c.y + c.radius, height, y)
  {
  }

  /** Inside the scan box, a pixel whose corner is in the disk is covered. */
  lemma InBoxAndDiskIsCovered(c: Circle, width: nat, height: nat, x: nat, y: nat)
    requires InScan(c.x - c.radius, c.x + c.radius, width, x) && InScan(c.y - c.radius, c.y + c.radius, height, y)
    requires SqrDist(x as real / width as real, c.x, y as real / height as real, c.y) <= c.radius * c.radius
    ensures Covers(c, width, height, x, y)
  {
  }

  /** A covered pixel has its corner in the disk. */
  lemma CoveredIsInDisk(c: Circle, width: nat, height: nat, x: nat, y: nat)
    requires Covers(c, width, height, x, y)
    ensures SqrDist(x as real / width as real, c.x, y as real / height as real, c.y) <= c.radius * c.radius
  {
  }
}
