/**
 * Bubbles/CircleEvaluator.cs: the reconstruction pipeline. Every pixel gets a
 * fingerprint of the circles that cover it (`GetCirclesForEachPixel`), pixels
 * with equal fingerprints are grouped into segments whose mean grey value is
 * quantised (`GetCircleIntersectionColors`), every pixel takes its segment's
 * grey value (`CreatePixelsFromCircleIntersectionColors`), and the result is
 * compared with the source image (`CalculateError`).
 *
 * The `Parallel.For` passes are modelled as sequential loops in the order
 * circle by circle, and row by row then column by column; the pixel of column
 * `x` and row `y` is `x + width * y`.
 */
module CircleEvaluator {
  import opened Common
  import opened Geometry
  import opened BitArrays
  import opened PixelScan

  /* ---------------------------------------------------------------------- */
  /* Coverage fingerprints: GetCirclesForEachPixel                           */
  /* ---------------------------------------------------------------------- */

  /**
   * `circles.Length / sizeof(ulong) + 1`, the words per fingerprint: enough
   * for bit `i` of every circle index `i < n`, eight bits to a word.
   */
  function WordsPerFingerprint(n: nat): (size: nat)
    ensures size >= 1 && n < BitsPerWord * size
    ensures forall i :: 0 <= i < n ==> i / BitsPerWord < size
  {
    n / BitsPerWord + 1
  }

  /** The pixel of column `x` and row `y`: `x + width * y`, always inside the image. */
  function PixelIndex(width: nat, height: nat, x: nat, y: nat): (p: nat)
    requires x < width && y < height
    ensures p < width * height
  {
    RowMajorInRange(width, height, x, y);
    x + width * y
  }

  lemma RowMajorInRange(cols: nat, rows: nat, x: nat, y: nat)
    requires x < cols && y < rows
    ensures x + cols * y < cols * rows
  {
    calc {
      x + cols * y;
      < cols + cols * y;
      == cols * (y + 1);
      <= { MulLe(cols, y + 1, rows); }
      cols * rows;
    }
  }

  lemma MulLe(a: nat, b: nat, c: nat)
    requires b <= c
    ensures a * b <= a * c
  {
  }

  /** Distinct columns and rows give distinct pixels. */
  lemma RowMajorInjective(cols: nat, x1: nat, y1: nat, x2: nat, y2: nat)
    requires x1 < cols && x2 < cols && x1 + cols * y1 == x2 + cols * y2
    ensures x1 == x2 && y1 == y2
  {
    if y1 < y2 {
      RowMajorInRange(cols, y2, x1, y1);
    } else if y2 < y1 {
      RowMajorInRange(cols, y1, x2, y2);
    }
  }

  /** Slice `p` of `count` slices of `size` words ends inside the backing array. */
  lemma SliceInRange(p: nat, count: nat, size: nat)
    requires p < count
    ensures p * size + size <= count * size
  {
    MulLe(size, p + 1, count);
  }

  /** Word `p * size + i / 8`, which holds bit `i` of pixel `p`, lies inside the backing array. */
  lemma BitWordInRange(p: nat, count: nat, size: nat, i: nat)
    requires p < count && i < BitsPerWord * size
    ensures p * size + i / BitsPerWord < count * size
  {
    RowMajorInRange(size, count, i / BitsPerWord, p);
  }

  /**
   * Bit `i` of pixel `p`'s fingerprint, read straight from the backing words
   * with `size` words per pixel; false outside the array.
   */
  ghost predicate PixelBit(words: seq<Word>, size: nat, p: nat, i: nat)
  {
    var j := p * size + i / BitsPerWord;
    j < |words| && words[j][i % BitsPerWord]
  }

  /** Setting bit `k` of pixel `p` changes exactly that bit among all pixels' bits below `8 * size`. */
  lemma SetBitEffect(before: seq<Word>, size: nat, p: nat, k: nat)
    requires k < BitsPerWord * size && p * size + k / BitsPerWord < |before|
    ensures var j := p * size + k / BitsPerWord;
      var after := before[j := SetWord(before[j], k % BitsPerWord, true)];
      forall q: nat, i: nat :: i < BitsPerWord * size ==>
        PixelBit(after, size, q, i) == (PixelBit(before, size, q, i) || (q == p && i == k))
  {
    var j := p * size + k / BitsPerWord;
    var after := before[j := SetWord(before[j], k % BitsPerWord, true)];
    forall q: nat, i: nat | i < BitsPerWord * size
      ensures PixelBit(after, size, q, i) == (PixelBit(before, size, q, i) || (q == p && i == k))
    {
      var j' := q * size + i / BitsPerWord;
      if j' == j && i % BitsPerWord == k % BitsPerWord {
        RowMajorInjective(size, i / BitsPerWord, q, k / BitsPerWord, p);
        assert i == BitsPerWord * (i / BitsPerWord) + i % BitsPerWord;
        assert k == BitsPerWord * (k / BitsPerWord) + k % BitsPerWord;
      }
    }
  }

  /** `after` differs from `before` at most in the low bytes of its words. */
  ghost predicate SameHighBits(after: seq<Word>, before: seq<Word>)
  {
    |after| == |before|
    && forall j, b :: 0 <= j < |after| && BitsPerWord <= b < WordWidth ==> after[j][b] == before[j][b]
  }

  /**
   * Row `y` of circle `k` is marked from column 0 up to `xEnd`: each pixel
   * bit below `8 * size` is as in `before`, except that bit `k` is now also
   * set on the pixels of row `y` left of `xEnd` that the circle covers.
   */
  ghost predicate RowMarked(now: seq<Word>, before: seq<Word>, size: nat, width: nat, height: nat,
                            k: nat, c: Circle, y: nat, xEnd: nat)
  {
    forall x', y', i :: 0 <= x' < width && 0 <= y' < height && 0 <= i < BitsPerWord * size ==>
      PixelBit(now, size, PixelIndex(width, height, x', y'), i)
      == (PixelBit(before, size, PixelIndex(width, height, x', y'), i)
          || (i == k && y' == y && x' < xEnd && Covers(c, width, height, x', y')))
  }

  /** As `RowMarked`, for all rows above `yEnd` of the circle's box. */
  ghost predicate BoxMarked(now: seq<Word>, before: seq<Word>, size: nat, width: nat, height: nat,
                            k: nat, c: Circle, yEnd: nat)
  {
    forall x', y', i :: 0 <= x' < width && 0 <= y' < height && 0 <= i < BitsPerWord * size ==>
      PixelBit(now, size, PixelIndex(width, height, x', y'), i)
      == (PixelBit(before, size, PixelIndex(width, height, x', y'), i)
          || (i == k && y' < yEnd && Covers(c, width, height, x', y')))
  }

  /**
   * The fingerprints hold the coverage of the first `kEnd` circles: bit `i`
   * of pixel `(x, y)` is set exactly when circle `i` is one of them and
   * covers the pixel.
   */
  ghost predicate Fingerprinted(words: seq<Word>, size: nat, circles: seq<Circle>, width: nat, height: nat, kEnd: nat)
  {
    forall x, y, i :: 0 <= x < width && 0 <= y < height && 0 <= i < BitsPerWord * size ==>
      PixelBit(words, size, PixelIndex(width, height, x, y), i)
      == (i < kEnd && i < |circles| && Covers(circles[i], width, height, x, y))
  }

  /** One pixel step of the row scan: bit `k` of pixel `(x, y)` is set when the circle covers it. */
  lemma MarkPixel(before: seq<Word>, mid: seq<Word>, after: seq<Word>, size: nat, width: nat, height: nat,
                  k: nat, c: Circle, y: nat, x: nat)
    requires x < width && y < height && k < BitsPerWord * size && |mid| == width * height * size
    requires RowMarked(mid, before, size, width, height, k, c, y, x)
    requires var j := PixelIndex(width, height, x, y) * size + k / BitsPerWord;
      j < |mid| &&
      after == (if Covers(c, width, height, x, y) then mid[j := SetWord(mid[j], k % BitsPerWord, true)] else mid)
    ensures RowMarked(after, before, size, width, height, k, c, y, x + 1)
  {
    var p := PixelIndex(width, height, x, y);
    if Covers(c, width, height, x, y) {
      SetBitEffect(mid, size, p, k);
      forall x', y' | 0 <= x' < width && 0 <= y' < height && PixelIndex(width, height, x', y') == p
        ensures x' == x && y' == y
      {
        RowMajorInjective(width, x', y', x, y);
      }
    }
  }

  /** Before the first column of the scan range nothing of the row is marked. */
  lemma RowStart(words: seq<Word>, size: nat, width: nat, height: nat, k: nat, c: Circle, y: nat)
    ensures RowMarked(words, words, size, width, height, k, c, y, LowerClamp((c.x - c.radius) * width as real))
  {
    CoveredInsideBox(c, width, height);
  }

  /** At the end of the scan range every covered pixel of the row is marked. */
  lemma RowEnd(now: seq<Word>, before: seq<Word>, size: nat, width: nat, height: nat, k: nat, c: Circle, y: nat, x: nat)
    requires RowMarked(now, before, size, width, height, k, c, y, x)
    requires UpperClamp((c.x + c.radius) * width as real, width) <= x
    ensures RowMarked(now, before, size, width, height, k, c, y, width)
  {
    CoveredInsideBox(c, width, height);
  }

  lemma BoxStart(words: seq<Word>, size: nat, width: nat, height: nat, k: nat, c: Circle)
    ensures BoxMarked(words, words, size, width, height, k, c, LowerClamp((c.y - c.radius) * height as real))
  {
    CoveredInsideBox(c, width, height);
  }

  /** A finished row extends the marked part of the box by one row. */
  lemma BoxStep(before: seq<Word>, mid: seq<Word>, after: seq<Word>, size: nat, width: nat, height: nat,
                k: nat, c: Circle, y: nat)
    requires BoxMarked(mid, before, size, width, height, k, c, y)
    requires RowMarked(after, mid, size, width, height, k, c, y, width)
    ensures BoxMarked(after, before, size, width, height, k, c, y + 1)
  {
  }

  lemma BoxEnd(now: seq<Word>, before: seq<Word>, size: nat, width: nat, height: nat, k: nat, c: Circle, y: nat)
    requires BoxMarked(now, before, size, width, height, k, c, y)
    requires UpperClamp((c.y + c.radius) * height as real, height) <= y
    ensures BoxMarked(now, before, size, width, height, k, c, height)
  {
    CoveredInsideBox(c, width, height);
  }

  /** A marked box adds circle `k` to fingerprints holding the first `k` circles. */
  lemma CircleStep(before: seq<Word>, after: seq<Word>, size: nat, circles: seq<Circle>, width: nat, height: nat, k: nat)
    requires k < |circles|
    requires Fingerprinted(before, size, circles, width, height, k)
    requires BoxMarked(after, before, size, width, height, k, circles[k], height)
    ensures Fingerprinted(after, size, circles, width, height, k + 1)
  {
  }

  /**
   * The fingerprints of the pixels are laid out in pixel order: fingerprint
   * `p` owns the `p`-th slice of the backing array, which holds exactly one
   * slice per pixel.
   */
  ghost predicate Layout(fbas: array<FastBitArray>, pool: BitPool)
    reads fbas, pool
  {
    pool.words.Length == fbas.Length * pool.perInstanceSize
    && Readable(fbas, pool)
    && forall p :: 0 <= p < fbas.Length ==> fbas[p].index == p * pool.perInstanceSize
  }

  /** Every fingerprint is a valid instance of `pool`, so its slice can be read. */
  ghost predicate Readable(fbas: array<FastBitArray>, pool: BitPool)
    reads fbas, pool
  {
    forall p :: 0 <= p < fbas.Length ==> fbas[p].pool == pool && fbas[p].Valid()
  }

  /** No fingerprint has a cached hash. */
  ghost predicate HashesReset(fbas: array<FastBitArray>)
    reads fbas, fbas[..]
  {
    forall p :: 0 <= p < fbas.Length ==> fbas[p].hashCode == 0
  }

  /**
   * The constructor loop: `count` fingerprints created in order from a fresh
   * cursor, so fingerprint `p` owns slice `p`.
   */
  method AllocateFingerprints(pool: BitPool, count: nat) returns (fbas: array<FastBitArray>)
    requires pool.curIndex == 0 && pool.words.Length == count * pool.perInstanceSize
    modifies pool`curIndex
    ensures fresh(fbas) && fbas.Length == count && Layout(fbas, pool) && HashesReset(fbas)
    ensures forall p :: 0 <= p < count ==> fresh(fbas[p])
  {
    var made: seq<FastBitArray> := [];
    while |made| < count
      invariant |made| <= count
      invariant pool.curIndex == |made| * pool.perInstanceSize
      invariant forall p :: 0 <= p < |made| ==>
        fresh(made[p]) && made[p].pool == pool && made[p].index == p * pool.perInstanceSize && made[p].hashCode == 0
    {
      var fa := new FastBitArray(pool);
      made := made + [fa];
    }
    fbas := new FastBitArray[count](p requires 0 <= p < count => made[p]);
    forall p | 0 <= p < count ensures fbas[p].Valid() {
      SliceInRange(p, count, pool.perInstanceSize);
    }
  }

  /**
   * One row `y` of the scan box of circle `k`: every pixel of the row inside
   * the column range whose corner is in the disk gets bit `k` set; no bit is
   * cleared and nothing else changes.
   */
  method MarkRow(fbas: array<FastBitArray>, pool: BitPool, width: nat, height: nat, k: nat, c: Circle, y: nat)
    requires Layout(fbas, pool) && HashesReset(fbas) && fbas.Length == width * height
    requires k < BitsPerWord * pool.perInstanceSize
    requires y < height && InScan(c.y - c.radius, c.y + c.radius, height, y)
    modifies pool.words, fbas[..]
    ensures Layout(fbas, pool) && HashesReset(fbas)
    ensures RowMarked(pool.words[..], old(pool.words[..]), pool.perInstanceSize, width, height, k, c, y, width)
    ensures SameHighBits(pool.words[..], old(pool.words[..]))
  {
    var size := pool.perInstanceSize;
    var fy := y as real / height as real;
    var minX := Floor((c.x - c.radius) * width as real);
    if minX < 0 {
      minX := 0;
    }
    var maxX := Ceiling((c.x + c.radius) * width as real);
    if maxX > width {
      maxX := width;
    }
    assert minX == LowerClamp((c.x - c.radius) * width as real);
    assert maxX == UpperClamp((c.x + c.radius) * width as real, width);
    RowStart(pool.words[..], size, width, height, k, c, y);
    var x := minX;
    while x < maxX
      invariant minX <= x && (x <= maxX || x == minX)
      invariant Layout(fbas, pool) && HashesReset(fbas)
      invariant RowMarked(pool.words[..], old(pool.words[..]), size, width, height, k, c, y, x)
      invariant SameHighBits(pool.words[..], old(pool.words[..]))
    {
      var fx := x as real / width as real;
      ghost var mid := pool.words[..];
      var p := PixelIndex(width, height, x, y);
      BitWordInRange(p, fbas.Length, size, k);
      if SqrDist(fx, c.x, fy, c.y) <= c.radius * c.radius {
        InBoxAndDiskIsCovered(c, width, height, x, y);
        fbas[p].Set(k, true);
      } else {
        if Covers(c, width, height, x, y) {
          CoveredIsInDisk(c, width, height, x, y);
          assert false;
        }
      }
      MarkPixel(old(pool.words[..]), mid, pool.words[..], size, width, height, k, c, y, x);
      x := x + 1;
    }
    RowEnd(pool.words[..], old(pool.words[..]), size, width, height, k, c, y, x);
  }

  /**
   * The whole scan box of circle `k`: rows `minY .. maxY - 1`, each handled by
   * `MarkRow`. Afterwards bit `k` is set on exactly the pixels the circle
   * covers, in addition to the bits set before.
   */
  method MarkCircle(fbas: array<FastBitArray>, pool: BitPool, width: nat, height: nat, k: nat, c: Circle)
    requires Layout(fbas, pool) && HashesReset(fbas) && fbas.Length == width * height
    requires k < BitsPerWord * pool.perInstanceSize
    modifies pool.words, fbas[..]
    ensures Layout(fbas, pool) && HashesReset(fbas)
    ensures BoxMarked(pool.words[..], old(pool.words[..]), pool.perInstanceSize, width, height, k, c, height)
    ensures SameHighBits(pool.words[..], old(pool.words[..]))
  {
    var size := pool.perInstanceSize;
    var minY := Floor((c.y - c.radius) * height as real);
    if minY < 0 {
      minY := 0;
    }
    var maxY := Ceiling((c.y + c.radius) * height as real);
    if maxY > height {
      maxY := height;
    }
    assert minY == LowerClamp((c.y - c.radius) * height as real);
    assert maxY == UpperClamp((c.y + c.radius) * height as real, height);
    BoxStart(pool.words[..], size, width, height, k, c);
    var y := minY;
    while y < maxY
      invariant minY <= y && (y <= maxY || y == minY)
      invariant Layout(fbas, pool) && HashesReset(fbas)
      invariant BoxMarked(pool.words[..], old(pool.words[..]), size, width, height, k, c, y)
      invariant SameHighBits(pool.words[..], old(pool.words[..]))
    {
      ghost var mid := pool.words[..];
      MarkRow(fbas, pool, width, height, k, c, y);
      BoxStep(old(pool.words[..]), mid, pool.words[..], size, width, height, k, c, y);
      y := y + 1;
    }
    BoxEnd(pool.words[..], old(pool.words[..]), size, width, height, k, c, y);
  }

  /**
   * `fbas` is the coverage map of `circles` on a `width` by `height` image:
   * one fingerprint per pixel in pixel order, no cached hash, only the low
   * byte of each backing word in use, and bit `i` of the fingerprint of pixel
   * `(x, y)` set exactly when circle `i` covers the pixel.
   */
  ghost predicate IsCoverageMap(fbas: array<FastBitArray>, pool: BitPool, circles: seq<Circle>, width: nat, height: nat)
    reads fbas, fbas[..], pool, pool.words
  {
    fbas.Length == width * height && Layout(fbas, pool) && HashesReset(fbas)
    && |circles| < BitsPerWord * pool.perInstanceSize
    && HighBitsClear(pool.words[..])
    && Fingerprinted(pool.words[..], pool.perInstanceSize, circles, width, height, |circles|)
  }

  /** No backing word has a bit above its low byte set. */
  ghost predicate HighBitsClear(words: seq<Word>)
  {
    forall j, b :: 0 <= j < |words| && BitsPerWord <= b < WordWidth ==> !words[j][b]
  }

  /**
   * `GetCirclesForEachPixel`: sizes the shared pool for `|circles|` bits per
   * pixel, creates one fingerprint per pixel and marks every circle's covered
   * pixels. The result is the coverage map of the circles.
   */
  method GetCirclesForEachPixel(circles: seq<Circle>, width: nat, height: nat, pool: BitPool)
      returns (fbas: array<FastBitArray>)
    modifies pool
    ensures fresh(fbas) && fresh(pool.words)
    ensures pool.perInstanceSize == WordsPerFingerprint(|circles|)
    ensures IsCoverageMap(fbas, pool, circles, width, height)
  {
    var numPixels := width * height;
    pool.Init(|circles| / BitsPerWord + 1, numPixels);
    fbas := AllocateFingerprints(pool, numPixels);
    var size := pool.perInstanceSize;
    NothingMarkedYet(pool.words[..], size, circles, width, height);
    var k := 0;
    while k < |circles|
      invariant 0 <= k <= |circles|
      invariant fresh(pool.words) && pool.perInstanceSize == size && pool.words.Length == numPixels * size
      invariant forall p :: 0 <= p < fbas.Length ==> fresh(fbas[p])
      invariant Layout(fbas, pool) && HashesReset(fbas)
      invariant HighBitsClear(pool.words[..])
      invariant Fingerprinted(pool.words[..], size, circles, width, height, k)
    {
      ghost var before := pool.words[..];
      MarkCircle(fbas, pool, width, height, k, circles[k]);
      CircleStep(before, pool.words[..], size, circles, width, height, k);
      k := k + 1;
    }
  }

  /** Zeroed words hold the coverage of no circle. */
  lemma NothingMarkedYet(words: seq<Word>, size: nat, circles: seq<Circle>, width: nat, height: nat)
    requires forall j :: 0 <= j < |words| ==> words[j] == Zero
    ensures HighBitsClear(words)
    ensures Fingerprinted(words, size, circles, width, height, 0)
  {
    forall j, b | 0 <= j < |words| && 0 <= b < WordWidth ensures !words[j][b] {
      assert words[j] == Zero;
    }
    forall x, y, i | 0 <= x < width && 0 <= y < height && 0 <= i < BitsPerWord * size
      ensures !PixelBit(words, size, PixelIndex(width, height, x, y), i)
    {
    }
  }

  /** One instance of `Fingerprinted`. */
  lemma FingerprintedAt(words: seq<Word>, size: nat, circles: seq<Circle>, width: nat, height: nat, kEnd: nat, x: nat, y: nat, i: nat)
    requires Fingerprinted(words, size, circles, width, height, kEnd)
    requires x < width && y < height && i < BitsPerWord * size
    ensures PixelBit(words, size, PixelIndex(width, height, x, y), i)
      == (i < kEnd && i < |circles| && Covers(circles[i], width, height, x, y))
  {
  }

  /** Bit `i` of a pixel's slice is the pixel's bit `i` in the backing words. */
  lemma SliceBitIsPixelBit(words: seq<Word>, size: nat, p: nat, i: nat)
    requires p * size + size <= |words| && i < BitsPerWord * size
    ensures SliceBit(words[p * size .. p * size + size], i) == PixelBit(words, size, p, i)
  {
  }

  /** The circles that cover pixel `(x, y)`, one flag per circle. */
  ghost function CoveringCircles(circles: seq<Circle>, width: nat, height: nat, x: nat, y: nat): (flags: seq<bool>)
    ensures |flags| == |circles|
    ensures forall i :: 0 <= i < |circles| ==> flags[i] == Covers(circles[i], width, height, x, y)
  {
    seq(|circles|, i requires 0 <= i < |circles| => Covers(circles[i], width, height, x, y))
  }

  /**
   * The fingerprint of pixel `(x, y)` in a coverage map uses only low bytes,
   * and its bit `i` is set exactly when `i` is a circle index and that
   * circle covers the pixel.
   */
  lemma FingerprintOfPixel(fbas: array<FastBitArray>, pool: BitPool, circles: seq<Circle>, width: nat, height: nat, x: nat, y: nat)
    requires IsCoverageMap(fbas, pool, circles, width, height) && x < width && y < height
    ensures var s := fbas[PixelIndex(width, height, x, y)].Slice();
      LowByteOnly(s)
      && forall i: nat :: i < BitsPerWord * |s| ==>
        SliceBit(s, i) == (i < |circles| && CoveringCircles(circles, width, height, x, y)[i])
  {
    var p := PixelIndex(width, height, x, y);
    var size := pool.perInstanceSize;
    var words := pool.words[..];
    SliceInRange(p, fbas.Length, size);
    var s := words[p * size .. p * size + size];
    assert fbas[p].Slice() == s;
    forall j, k | 0 <= j < |s| && BitsPerWord <= k < WordWidth ensures !s[j][k] {
      assert s[j] == words[p * size + j];
    }
    var flags := CoveringCircles(circles, width, height, x, y);
    forall i: nat | i < BitsPerWord * |fbas[p].Slice()|
      ensures SliceBit(fbas[p].Slice(), i) == (i < |circles| && flags[i])
    {
      SliceBitIsPixelBit(words, size, p, i);
      FingerprintedAt(words, size, circles, width, height, |circles|, x, y, i);
      if i < |circles| {
        assert flags[i] == Covers(circles[i], width, height, x, y);
      }
    }
  }

  /**
   * Two pixels share a fingerprint, and so fall into the same segment,
   * exactly when the same circles cover them.
   */
  lemma SameFingerprintIffSameCircles(fbas: array<FastBitArray>, pool: BitPool, circles: seq<Circle>, width: nat, height: nat,
                                      x1: nat, y1: nat, x2: nat, y2: nat)
    requires IsCoverageMap(fbas, pool, circles, width, height)
    requires x1 < width && y1 < height && x2 < width && y2 < height
    ensures fbas[PixelIndex(width, height, x1, y1)].Slice() == fbas[PixelIndex(width, height, x2, y2)].Slice()
      <==> CoveringCircles(circles, width, height, x1, y1) == CoveringCircles(circles, width, height, x2, y2)
  {
    var s1 := fbas[PixelIndex(width, height, x1, y1)].Slice();
    var s2 := fbas[PixelIndex(width, height, x2, y2)].Slice();
    var f1 := CoveringCircles(circles, width, height, x1, y1);
    var f2 := CoveringCircles(circles, width, height, x2, y2);
    FingerprintOfPixel(fbas, pool, circles, width, height, x1, y1);
    FingerprintOfPixel(fbas, pool, circles, width, height, x2, y2);
    SlicesEqualIffBitsEqual(s1, s2);
    if s1 == s2 {
      forall i | 0 <= i < |circles| ensures f1[i] == f2[i] {
        assert SliceBit(s1, i) == SliceBit(s2, i);
      }
    }
  }

  /* ---------------------------------------------------------------------- */
  /* Segment colours: GetCircleIntersectionColors                            */
  /* ---------------------------------------------------------------------- */

  /** The words of a fingerprint: the dictionary key of its segment. */
  type Fingerprint = seq<Word>

  /** The `AddOrUpdate` pass over pixels `0 .. n - 1`, in that order. */
  function Tally<K(==)>(keys: seq<K>, colors: seq<byte>, n: nat): map<K, (int, int)>
    requires n <= |keys| == |colors|
  {
    if n == 0 then map[] else AddOrUpdate(Tally(keys, colors, n - 1), keys[n - 1], colors[n - 1])
  }

  /**
   * The totals of the `AddOrUpdate` pass: an entry for exactly the
   * fingerprints that occur, holding the number of pixels that carry it and
   * the sum of their grey values, whatever order the pixels are visited in.
   */
  function Accumulate<K(!new)>(keys: seq<K>, colors: seq<byte>): (m: map<K, (int, int)>)
    requires |keys| == |colors|
    ensures forall k :: k in m <==> k in keys
    ensures forall k :: k in m ==>
      Count(keys, k) > 0 && m[k] == (Count(keys, k) as int, SumOf(keys, colors, k) as int)
  {
    TallyIsCountAndSum(keys, colors);
    Tally(keys, colors, |keys|)
  }

  /**
   * `AddOrUpdate(key, (1, color), (_, t) => (t.numPixels + 1, t.sumColor + color))`:
   * a new fingerprint starts at one pixel, a known one counts one more.
   */
  function AddOrUpdate<K(==)>(totals: map<K, (int, int)>, key: K, color: byte): map<K, (int, int)>
  {
    if key in totals then totals[key := (totals[key].0 + 1, totals[key].1 + color)] else totals[key := (1, color as int)]
  }

  /** The number of pixels whose fingerprint is `k`. */
  function Count<K(==)>(keys: seq<K>, k: K): nat
  {
    if keys == [] then 0
    else (if keys[0] == k then 1 else 0) + Count(keys[1..], k)
  }

  /** The sum of the grey values of the pixels whose fingerprint is `k`. */
  function SumOf<K(==)>(keys: seq<K>, colors: seq<byte>, k: K): nat
    requires |keys| == |colors|
  {
    if keys == [] then 0
    else (if keys[0] == k then colors[0] as nat else 0) + SumOf(keys[1..], colors[1..], k)
  }

  /** A fingerprint occurs exactly when it counts at least one pixel. */
  lemma {:induction false} CountPositiveIffOccurs<K>(keys: seq<K>, k: K)
    ensures Count(keys, k) > 0 <==> k in keys
  {
    if keys != [] {
      CountPositiveIffOccurs(keys[1..], k);
      assert k in keys <==> keys[0] == k || k in keys[1..];
    }
  }

  /** A segment's colour sum is at most 255 per pixel. */
  lemma {:induction false} SumOfBound<K>(keys: seq<K>, colors: seq<byte>, k: K)
    requires |keys| == |colors|
    ensures SumOf(keys, colors, k) <= 255 * Count(keys, k)
  {
    if keys != [] {
      SumOfBound(keys[1..], colors[1..], k);
    }
  }

  lemma {:induction false} CountSnoc<K>(keys: seq<K>, x: K, k: K)
    ensures Count(keys + [x], k) == Count(keys, k) + (if x == k then 1 else 0)
  {
    if keys != [] {
      assert (keys + [x])[1..] == keys[1..] + [x];
      CountSnoc(keys[1..], x, k);
    }
  }

  lemma {:induction false} SumOfSnoc<K>(keys: seq<K>, colors: seq<byte>, x: K, c: byte, k: K)
    requires |keys| == |colors|
    ensures SumOf(keys + [x], colors + [c], k) == SumOf(keys, colors, k) + (if x == k then c as nat else 0)
  {
    if keys != [] {
      assert (keys + [x])[1..] == keys[1..] + [x];
      assert (colors + [c])[1..] == colors[1..] + [c];
      SumOfSnoc(keys[1..], colors[1..], x, c, k);
    }
  }

  lemma CountLast<K>(keys: seq<K>, k: K)
    requires keys != []
    ensures Count(keys, k) == Count(keys[..|keys| - 1], k) + (if keys[|keys| - 1] == k then 1 else 0)
  {
    var n := |keys| - 1;
    assert keys == keys[..n] + [keys[n]];
    CountSnoc(keys[..n], keys[n], k);
  }

  lemma SumOfLast<K>(keys: seq<K>, colors: seq<byte>, k: K)
    requires keys != [] && |keys| == |colors|
    ensures SumOf(keys, colors, k)
      == SumOf(keys[..|keys| - 1], colors[..|keys| - 1], k) + (if keys[|keys| - 1] == k then colors[|keys| - 1] as nat else 0)
  {
    var n := |keys| - 1;
    assert keys == keys[..n] + [keys[n]] && colors == colors[..n] + [colors[n]];
    SumOfSnoc(keys[..n], colors[..n], keys[n], colors[n], k);
  }

  /**
   * The tally holds the pixel count and the colour sum of each fingerprint:
   * `Count` and `SumOf` do not depend on the order of the updates.
   */
  lemma TallyIsCountAndSum<K(!new)>(keys: seq<K>, colors: seq<byte>)
    requires |keys| == |colors|
    ensures forall k :: k in Tally(keys, colors, |keys|) <==> k in keys
    ensures forall k :: k in Tally(keys, colors, |keys|) ==>
      Count(keys, k) > 0 && Tally(keys, colors, |keys|)[k] == (Count(keys, k) as int, SumOf(keys, colors, k) as int)
  {
    assert keys[..|keys|] == keys && colors[..|keys|] == colors;
    forall k
      ensures k in Tally(keys, colors, |keys|) <==> k in keys
      ensures k in Tally(keys, colors, |keys|) ==>
        Count(keys, k) > 0 && Tally(keys, colors, |keys|)[k] == (Count(keys, k) as int, SumOf(keys, colors, k) as int)
    {
      TallyEntry(keys, colors, |keys|, k);
      CountPositiveIffOccurs(keys, k);
    }
  }

  lemma {:induction false} TallyEntry<K>(keys: seq<K>, colors: seq<byte>, n: nat, k: K)
    requires n <= |keys| == |colors|
    ensures k in Tally(keys, colors, n) <==> k in keys[..n]
    ensures k in Tally(keys, colors, n) ==>
      Tally(keys, colors, n)[k] == (Count(keys[..n], k) as int, SumOf(keys[..n], colors[..n], k) as int)
  {
    if n > 0 {
      var ks, cs := keys[..n - 1], colors[..n - 1];
      TallyEntry(keys, colors, n - 1, k);
      CountLast(keys[..n], k);
      SumOfLast(keys[..n], colors[..n], k);
      CountPositiveIffOccurs(ks, k);
      SumOfBound(ks, cs, k);
      assert keys[..n][..n - 1] == ks && colors[..n][..n - 1] == cs;
      assert keys[..n] == ks + [keys[n - 1]];
    }
  }

  /**
   * `(byte)(((sum / count) + step / 2) / step * step)`: the mean grey value of
   * a segment rounded to a multiple of the grey step, cast to a byte. With
   * the program's step of 51 and a mean of at most 255 the cast does not wrap
   * and the colour is within 25 of the mean.
   */
  function SegmentColor(count: int, sum: int, step: int): (q: byte)
    requires count >= 1 && sum >= 0 && step >= 1
    ensures step == GreyScaleStep && sum <= 255 * count ==>
      q == Quantise(sum / count, step) && q % GreyScaleStep == 0 && -25 <= q - sum / count <= 25
  {
    var q := Quantise(sum / count, step) % 256;
    if step == GreyScaleStep && sum <= 255 * count then
      MeanIsGrey(count, sum);
      QuantiseGreyIsByte(sum / count);
      q
    else
      q
  }

  lemma MeanIsGrey(count: int, sum: int)
    requires count >= 1 && 0 <= sum <= 255 * count
    ensures 0 <= sum / count <= 255
  {
  }

  /** The fingerprint of every pixel, in pixel order. */
  ghost function Fingerprints(fbas: array<FastBitArray>, pool: BitPool): (keys: seq<Fingerprint>)
    reads fbas, pool, pool.words
    requires Readable(fbas, pool)
    ensures |keys| == fbas.Length
    ensures forall p :: 0 <= p < fbas.Length ==> keys[p] == fbas[p].Slice()
  {
    seq(fbas.Length, p requires 0 <= p < fbas.Length && fbas[p].pool == pool && fbas[p].Valid()
                       reads fbas, pool, pool.words => fbas[p].Slice())
  }

  /**
   * The `Select(...).ToDictionary()` step: every fingerprint's totals become
   * its segment colour.
   */
  function SegmentColors<K(==)>(totals: map<K, (int, int)>, step: int): (colors: map<K, byte>)
    requires step >= 1 && forall k :: k in totals ==> totals[k].0 >= 1 && totals[k].1 >= 0
    ensures colors.Keys == totals.Keys
  {
    map k | k in totals :: SegmentColor(totals[k].0, totals[k].1, step)
  }

  /**
   * `GetCircleIntersectionColors`: one entry per fingerprint that occurs in
   * the image, holding the segment colour of the pixels that carry it. The
   * concurrent dictionary is a map keyed by the fingerprint's words, which is
   * what `Equals` and `GetHashCode` compare; the totals do not depend on the
   * order in which the parallel rows are added.
   */
  method GetCircleIntersectionColors(width: nat, height: nat, bytes: seq<byte>, fbas: array<FastBitArray>, pool: BitPool, step: int)
      returns (colors: map<Fingerprint, byte>)
    requires fbas.Length == width * height && |bytes| == width * height && Readable(fbas, pool) && step >= 1
    ensures colors == SegmentColors(Accumulate(Fingerprints(fbas, pool), bytes), step)
  {
    var totals := AccumulateRows(width, height, bytes, fbas, pool);
    assert totals == Accumulate(Fingerprints(fbas, pool), bytes);
    colors := SegmentColors(totals, step);
  }

  /** The parallel row loop: the totals of every pixel's fingerprint, in pixel order. */
  method AccumulateRows(width: nat, height: nat, bytes: seq<byte>, fbas: array<FastBitArray>, pool: BitPool)
      returns (totals: map<Fingerprint, (int, int)>)
    requires fbas.Length == width * height && |bytes| == width * height && Readable(fbas, pool)
    ensures totals == Tally(Fingerprints(fbas, pool), bytes, width * height)
  {
    ghost var keys := Fingerprints(fbas, pool);
    totals := map[];
    var y := 0;
    while y < height
      invariant 0 <= y <= height && width * y <= width * height
      invariant totals == Tally(keys, bytes, width * y)
      invariant Readable(fbas, pool) && keys == Fingerprints(fbas, pool)
    {
      MulLe(width, y + 1, height);
      assert width * (y + 1) == width * y + width;
      totals := AccumulateRow(width, height, y, bytes, fbas, pool, keys, totals);
      y := y + 1;
    }
  }

  /** The body of the parallel row loop: row `y`'s pixels added to the totals of the rows above. */
  method AccumulateRow(width: nat, height: nat, y: nat, bytes: seq<byte>, fbas: array<FastBitArray>, pool: BitPool,
                       ghost keys: seq<Fingerprint>, totals0: map<Fingerprint, (int, int)>)
      returns (totals: map<Fingerprint, (int, int)>)
    requires fbas.Length == width * height && |bytes| == width * height && Readable(fbas, pool)
    requires |keys| == fbas.Length && forall p :: 0 <= p < |keys| ==> keys[p] == fbas[p].Slice()
    requires y < height && width * y + width <= width * height
    requires totals0 == Tally(keys, bytes, width * y)
    ensures totals == Tally(keys, bytes, width * y + width)
  {
    ghost var start := width * y;
    totals := totals0;
    var x := 0;
    while x < width
      invariant 0 <= x <= width
      invariant totals == Tally(keys, bytes, start + x)
      invariant Readable(fbas, pool) && forall p :: 0 <= p < |keys| ==> keys[p] == fbas[p].Slice()
    {
      var p := PixelIndex(width, height, x, y);
      totals := AddOrUpdate(totals, fbas[p].Slice(), bytes[p]);
      x := x + 1;
    }
  }

  /* ---------------------------------------------------------------------- */
  /* Reconstruction: CreatePixelsFromCircleIntersectionColors                */
  /* ---------------------------------------------------------------------- */

  /**
   * `CreatePixelsFromCircleIntersectionColors`: every pixel takes the colour
   * of its fingerprint. The dictionary lookup throws on a missing key, so
   * every fingerprint must have an entry.
   */
  method CreatePixelsFromCircleIntersectionColors(width: nat, height: nat, colors: map<Fingerprint, byte>,
                                                  fbas: array<FastBitArray>, pool: BitPool)
      returns (outPixels: array<byte>)
    requires fbas.Length == width * height && Readable(fbas, pool)
    requires forall p :: 0 <= p < fbas.Length ==> fbas[p].Slice() in colors
    ensures fresh(outPixels) && outPixels.Length == width * height
    ensures forall p :: 0 <= p < outPixels.Length ==> outPixels[p] == colors[fbas[p].Slice()]
  {
    ghost var keys := Fingerprints(fbas, pool);
    outPixels := new byte[width * height];
    ghost var done := 0;
    var y := 0;
    while y < height
      invariant 0 <= y <= height && done == width * y <= width * height
      invariant forall p :: 0 <= p < done ==> outPixels[p] == colors[keys[p]]
    {
      var x := 0;
      while x < width
        invariant 0 <= x <= width && done == x + width * y <= width * height
        invariant forall p :: 0 <= p < done ==> outPixels[p] == colors[keys[p]]
      {
        var p := PixelIndex(width, height, x, y);
        outPixels[p] := colors[fbas[p].Slice()];
        done := done + 1;
        x := x + 1;
      }
      MulLe(width, y + 1, height);
      y := y + 1;
    }
  }

  /**
   * The reconstruction is constant on segments: two pixels covered by the
   * same circles get the same output grey value.
   */
  lemma ReconstructionIsUniformOnSegments(fbas: array<FastBitArray>, pool: BitPool, circles: seq<Circle>, width: nat, height: nat,
                                          colors: map<Fingerprint, byte>, outPixels: seq<byte>,
                                          x1: nat, y1: nat, x2: nat, y2: nat)
    requires IsCoverageMap(fbas, pool, circles, width, height)
    requires |outPixels| == fbas.Length
    requires forall p :: 0 <= p < fbas.Length ==> fbas[p].Slice() in colors && outPixels[p] == colors[fbas[p].Slice()]
    requires x1 < width && y1 < height && x2 < width && y2 < height
    requires CoveringCircles(circles, width, height, x1, y1) == CoveringCircles(circles, width, height, x2, y2)
    ensures outPixels[PixelIndex(width, height, x1, y1)] == outPixels[PixelIndex(width, height, x2, y2)]
  {
    SameFingerprintIffSameCircles(fbas, pool, circles, width, height, x1, y1, x2, y2);
  }

  /* ---------------------------------------------------------------------- */
  /* Error: CalculateError                                                   */
  /* ---------------------------------------------------------------------- */

  function Abs(v: int): (a: nat)
    ensures a == v || a == -v
  {
    if v < 0 then -v else v
  }

  /**
   * The offset the source adds to every source pixel before comparing:
   * `(greyScaleStep / 2) / greyScaleStep * greyScaleStep`, which C#'s
   * left-to-right evaluation of `/` and `*` makes zero for every step.
   */
  function SourceOffset(step: int): int
    requires step >= 1
  {
    (step / 2) / step * step
  }

  /** The accumulated `error` over the first `|newPixels|` pixels, as the loop computes it. */
  function ErrorSum(newPixels: seq<byte>, pixels: seq<byte>, step: int): int
    requires |newPixels| <= |pixels| && step >= 1
  {
    if newPixels == [] then 0
    else
      var n := |newPixels| - 1;
      ErrorSum(newPixels[..n], pixels, step) + Abs(pixels[n] + SourceOffset(step) - newPixels[n])
  }

  /** The plain sum of absolute differences `|b[i] - a[i]|` over the indices of `a`. */
  function AbsDiffSum(a: seq<int>, b: seq<int>): nat
    requires |a| <= |b|
  {
    if a == [] then 0
    else
      var n := |a| - 1;
      AbsDiffSum(a[..n], b) + Abs(b[n] - a[n])
  }

  /** The sum is zero exactly when `a` agrees with `b` on all its indices. */
  lemma {:induction false} AbsDiffSumZeroIff(a: seq<int>, b: seq<int>)
    requires |a| <= |b|
    ensures AbsDiffSum(a, b) == 0 <==> a == b[..|a|]
  {
    if a != [] {
      var n := |a| - 1;
      AbsDiffSumZeroIff(a[..n], b);
      assert a == a[..n] + [a[n]];
      assert b[..|a|] == b[..n] + [b[n]];
    }
  }

  /** Each term is at most 255 for grey values, so the error of `n` pixels is at most `255 * n`. */
  lemma {:induction false} AbsDiffSumBound(a: seq<byte>, b: seq<byte>)
    requires |a| <= |b|
    ensures AbsDiffSum(a, b) <= 255 * |a|
  {
    if a != [] {
      AbsDiffSumBound(a[..|a| - 1], b);
    }
  }

  /** Whatever the step, the offset is zero. */
  lemma SourceOffsetIsZero(step: int)
    requires step >= 1
    ensures SourceOffset(step) == 0
  {
    assert 0 <= step / 2 < step;
  }

  /**
   * `CalculateError`: the mean absolute difference, `(float)error / length`.
   * An empty buffer divides zero by zero, which is NaN in C#: `None` here.
   */
  method CalculateError(newPixels: seq<byte>, pixels: seq<byte>, step: int) returns (result: Option<real>)
    requires |newPixels| <= |pixels| && step >= 1
    ensures newPixels == [] <==> result == None
    ensures newPixels != [] ==> result == Some(AbsDiffSum(newPixels, pixels) as real / |newPixels| as real)
  {
    var error := 0;
    var i := 0;
    while i < |newPixels|
      invariant 0 <= i <= |newPixels|
      invariant error == ErrorSum(newPixels[..i], pixels, step)
    {
      var srcPixel := pixels[i] + (step / 2) / step * step;
      var diff := Abs(srcPixel - newPixels[i]);
      error := error + diff;
      assert newPixels[..i + 1][..i] == newPixels[..i];
      i := i + 1;
    }
    assert newPixels[..i] == newPixels;
    ErrorIsAbsDiff(newPixels, pixels, step);
    if |newPixels| == 0 {
      result := None;
    } else {
      result := Some(error as real / |newPixels| as real);
    }
  }

  /**
   * Because the offset is zero, the error compares the reconstruction with the
   * raw source pixels: it is the plain sum of absolute differences.
   */
  lemma {:induction false} ErrorIsAbsDiff(newPixels: seq<byte>, pixels: seq<byte>, step: int)
    requires |newPixels| <= |pixels| && step >= 1
    ensures ErrorSum(newPixels, pixels, step) == AbsDiffSum(newPixels, pixels)
  {
    if newPixels != [] {
      ErrorIsAbsDiff(newPixels[..|newPixels| - 1], pixels, step);
      SourceOffsetIsZero(step);
    }
  }

  /**
   * The comparison the error loop evidently intends: every source pixel first
   * quantised to the grey step, `(pixels[i] + step / 2) / step * step`.
   */
  function QuantiseAll(pixels: seq<byte>, step: int): (q: seq<int>)
    requires step >= 1
    ensures |q| == |pixels|
    ensures forall i :: 0 <= i < |q| ==> q[i] == Quantise(pixels[i], step)
  {
    seq(|pixels|, i requires 0 <= i < |pixels| => Quantise(pixels[i], step))
  }

  /**
   * The error against the quantised source: the mean absolute difference to
   * `QuantiseAll(pixels, step)`, `None` for an empty buffer.
   */
  function QuantisedError(newPixels: seq<byte>, pixels: seq<byte>, step: int): (result: Option<real>)
    requires |newPixels| <= |pixels| && step >= 1
    ensures newPixels == [] <==> result == None
  {
    if newPixels == [] then None
    else Some(AbsDiffSum(newPixels, QuantiseAll(pixels, step)) as real / |newPixels| as real)
  }

  /**
   * The quantised error is zero exactly when the reconstruction equals the
   * quantised source, the best a posterised image can do.
   */
  lemma QuantisedErrorZeroIff(newPixels: seq<byte>, pixels: seq<byte>, step: int)
    requires 0 < |newPixels| <= |pixels| && step >= 1
    ensures QuantisedError(newPixels, pixels, step) == Some(0.0)
      <==> forall i :: 0 <= i < |newPixels| ==> newPixels[i] == Quantise(pixels[i], step)
  {
    var q := QuantiseAll(pixels, step);
    AbsDiffSumZeroIff(newPixels, q);
    MeanZeroIff(AbsDiffSum(newPixels, q), |newPixels|);
    PrefixEqualIff(newPixels, q);
  }

  lemma MeanZeroIff(sum: nat, n: nat)
    requires n > 0
    ensures sum as real / n as real == 0.0 <==> sum == 0
  {
    if sum > 0 {
      assert sum as real / n as real > 0.0;
    }
  }

  lemma PrefixEqualIff(a: seq<byte>, q: seq<int>)
    requires |a| <= |q|
    ensures a == q[..|a|] <==> forall i :: 0 <= i < |a| ==> a[i] == q[i]
  {
  }

  /**
   * As written, the error is not zero for the reconstruction that equals the
   * quantised source: source grey 30 quantises to 51 with the step of 51, and
   * `CalculateError` still reports 21.
   */
  lemma ErrorMissesQuantisedSource()
    ensures QuantisedError([51], [30], GreyScaleStep) == Some(0.0)
    ensures ErrorSum([51], [30], GreyScaleStep) == 21
  {
    assert Quantise(30, GreyScaleStep) == 51;
    assert QuantiseAll([30], GreyScaleStep) == [51];
    assert [51][..0] == [];
  }
}
