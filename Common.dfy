/**
 * Definitions shared by several source files of the circle-placement engine:
 * the byte type of grey-scale buffers, an option type for the source's error
 * paths, the grey-level quantisation used by both the segment colouring and the
 * blur bucketing, the wrap-around of unchecked C# `int` arithmetic, and the
 * stable descending sort behind LINQ's `OrderByDescending` / `OrderDescending`.
 */
module Common {

  /** An 8-bit grey value, as stored in the pixel buffers. */
  type byte = b: int | 0 <= b < 256

  datatype Option<T> = None | Some(value: T)

  /** The grey step of the whole program: `255 / kNumGreyScales` with five grey scales. */
  const GreyScaleStep: int := 255 / 5

  /**
   * Integer quantisation `((v + step / 2) / step) * step` (C# integer division on
   * non-negative operands): rounds `v` to a multiple of `step`, ties upwards.
   */
  function Quantise(v: int, step: int): (q: int)
    requires v >= 0 && step >= 1
    ensures q >= 0 && exists k: nat :: q == k * step
    ensures q <= v + step / 2 < q + step
  {
    var a := v + step / 2;
    var k := a / step;
    assert a == step * k + a % step;
    assert k >= 0;
    k * step
  }

  /**
   * With the program's step of 51, every grey value in 0..255 quantises to a
   * multiple of 51 that is still a byte (so the `(byte)` casts do not wrap) and
   * lies within 25 of the value.
   */
  lemma QuantiseGreyIsByte(v: int)
    requires 0 <= v <= 255
    ensures 0 <= Quantise(v, GreyScaleStep) <= 255
    ensures Quantise(v, GreyScaleStep) % 51 == 0
    ensures -25 <= Quantise(v, GreyScaleStep) - v <= 25
  {
    var k := (v + 25) / 51;
    assert k <= 5;
    assert Quantise(v, GreyScaleStep) == k * 51;
  }

  /** One more than the largest C# `uint`: 32-bit arithmetic wraps modulo this. */
  const Modulus32: nat := 0x1_0000_0000

  /** `int.MinValue` and `int.MaxValue`. */
  const Int32Min: int := -0x8000_0000
  const Int32Max: int := 0x7FFF_FFFF

  /**
   * What unchecked C# `int` arithmetic yields for the exact result `x`: the
   * one `int` congruent to `x` modulo 2^32.
   */
  function Wrap32(x: int): (r: int)
    ensures Int32Min <= r <= Int32Max && (r - x) % Modulus32 == 0
  {
    (x - Int32Min) % Modulus32 + Int32Min
  }

  /** The `(int)` cast of a float: truncation toward zero. */
  function Truncate(v: real): (t: int)
    ensures v >= 0.0 ==> t >= 0 && t as real <= v < t as real + 1.0
    ensures v < 0.0 ==> t <= 0 && t as real - 1.0 < v <= t as real
  {
    if v >= 0.0 then v.Floor else -((-v).Floor)
  }

  /** `s` is ordered by non-increasing `key`. */
  ghost predicate SortedDesc<T>(s: seq<T>, key: T -> real)
  {
    forall i, j :: 0 <= i < j < |s| ==> key(s[i]) >= key(s[j])
  }

  /**
   * Inserts `x` in front of the first element whose key is not larger than its
   * own, so that `x`, which came earlier in the input, precedes its ties.
   */
  function InsertDesc<T>(x: T, s: seq<T>, key: T -> real): (r: seq<T>)
    ensures |r| == |s| + 1
  {
    if s == [] then [x]
    else if key(s[0]) > key(x) then [s[0]] + InsertDesc(x, s[1..], key)
    else [x] + s
  }

  lemma {:induction false} InsertDescPermutes<T>(x: T, s: seq<T>, key: T -> real)
    ensures multiset(InsertDesc(x, s, key)) == multiset(s) + multiset{x}
  {
    if s != [] && key(s[0]) > key(x) {
      InsertDescPermutes(x, s[1..], key);
      assert s == [s[0]] + s[1..];
    }
  }

  lemma {:induction false} InsertDescSorted<T>(x: T, s: seq<T>, key: T -> real)
    requires SortedDesc(s, key)
    ensures SortedDesc(InsertDesc(x, s, key), key)
  {
    if s == [] {
    } else if key(s[0]) > key(x) {
      var rest := InsertDesc(x, s[1..], key);
      InsertDescSorted(x, s[1..], key);
      InsertDescPermutes(x, s[1..], key);
      HeadDominates(s, x, rest, key);
      PrependSorted(s[0], rest, key);
    } else {
      PrependSorted(x, s, key);
    }
  }

  /** The head of a sorted sequence has a key at least that of every element of `rest`. */
  lemma HeadDominates<T>(s: seq<T>, x: T, rest: seq<T>, key: T -> real)
    requires SortedDesc(s, key) && |s| > 0 && key(s[0]) > key(x)
    requires multiset(rest) == multiset(s[1..]) + multiset{x}
    ensures forall k :: 0 <= k < |rest| ==> key(s[0]) >= key(rest[k])
  {
    forall k | 0 <= k < |rest| ensures key(s[0]) >= key(rest[k]) {
      assert rest[k] in multiset(rest);
      if rest[k] != x {
        assert rest[k] in multiset(s[1..]);
        var j :| 0 <= j < |s[1..]| && s[1..][j] == rest[k];
        assert s[j + 1] == rest[k];
      }
    }
  }

  lemma PrependSorted<T>(h: T, t: seq<T>, key: T -> real)
    requires SortedDesc(t, key) && forall k :: 0 <= k < |t| ==> key(h) >= key(t[k])
    ensures SortedDesc([h] + t, key)
  {
    var r := [h] + t;
    assert forall i :: 1 <= i < |r| ==> r[i] == t[i - 1];
  }

  /**
   * Stable sort by descending key: the model of `OrderByDescending(key)` and of
   * `OrderDescending(comparer)` over a key comparer.
   */
  function SortDesc<T>(s: seq<T>, key: T -> real): (r: seq<T>)
    ensures |r| == |s|
  {
    if s == [] then [] else InsertDesc(s[0], SortDesc(s[1..], key), key)
  }

  /** The sort is a permutation of its input. */
  lemma {:induction false} SortDescPermutes<T>(s: seq<T>, key: T -> real)
    ensures multiset(SortDesc(s, key)) == multiset(s)
  {
    if s != [] {
      SortDescPermutes(s[1..], key);
      InsertDescPermutes(s[0], SortDesc(s[1..], key), key);
      assert s == [s[0]] + s[1..];
    }
  }

  /** The sort orders by non-increasing key. */
  lemma {:induction false} SortDescSorted<T>(s: seq<T>, key: T -> real)
    ensures SortedDesc(SortDesc(s, key), key)
  {
    if s != [] {
      SortDescSorted(s[1..], key);
      InsertDescSorted(s[0], SortDesc(s[1..], key), key);
    }
  }

  /** A sorted permutation has the largest key in front. */
  lemma SortDescHeadIsMax<T>(s: seq<T>, key: T -> real, x: T)
    requires x in s
    ensures |SortDesc(s, key)| > 0 && key(SortDesc(s, key)[0]) >= key(x)
  {
    var r := SortDesc(s, key);
    SortDescPermutes(s, key);
    SortDescSorted(s, key);
    assert x in multiset(r);
    var k :| 0 <= k < |r| && r[k] == x;
  }

  /** Sorting keeps exactly the elements of the input. */
  lemma SortDescMembers<T>(s: seq<T>, key: T -> real)
    ensures forall x :: x in SortDesc(s, key) <==> x in s
  {
    var r := SortDesc(s, key);
    SortDescPermutes(s, key);
    forall x
      ensures x in r <==> x in s
    {
      assert x in r <==> x in multiset(r);
      assert x in s <==> x in multiset(s);
    }
  }

  /** The row-major index `x + y * width` of a cell of a `width` by `height` grid is inside the buffer. */
  lemma GridIndexInRange(width: int, height: int, x: int, y: int)
    requires 0 <= x < width && 0 <= y < height
    ensures 0 <= x + y * width < width * height
  {
    assert y * width <= (height - 1) * width;
  }

  /** Growing a prefix by one element. */
  lemma PrefixSnoc<T>(s: seq<T>, j: nat)
    requires j < |s|
    ensures s[..j + 1] == s[..j] + [s[j]]
  {
  }

  /** The prefix of length `i` of the prefix of length `i + 1`. */
  lemma PrefixOfPrefix<T>(s: seq<T>, i: nat)
    requires i < |s|
    ensures s[..i + 1][..i] == s[..i]
  {
  }
}
