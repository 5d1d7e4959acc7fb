/**
 * Bubbles/FastBitArray.cs: the per-pixel coverage fingerprint. Every instance
 * owns a slice of `perInstanceSize` words of one backing `ulong[]` shared by all
 * instances; the static fields (the array, the slice size and the allocation
 * cursor `curIndex`) are gathered in the `BitPool` object that all instances
 * reference. Equality and hashing are structural over the slice.
 *
 * A `ulong` word is modelled as its 64 bits, least significant first, and the
 * operators `|`, `&`, `~` and `(ulong)1 << k` act bit by bit on them.
 *
 * The source addresses bit `i` as word `i / sizeof(ulong)`, position
 * `i % sizeof(ulong)`, and `sizeof(ulong)` is 8 (bytes): only the low byte of
 * every word is ever used. The model keeps that layout.
 */
module BitArrays {
  import opened Common

  /** `sizeof(ulong)`: the divisor the indexer uses for word and bit position. */
  const BitsPerWord: nat := 8

  /** The width of a `ulong`. */
  const WordWidth: nat := 64

  /** A `ulong`, as its bits: `w[k]` is the bit of weight 2^k. */
  type Word = w: seq<bool> | |w| == WordWidth witness seq(64, _ => false)

  /** The word `0UL`. */
  const Zero: Word := seq(WordWidth, _ => false)

  /** `(ulong)1 << k`, for a shift below the word width. */
  function OneShl(k: nat): (m: Word)
    requires k < WordWidth
    ensures m[k] && forall j :: 0 <= j < WordWidth && j != k ==> !m[j]
  {
    seq(WordWidth, j => j == k)
  }

  /** Bitwise `a | b`. */
  function Or(a: Word, b: Word): (r: Word)
    ensures forall j :: 0 <= j < WordWidth ==> (r[j] <==> a[j] || b[j])
  {
    seq(WordWidth, j requires 0 <= j < WordWidth => a[j] || b[j])
  }

  /** Bitwise `a & b`. */
  function And(a: Word, b: Word): (r: Word)
    ensures forall j :: 0 <= j < WordWidth ==> (r[j] <==> a[j] && b[j])
  {
    seq(WordWidth, j requires 0 <= j < WordWidth => a[j] && b[j])
  }

  /** Bitwise `~a`. */
  function Not(a: Word): (r: Word)
    ensures forall j :: 0 <= j < WordWidth ==> (r[j] <==> !a[j])
  {
    seq(WordWidth, j requires 0 <= j < WordWidth => !a[j])
  }

  /** Bit `i` of a fingerprint slice, in the source's layout (false past the slice). */
  predicate SliceBit(s: seq<Word>, i: nat)
  {
    i / BitsPerWord < |s| && s[i / BitsPerWord][i % BitsPerWord]
  }

  /** No word of `s` has a bit above the low byte set. */
  ghost predicate LowByteOnly(s: seq<Word>)
  {
    forall j, k :: 0 <= j < |s| && BitsPerWord <= k < WordWidth ==> !s[j][k]
  }

  /**
   * The word update of the indexer setter: `w | (1 << k)` for true and
   * `w & ~(1 << k)` for false. Exactly bit `k` takes the value; no other bit
   * of the word changes.
   */
  function SetWord(w: Word, k: nat, value: bool): (r: Word)
    requires k < BitsPerWord
    ensures r[k] == value
    ensures forall j :: 0 <= j < WordWidth && j != k ==> r[j] == w[j]
  {
    if value then Or(w, OneShl(k)) else And(w, Not(OneShl(k)))
  }

  /** Setting a bit twice to the same value is the same as setting it once. */
  lemma SetWordIdempotent(w: Word, k: nat, value: bool)
    requires k < BitsPerWord
    ensures SetWord(SetWord(w, k, value), k, value) == SetWord(w, k, value)
  {
    var once := SetWord(w, k, value);
    var twice := SetWord(once, k, value);
    assert forall j :: 0 <= j < WordWidth ==> twice[j] == once[j];
  }

  /** Setting a bit in a word of a low-byte-only slice keeps the slice low-byte-only. */
  lemma SetWordKeepsLowByte(s: seq<Word>, j: nat, k: nat, value: bool)
    requires LowByteOnly(s) && j < |s| && k < BitsPerWord
    ensures LowByteOnly(s[j := SetWord(s[j], k, value)])
  {
  }

  /**
   * Fingerprints compare by value: two slices of the same length whose words
   * carry nothing above the low byte are equal exactly when they agree on
   * every bit `i < 8 * |s|`.
   */
  lemma {:induction false} SlicesEqualIffBitsEqual(s1: seq<Word>, s2: seq<Word>)
    requires |s1| == |s2| && LowByteOnly(s1) && LowByteOnly(s2)
    ensures s1 == s2 <==> forall i: nat :: i < BitsPerWord * |s1| ==> SliceBit(s1, i) == SliceBit(s2, i)
  {
    if forall i: nat :: i < BitsPerWord * |s1| ==> SliceBit(s1, i) == SliceBit(s2, i) {
      forall j | 0 <= j < |s1| ensures s1[j] == s2[j] {
        forall k | 0 <= k < WordWidth ensures s1[j][k] == s2[j][k] {
          if k < BitsPerWord {
            var i: nat := BitsPerWord * j + k;
            assert i / BitsPerWord == j && i % BitsPerWord == k;
            assert SliceBit(s1, i) == SliceBit(s2, i);
          }
        }
      }
    }
  }

  /** 2^n. */
  function Pow2(n: nat): (p: nat)
    ensures p >= 1
  {
    if n == 0 then 1 else 2 * Pow2(n - 1)
  }

  /** The unsigned value of a bit sequence, least significant bit first. */
  function Value(bits: seq<bool>): (v: nat)
    ensures v < Pow2(|bits|)
  {
    if bits == [] then 0 else (if bits[0] then 1 else 0) + 2 * Value(bits[1..])
  }

  /** A bit sequence with no bit set is 0. */
  lemma {:induction false} ZerosValue(bits: seq<bool>)
    requires forall j :: 0 <= j < |bits| ==> !bits[j]
    ensures Value(bits) == 0
  {
    if bits != [] {
      ZerosValue(bits[1..]);
    }
  }

  /** A bit sequence whose only set bit is `k` is 2^k. */
  lemma {:induction false} UnitValue(bits: seq<bool>, k: nat)
    requires k < |bits| && bits[k]
    requires forall j :: 0 <= j < |bits| && j != k ==> !bits[j]
    ensures Value(bits) == Pow2(k)
  {
    if k == 0 {
      ZerosValue(bits[1..]);
    } else {
      UnitValue(bits[1..], k - 1);
    }
  }

  /** `(ulong)1 << k` is the number 2^k. */
  lemma OneShlValue(k: nat)
    requires k < WordWidth
    ensures Value(OneShl(k)) == Pow2(k)
  {
    UnitValue(OneShl(k), k);
  }

  lemma {:induction false} PointwiseOrAnd(a: seq<bool>, b: seq<bool>, o: seq<bool>, n: seq<bool>)
    requires |a| == |b| == |o| == |n|
    requires forall j :: 0 <= j < |a| ==> (o[j] <==> a[j] || b[j]) && (n[j] <==> a[j] && b[j])
    ensures Value(o) + Value(n) == Value(a) + Value(b)
  {
    if a != [] {
      PointwiseOrAnd(a[1..], b[1..], o[1..], n[1..]);
    }
  }

  /**
   * `|` and `&` on the numbers the words stand for: `(a | b) + (a & b) == a + b`,
   * so `|` never yields less than either operand and `&` never more.
   */
  lemma OrPlusAnd(a: Word, b: Word)
    ensures Value(Or(a, b)) + Value(And(a, b)) == Value(a) + Value(b)
  {
    PointwiseOrAnd(a, b, Or(a, b), And(a, b));
  }

  lemma {:induction false} PointwiseNot(a: seq<bool>, c: seq<bool>)
    requires |a| == |c|
    requires forall j :: 0 <= j < |a| ==> (c[j] <==> !a[j])
    ensures Value(a) + Value(c) == Pow2(|a|) - 1
  {
    if a != [] {
      PointwiseNot(a[1..], c[1..]);
    }
  }

  /** `~a` on a `ulong` is `ulong.MaxValue - a`. */
  lemma NotValue(a: Word)
    ensures Value(Not(a)) == Pow2(WordWidth) - 1 - Value(a)
  {
    PointwiseNot(a, Not(a));
  }

  /** Splitting a bit sequence at `n`: its low `n` bits plus 2^n times the rest. */
  lemma {:induction false} ValueSplit(bits: seq<bool>, n: nat)
    requires n <= |bits|
    ensures Value(bits) == Value(bits[..n]) + Pow2(n) * Value(bits[n..])
  {
    if n == 0 {
      assert bits[n..] == bits;
    } else {
      var rest := bits[1..];
      ValueSplit(rest, n - 1);
      assert rest[..n - 1] == bits[..n][1..];
      assert rest[n - 1..] == bits[n..];
      SplitStep(if bits[0] then 1 else 0, Value(rest), Value(bits[..n][1..]), Pow2(n - 1), Value(bits[n..]));
    }
  }

  lemma SplitStep(b: int, rest: int, low: int, p: int, high: int)
    requires rest == low + p * high
    ensures b + 2 * rest == (b + 2 * low) + (2 * p) * high
  {
  }

  lemma MulAtLeast(m: nat, k: int)
    requires k >= 1
    ensures m * k >= m
  {
  }

  lemma NoSmallMultiple(m: int, k: int)
    requires m > 0 && -m < m * k < m
    ensures k == 0
  {
    if k >= 1 {
      MulAtLeast(m, k);
    }
  }

  /** Adding a multiple of `m` does not change the remainder of a number below `m`. */
  lemma ModAddMultiple(low: int, m: int, high: int)
    requires 0 <= low < m
    ensures (low + m * high) % m == low
  {
    var x := low + m * high;
    var q, r := x / m, x % m;
    assert x == m * q + r && 0 <= r < m;
    var k := high - q;
    assert m * k == r - low by {
      assert m * high - m * q == m * (high - q);
    }
    NoSmallMultiple(m, k);
  }

  /** The bit pattern of a C# `int`, read as an unsigned number. */
  type Bits32 = x: int | 0 <= x < Modulus32

  /** The C# `int` whose two's-complement pattern is `b`. */
  function Signed(b: Bits32): (s: int)
    ensures Int32Min <= s <= Int32Max && (s - b) % Modulus32 == 0
  {
    if b <= Int32Max then b else b - Modulus32
  }

  /** `(int)word`, an unchecked narrowing of a `ulong`: the pattern of its low 32 bits. */
  function Low32(w: Word): Bits32
  {
    Pow2Of32();
    Value(w[..32])
  }

  /** The narrowing keeps the word's value modulo 2^32. */
  lemma Low32IsValueMod(w: Word)
    ensures Low32(w) == Value(w) % Modulus32
  {
    Pow2Of32();
    ValueSplit(w, 32);
    ModAddMultiple(Value(w[..32]), Modulus32, Value(w[32..]));
  }

  lemma Pow2Of32()
    ensures Pow2(32) == 0x1_0000_0000
  {
    assert Pow2(8) == 256;
    assert Pow2(16) == 65536;
    assert Pow2(24) == 0x100_0000;
  }

  /** `hash * 31 + low` on bit patterns, modulo 2^32. */
  function HashStep(hash: Bits32, low: Bits32): Bits32
  {
    (hash * 31 + low) % Modulus32
  }

  /**
   * Read as C# `int`s, `HashStep` is the unchecked `int` result of
   * `hash * 31 + low` on the signed operands.
   */
  lemma HashStepIsIntStep(hash: Bits32, low: Bits32)
    ensures Signed(HashStep(hash, low)) == Wrap32(Signed(hash) * 31 + Signed(low))
  {
  }

  /**
   * The hash of `RecalculateHashCode`: 17, then one `HashStep` for every word
   * in order.
   */
  function HashOf(ws: seq<Word>): Bits32
  {
    if ws == [] then 17 else HashStep(HashOf(ws[..|ws| - 1]), Low32(ws[|ws| - 1]))
  }

  lemma HashOfSnoc(ws: seq<Word>, w: Word)
    ensures HashOf(ws + [w]) == HashStep(HashOf(ws), Low32(w))
  {
    assert (ws + [w])[..|ws|] == ws;
  }

  /**
   * The hash loop as C# runs it on `int`s: `hash = 17`, then
   * `hash = hash * 31 + (int)word` with wrap-around, for every word.
   */
  function IntHash(ws: seq<Word>): int
  {
    if ws == [] then 17 else Wrap32(IntHash(ws[..|ws| - 1]) * 31 + Signed(Low32(ws[|ws| - 1])))
  }

  /** The model's hash is the C# `int` hash, read through its bit pattern. */
  lemma {:induction false} HashOfIsIntHash(ws: seq<Word>)
    ensures Signed(HashOf(ws)) == IntHash(ws)
  {
    if ws != [] {
      HashOfIsIntHash(ws[..|ws| - 1]);
      HashStepIsIntStep(HashOf(ws[..|ws| - 1]), Low32(ws[|ws| - 1]));
    }
  }

  /** The static state of `FastBitArray`: backing array, slice size, allocation cursor. */
  class BitPool {
    var perInstanceSize: nat
    var words: array<Word>
    var curIndex: nat

    /** The statics before any `Init`: zero size, no backing words, cursor 0. */
    constructor ()
      ensures perInstanceSize == 0 && curIndex == 0 && words.Length == 0
    {
      perInstanceSize := 0;
      words := new Word[0];
      curIndex := 0;
    }

    /**
     * `FastBitArray.Init(perInstanceSize, numInstances)`, which the source calls
     * but does not show: a zeroed backing array of `perInstanceSize *
     * numInstances` words and the cursor back at 0.
     */
    method Init(perInstanceSize: nat, numInstances: nat)
      modifies this
      ensures this.perInstanceSize == perInstanceSize && curIndex == 0
      ensures fresh(words) && words.Length == perInstanceSize * numInstances
      ensures forall j :: 0 <= j < words.Length ==> words[j] == Zero
    {
      this.perInstanceSize := perInstanceSize;
      words := new Word[perInstanceSize * numInstances](_ => Zero);
      curIndex := 0;
    }
  }

  class FastBitArray {
    const pool: BitPool
    const index: nat
    var hashCode: Bits32

    /** The slice lies inside the backing array. */
    ghost predicate Valid()
      reads pool
    {
      index + pool.perInstanceSize <= pool.words.Length
    }

    /** The words this instance owns. */
    function Slice(): (s: seq<Word>)
      reads pool, pool.words
      requires Valid()
      ensures |s| == pool.perInstanceSize
    {
      pool.words[index..index + pool.perInstanceSize]
    }

    /** The cached hash is either unset (0) or the hash of the current slice. */
    ghost predicate HashCached()
      reads this, pool, pool.words
      requires Valid()
    {
      hashCode == 0 || hashCode == HashOf(Slice())
    }

    /**
     * A new instance takes the slice at the current cursor, and the cursor
     * advances by one slice: consecutive instances own disjoint consecutive slices.
     */
    constructor (pool: BitPool)
      modifies pool`curIndex
      ensures this.pool == pool && index == old(pool.curIndex) && hashCode == 0
      ensures pool.curIndex == old(pool.curIndex) + pool.perInstanceSize
    {
      this.pool := pool;
      index := pool.curIndex;
      hashCode := 0;
      new;
      pool.curIndex := pool.curIndex + pool.perInstanceSize;
    }

    /**
     * The indexer setter `this[i] = value`: word `index + i / 8` gets bit
     * `i % 8` set or cleared, every other word is untouched and the cached
     * hash is reset. The only bound is the backing array's: bit indices past
     * `8 * perInstanceSize` reach into the next instance's slice.
     */
    method Set(i: nat, value: bool)
      requires index + i / BitsPerWord < pool.words.Length
      modifies pool.words, this`hashCode
      ensures pool.words[..] == old(pool.words[..])[index + i / BitsPerWord := SetWord(old(pool.words[index + i / BitsPerWord]), i % BitsPerWord, value)]
      ensures hashCode == 0
    {
      var w := index + i / BitsPerWord;
      pool.words[w] := SetWord(pool.words[w], i % BitsPerWord, value);
      hashCode := 0;
    }

    /** `RecalculateHashCode`: folds the slice's words into the hash. */
    method RecalculateHashCode() returns (h: Bits32)
      requires Valid()
      ensures h == HashOf(Slice())
    {
      h := 17;
      var i := 0;
      while i < pool.perInstanceSize
        invariant 0 <= i <= pool.perInstanceSize
        invariant h == HashOf(pool.words[index..index + i])
      {
        assert pool.words[index..index + i + 1] == pool.words[index..index + i] + [pool.words[i + index]];
        HashOfSnoc(pool.words[index..index + i], pool.words[i + index]);
        h := HashStep(h, Low32(pool.words[i + index]));
        i := i + 1;
      }
    }

    /**
     * `GetHashCode`: recomputes the hash when the cache is unset. With the
     * cache coherent, the result is always the hash of the current slice, so
     * instances with equal slices report equal hash codes.
     */
    method GetHashCode() returns (h: Bits32)
      requires Valid() && HashCached()
      modifies this`hashCode
      ensures h == HashOf(Slice()) && HashCached()
    {
      if hashCode == 0 {
        hashCode := RecalculateHashCode();
      }
      h := hashCode;
    }

    /**
     * `Equals(object)`: true exactly when the other object is a fingerprint
     * whose slice matches this one word for word; false for any other object.
     * Both fingerprints live in the same backing array.
     */
    method Equals(obj: object?) returns (eq: bool)
      requires Valid()
      requires obj is FastBitArray ==> (obj as FastBitArray).pool == pool && (obj as FastBitArray).Valid()
      ensures eq <==> obj is FastBitArray && Slice() == (obj as FastBitArray).Slice()
    {
      if obj is FastBitArray {
        var fa := obj as FastBitArray;
        var i := 0;
        while i < pool.perInstanceSize
          invariant 0 <= i <= pool.perInstanceSize
          invariant pool.words[index..index + i] == pool.words[fa.index..fa.index + i]
        {
          if pool.words[i + index] != pool.words[i + fa.index] {
            assert Slice()[i] != fa.Slice()[i];
            return false;
          }
          assert pool.words[index..index + i + 1] == pool.words[index..index + i] + [pool.words[index + i]];
          assert pool.words[fa.index..fa.index + i + 1] == pool.words[fa.index..fa.index + i] + [pool.words[fa.index + i]];
          i := i + 1;
        }
        return true;
      }
      return false;
    }
  }

  /**
   * A write through one instance, with a bit index inside its own slice, leaves
   * the slice of any instance whose slice does not overlap untouched.
   */
  lemma WriteStaysInOwnSlice(before: seq<Word>, after: seq<Word>, writer: nat, other: nat, size: nat, i: nat)
    requires |before| == |after| && writer + size <= |before| && other + size <= |before|
    requires i < BitsPerWord * size
    requires writer + size <= other || other + size <= writer
    requires forall j :: 0 <= j < |before| && j != writer + i / BitsPerWord ==> after[j] == before[j]
    ensures after[other..other + size] == before[other..other + size]
  {
    assert i / BitsPerWord < size;
  }
}
