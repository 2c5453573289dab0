/**
 * Shard routing in GraphEngine.getSegment: Math.abs(id.hashCode()) % 16.
 * Java's String.hashCode is the 32-bit wrapping fold h = 31 * h + c over the
 * string's UTF-16 code units; Math.abs negates in 32 bits, so it leaves
 * Integer.MIN_VALUE negative; and Java's % truncates toward zero.
 */
module Routing {
  import opened DataIO

  /** BUCKET_COUNT: the number of shards. */
  const BucketCount: int := 16
  /** MAX_ACTIVE_SEGMENTS: how many shards the LRU keeps loaded. */
  const MaxActiveSegments: int := 4

  const MinInt: int32 := -0x8000_0000

  /** String.hashCode of the code units `us`, folding from the left with 32-bit wrap-around. */
  function HashUnits(us: seq<unit16>): int32
    decreases |us|
  {
    if us == [] then 0
    else WrapInt32(31 * HashUnits(us[..|us| - 1]) + us[|us| - 1])
  }

  /** String.hashCode. */
  function HashOf(s: string): int32 {
    HashUnits(Units(s))
  }

  /** Math.abs(int): the negation wraps, so MIN_VALUE stays MIN_VALUE. */
  function Abs32(x: int32): int32 {
    if x < 0 then WrapInt32(0 - x as int) else x
  }

  /** Java's % on int: the remainder takes the sign of the dividend. */
  function JavaRem(a: int, b: int): int
    requires b > 0
  {
    if a >= 0 then a % b else -((-a) % b)
  }

  /** The shard an id is routed to; always a valid shard, MIN_VALUE hashes included. */
  function SegmentOf(id: string): (r: int)
    ensures 0 <= r < BucketCount
  {
    var a := Abs32(HashOf(id));
    AbsRange(HashOf(id));
    JavaRem(a, BucketCount)
  }

  /** Math.abs is the magnitude except at MIN_VALUE, the one input it leaves negative. */
  lemma AbsRange(x: int32)
    ensures x != MinInt ==> Abs32(x) == if x < 0 then -x else x
    ensures Abs32(x) < 0 <==> x == MinInt
  {
  }

  /** The hash as a plain polynomial, with no wrap-around: sum of c[i] * 31^(n-1-i). */
  function Poly(us: seq<unit16>): int
    decreases |us|
  {
    if us == [] then 0 else 31 * Poly(us[..|us| - 1]) + us[|us| - 1]
  }

  /** hashCode agrees with the polynomial modulo 2^32: they differ by a multiple `k` of 2^32. */
  lemma {:induction false} HashIsPoly(us: seq<unit16>) returns (k: int)
    ensures HashUnits(us) == Poly(us) + k * 0x1_0000_0000
    decreases |us|
  {
    if us == [] {
      k := 0;
    } else {
      var front := us[..|us| - 1];
      var j := HashIsPoly(front);
      var x := 31 * HashUnits(front) + us[|us| - 1];
      var w := WrapShift(x);
      k := w + 31 * j;
    }
  }

  /** The 32-bit wrap of `x` is `x` plus a multiple `w` of 2^32. */
  lemma WrapShift(x: int) returns (w: int)
    ensures WrapInt32(x) == x + w * 0x1_0000_0000
  {
    if x % 0x1_0000_0000 >= 0x8000_0000 {
      w := -(x / 0x1_0000_0000) - 1;
    } else {
      w := -(x / 0x1_0000_0000);
    }
  }

  /** Adding a multiple of 2^32 does not change a remainder by 16. */
  lemma ShiftRem(a: int, k: int)
    ensures (a + k * 0x1_0000_0000) % 16 == a % 16
  {
    var j := k * 0x1000_0000;
    assert a + k * 0x1_0000_0000 == a + 16 * j;
  }

  /**
   * An independent reading of the route: the shard is the unbounded
   * polynomial's remainder by 16, negated for a negative hash, because 16
   * divides 2^32.
   */
  lemma SegmentOfPoly(id: string)
    ensures var h, p := HashOf(id), Poly(Units(id));
            SegmentOf(id) == if h >= 0 then p % 16 else if h == MinInt then 0 else (-p) % 16
  {
    var h, p := HashOf(id), Poly(Units(id));
    var k := HashIsPoly(Units(id));
    ShiftRem(p, k);
    if h < 0 && h != MinInt {
      ShiftRem(-p, -k);
      assert -h == -p + (-k) * 0x1_0000_0000;
    }
  }

  /** A hash of MIN_VALUE: Math.abs leaves it negative, yet its remainder is 0. */
  lemma MinValueRoutesToZero(id: string)
    requires HashOf(id) == MinInt
    ensures Abs32(HashOf(id)) < 0 && SegmentOf(id) == 0
  {
  }

  /** "xfjfxtf" is a string whose hashCode is MIN_VALUE; it routes to shard 0. */
  lemma MinValueExample()
    ensures HashOf("xfjfxtf") == MinInt
    ensures SegmentOf("xfjfxtf") == 0
  {
    var s := "xfjfxtf";
    AsciiUnits(s);
    var p0: seq<unit16> := [];
    var p1 := HashStep(p0, 120); WrapBy(120, 0);
    var p2 := HashStep(p1, 102); WrapBy(3822, 0);
    var p3 := HashStep(p2, 106); WrapBy(118588, 0);
    var p4 := HashStep(p3, 102); WrapBy(3676330, 0);
    var p5 := HashStep(p4, 120); WrapBy(113966350, 0);
    var p6 := HashStep(p5, 116); WrapBy(3532956966, -1);
    var p7 := HashStep(p6, 102); WrapBy(-23622320128, 5);
    assert Units(s) == p7;
  }

  /** The wrap of `x` when it is known to be `x` plus `w` times 2^32. */
  lemma WrapBy(x: int, w: int)
    requires -0x8000_0000 <= x + w * 0x1_0000_0000 < 0x8000_0000
    ensures WrapInt32(x) == x + w * 0x1_0000_0000
  {
    var v := WrapShift(x);
    assert (v - w) * 0x1_0000_0000 == WrapInt32(x) - (x + w * 0x1_0000_0000);
  }

  /** Appending one code unit takes one step of the fold. */
  lemma HashStep(us: seq<unit16>, c: unit16) returns (r: seq<unit16>)
    ensures r == us + [c]
    ensures HashUnits(r) == WrapInt32(31 * HashUnits(us) + c)
  {
    r := us + [c];
    assert r[..|r| - 1] == us;
  }

  /** A string of characters below U+10000 has one code unit per character. */
  lemma {:induction false} AsciiUnits(s: string)
    requires forall i | 0 <= i < |s| :: s[i] as int < 0x1_0000
    ensures |Units(s)| == |s|
    ensures forall i | 0 <= i < |s| :: Units(s)[i] == s[i] as int
  {
    if s != [] {
      AsciiUnits(s[1..]);
    }
  }
}
