// The keyed 4-lane generator of my_random.cpp: a 31-bit linear-congruential
// step applied lane-wise to a seed built from a time value, and its mapping
// onto an integer range. Every lane is an `unsigned int` (`u32`) whose
// arithmetic wraps modulo 2^32; `&` is bitwise conjunction on naturals.
module MyRandom {
  import opened CArith

  const MASK31: nat := 0x7fff_ffff
  const MULTIPLIER: nat := 1103515245
  const INCREMENT: nat := 12345

  datatype UVec4 = UVec4(x: u32, y: u32, z: u32, w: u32)
  datatype IVec4 = IVec4(x: i32, y: i32, z: i32, w: i32)

  function Pow2(k: nat): (r: nat)
    ensures r >= 1
  {
    if k == 0 then 1 else 2 * Pow2(k - 1)
  }

  /** Bitwise `&` on non-negative integers, one bit at a time from the least significant. */
  function BitAnd(a: nat, b: nat): (r: nat)
    ensures r <= a && r <= b
  {
    if a == 0 || b == 0 then 0
    else 2 * BitAnd(a / 2, b / 2) + (if a % 2 == 1 && b % 2 == 1 then 1 else 0)
  }
  lemma HalveMod(x: nat, m: nat)
    requires m >= 1
    ensures x % (2 * m) == 2 * ((x / 2) % m) + x % 2
  {
    var q, r := x / 2, x % 2;
    var q', r' := q / m, q % m;
    assert q == m * q' + r';
    assert x == (2 * m) * q' + (2 * r' + r);
    ModUnique(x, 2 * m, q', 2 * r' + r);
  }

  /** `x & (2m - 1)`: the low bit of x, above it `(x / 2) & (m - 1)`. */
  lemma BitAndOddMask(x: nat, m: nat)
    requires m >= 1
    ensures BitAnd(x, 2 * m - 1) == 2 * BitAnd(x / 2, m - 1) + x % 2
  {
    var mask := 2 * m - 1;
    assert mask / 2 == m - 1 && mask % 2 == 1;
  }

  /** Masking with k low one-bits keeps the residue modulo 2^k. */
  lemma {:induction false} BitAndLowMask(x: nat, k: nat)
    ensures BitAnd(x, Pow2(k) - 1) == x % Pow2(k)
  {
    if k > 0 {
      var m := Pow2(k - 1);
      assert Pow2(k) == 2 * m;
      BitAndOddMask(x, m);
      BitAndLowMask(x / 2, k - 1);
      HalveMod(x, m);
    }
  }

  lemma Pow2Of31()
    ensures Pow2(31) == TWO31 && MASK31 == TWO31 - 1
  {
    assert Pow2(10) == 0x400;
    assert Pow2(20) == 0x10_0000;
    assert Pow2(31) == 0x8000_0000;
  }

  /** `x & 0x7fffffff` is `x mod 2^31`. */
  lemma MaskIsMod31(x: nat)
    ensures BitAnd(x, MASK31) == x % TWO31
  {
    Pow2Of31();
    BitAndLowMask(x, 31);
  }

  /** Adding a multiple of 2^32 does not change a residue modulo 2^31. */
  lemma Mod31IgnoresWrap(x: int, q: int)
    ensures (x + TWO32 * q) % TWO31 == x % TWO31
  {
    var q1, r1 := x / TWO31, x % TWO31;
    assert x + TWO32 * q == TWO31 * (q1 + 2 * q) + r1;
    ModUnique(x + TWO32 * q, TWO31, q1 + 2 * q, r1);
  }

  /** 32-bit wrap-around followed by the 31-bit mask is reduction modulo 2^31. */
  lemma WrapThenMask(x: int)
    ensures BitAnd(Wrap32(x), MASK31) == x % TWO31
  {
    MaskIsMod31(Wrap32(x));
    var q :| x == TWO32 * q + Wrap32(x);
    Mod31IgnoresWrap(Wrap32(x), q);
  }

  /** One lane of `my_srand`: `seed & 0x7fffffff`. */
  function SeedLane(s: u32): (r: u32)
    ensures r == s % TWO31 && r < TWO31
  {
    MaskIsMod31(s);
    BitAnd(s, MASK31)
  }

  /** Both 32-bit wraps of the LCG step vanish under the 31-bit mask. */
  lemma LcgWraps(s: u32)
    ensures BitAnd(Wrap32(Wrap32(s * MULTIPLIER) + INCREMENT), MASK31) == (s * MULTIPLIER + INCREMENT) % TWO31
  {
    var x := s * MULTIPLIER;
    var q := x / TWO32;
    var y := Wrap32(x) + INCREMENT;
    assert y == x + INCREMENT + TWO32 * -q;
    WrapThenMask(y);
    Mod31IgnoresWrap(x + INCREMENT, -q);
  }

  /** One lane of `my_rand`: the product and the sum wrap in `unsigned int`, then the mask. */
  function RandLane(s: u32): (r: i32)
    ensures r == (s * MULTIPLIER + INCREMENT) % TWO31
    ensures 0 <= r < TWO31
  {
    LcgWraps(s);
    BitAnd(Wrap32(Wrap32(s * MULTIPLIER) + INCREMENT), MASK31)
  }

  /** `my_srand`: every lane reduced to its low 31 bits. */
  function MySrand(seed: UVec4): (r: UVec4)
    ensures r.x == seed.x % TWO31 && r.y == seed.y % TWO31
    ensures r.z == seed.z % TWO31 && r.w == seed.w % TWO31
  {
    UVec4(SeedLane(seed.x), SeedLane(seed.y), SeedLane(seed.z), SeedLane(seed.w))
  }

  /** `my_rand`: one LCG step per lane, converted to a non-negative `int`. */
  function MyRand(seed: UVec4): (r: IVec4)
    ensures r.x == (seed.x * MULTIPLIER + INCREMENT) % TWO31
    ensures r.y == (seed.y * MULTIPLIER + INCREMENT) % TWO31
    ensures r.z == (seed.z * MULTIPLIER + INCREMENT) % TWO31
    ensures r.w == (seed.w * MULTIPLIER + INCREMENT) % TWO31
    ensures r.x >= 0 && r.y >= 0 && r.z >= 0 && r.w >= 0
  {
    IVec4(RandLane(seed.x), RandLane(seed.y), RandLane(seed.z), RandLane(seed.w))
  }

  /** The seed `random_range` derives from `time`: `time`, `time * 1000`, `time * 2000` and `time * 3000`, wrapped to 32 bits. */
  function TimeSeed(time: u32): (r: UVec4)
    ensures r.x == time
    ensures r.y == (1000 * time) % TWO32 && r.z == (2000 * time) % TWO32 && r.w == (3000 * time) % TWO32
  {
    UVec4(time, Wrap32(time * 1000), Wrap32(time * 2000), Wrap32(time * 3000))
  }

  /** `max - min + 1` after the swap, when it is representable as an `int`. */
  predicate SpanFits(min: i32, max: i32)
  {
    Abs(max - min) + 1 < TWO31
  }

  /** One lane of the range mapping: `r % (hi - lo + 1) + lo` with C++ `%`. */
  function RangeLane(r: i32, lo: i32, hi: i32): (v: i32)
    requires 0 <= r && lo <= hi && hi - lo + 1 < TWO31
    ensures lo <= v <= hi
    ensures v - lo == r % (hi - lo + 1)
  {
    TruncAgrees(r, hi - lo + 1);
    TruncMod(r, hi - lo + 1) + lo
  }

  /**
   * `random_range(min, max, time)`: the bounds are swapped when given in the
   * wrong order, then every lane of `my_rand(my_srand(seed(time)))` is mapped
   * into the closed range. C++ leaves `max - min + 1` overflowing `int`
   * undefined, hence the precondition.
   */
  function RandomRange(min: i32, max: i32, time: u32): (r: IVec4)
    requires SpanFits(min, max)
    ensures var lo, hi := if min > max then max else min, if min > max then min else max;
      lo <= r.x <= hi && lo <= r.y <= hi && lo <= r.z <= hi && lo <= r.w <= hi
  {
    var lo, hi := if min > max then max else min, if min > max then min else max;
    var g := MyRand(MySrand(TimeSeed(time)));
    IVec4(RangeLane(g.x, lo, hi), RangeLane(g.y, lo, hi), RangeLane(g.z, lo, hi), RangeLane(g.w, lo, hi))
  }

  /** Swapping the bounds is not an error: both orders give the same draw. */
  lemma RandomRangeOrderFree(min: i32, max: i32, time: u32)
    requires SpanFits(min, max)
    ensures SpanFits(max, min) && RandomRange(min, max, time) == RandomRange(max, min, time)
  {
  }

  /** A degenerate range pins every lane to its single value. */
  lemma RandomRangeSingleton(v: i32, time: u32)
    ensures RandomRange(v, v, time) == IVec4(v, v, v, v)
  {
  }
}
