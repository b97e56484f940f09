/** Shifting a whole limb sequence by fewer than 32 bits, limb by limb. */
module Shifts {
  import opened Limbs

  function Pow2(n: nat): (p: nat)
    ensures p >= 1
  {
    if n == 0 then 1 else 2 * Pow2(n - 1)
  }

  lemma {:induction false} Pow2Add(m: nat, n: nat)
    ensures Pow2(m) * Pow2(n) == Pow2(m + n)
  {
    if m > 0 {
      Pow2Add(m - 1, n);
      Doubled(Pow2(m - 1), Pow2(n));
    }
  }

  lemma Doubled(x: int, q: int)
    ensures (2 * x) * q == 2 * (x * q) == x * (2 * q)
  {
  }

  /** 2^s * 2^(32-s) == BASE. */
  lemma Pow2Base(s: nat)
    requires s <= 32
    ensures Pow2(s) * Pow2(32 - s) == BASE
  {
    Pow2Add(s, 32 - s);
    Pow2Is32();
  }

  lemma Pow2Is32()
    ensures Pow2(31) == BASE / 2 && Pow2(32) == BASE
  {
    assert Pow2(8) == 256;
    Pow2Add(8, 8);
    assert Pow2(16) == 65536;
    Pow2Add(16, 16);
  }

  /** std::countl_zero: the shift that brings a limb's highest bit to the top. */
  function CountlZero(x: u32): (s: nat)
    requires x > 0
    decreases BASE - x
  {
    if x >= BASE / 2 then 0 else 1 + CountlZero(2 * x)
  }

  lemma {:induction false} CountlZeroNormalises(x: u32)
    requires x > 0
    ensures BASE / 2 <= x * Pow2(CountlZero(x)) < BASE
    ensures CountlZero(x) < 32
    decreases BASE - x
  {
    CountlZeroBits(x, 0);
    if x < BASE / 2 {
      CountlZeroNormalises(2 * x);
      Doubled(x, Pow2(CountlZero(2 * x)));
    }
  }

  lemma {:induction false} CountlZeroBits(x: u32, bits: nat)
    requires bits <= 31 && Pow2(bits) <= x
    ensures CountlZero(x) <= 31 - bits
    decreases BASE - x
  {
    if x < BASE / 2 {
      assert bits < 31 by { Pow2Is32(); }
      CountlZeroBits(2 * x, bits + 1);
    }
  }

  /** The bitwise or of two numbers without common bits: a is a multiple of p and b is below p. */
  function OrDisjoint(a: u64, b: u64, p: nat): (r: int)
    requires p > 0 && a % p == 0 && b < p
    ensures r == a + b
  {
    a + b
  }

  lemma DivideBelow(x: nat, p: nat, q: nat)
    requires p > 0 && x < p * q
    ensures x / p < q
  {
    if x / p >= q {
      MulLe(q, x / p, p);
      assert false;
    }
  }

  lemma MultipleMod(x: nat, p: nat)
    requires p > 0
    ensures (x * p) % p == 0
  {
    ModUnique(x * p, x, 0, p);
  }

  lemma ModUnique(n: int, q: int, r: int, d: int)
    requires d > 0 && n == q * d + r && 0 <= r < d
    ensures n / d == q && n % d == r
  {
    var q', r' := n / d, n % d;
    assert (q' - q) * d == r - r';
    if q' < q {
      MulLe(q' - q, -1, d);
      assert false;
    } else if q < q' {
      MulLe(1, q' - q, d);
      assert false;
    }
  }

  /** One limb of a shift by p = 2^s: low((upper << s) | (lower >> (32 - s))), with co = 2^(32-s). */
  function ShiftedLimb(upper: u32, lower: u32, p: nat, co: nat): (limb: u32)
    requires p > 0 && co > 0 && p * co == BASE
    ensures limb == (upper % co) * p + lower / co
  {
    ShiftFits(upper, lower, p, co);
    MultipleMod(upper, p);
    var both: u64 := OrDisjoint(upper * p, lower / co, p);
    Low(both)
  }

  lemma SplitUpper(upper: nat, p: nat, co: nat)
    requires p > 0 && co > 0 && p * co == BASE
    ensures upper * p == (upper / co) * BASE + (upper % co) * p
    ensures (upper % co) * p + p <= BASE
    ensures upper / co <= upper
  {
    var x, y := upper / co, upper % co;
    assert (x * co + y) * p == x * (p * co) + y * p;
    MulLe(y + 1, co, p);
    assert (y + 1) * p == y * p + p;
    MulLe(1, co, x);
  }

  lemma ShiftFits(upper: u32, lower: u32, p: nat, co: nat)
    requires p > 0 && co > 0 && p * co == BASE
    ensures 0 <= upper * p + lower / co < BASE * BASE && 0 <= upper * p < BASE * BASE
    ensures lower / co < p
    ensures (upper * p + lower / co) % BASE == (upper % co) * p + lower / co < BASE
  {
    DivideBelow(lower, co, p);
    SplitUpper(upper, p, co);
    SplitSum(upper * p, upper / co, (upper % co) * p, lower / co);
  }

  lemma SplitSum(a: int, x: nat, y: nat, b: nat)
    requires a == x * BASE + y && x < BASE && y + b < BASE
    ensures 0 <= a + b < BASE * BASE && a >= 0 && (a + b) % BASE == y + b
  {
  }

  // ---------------------------------------------------------------------------------------------
  // Left: dst holds the low limbs of src * p; what leaves the top limb is src's top limb / co.

  ghost function LeftLimb(src: seq<u32>, k: nat, p: nat, co: nat): int
    requires co > 0 && k < |src|
  {
    (src[k] % co) * p + (if k == 0 then 0 else src[k - 1] / co)
  }

  ghost predicate ShiftedLeft(src: seq<u32>, dst: seq<u32>, p: nat, co: nat)
    requires co > 0
  {
    |dst| == |src| &&
    forall k {:trigger LeftLimb(src, k, p, co)} :: 0 <= k < |src| ==> dst[k] == LeftLimb(src, k, p, co)
  }

  lemma ShiftLeftStep(x: int, hi: int, lo: int, below: int, p: int, co: int, w: int, a: int, b: int)
    requires p * co == BASE && x == hi * co + lo
    requires b + Times(below, w) == Times(p, a)
    ensures (b + Times(Times(lo, p) + below, w)) + Times(hi, BASE * w) == Times(p, a + Times(x, w))
  {
    TimesIsProduct(lo, p);
    TimesIsProduct(below, w);
    TimesIsProduct(p, a);
    TimesIsProduct(lo * p + below, w);
    TimesIsProduct(hi, BASE * w);
    TimesIsProduct(x, w);
    TimesIsProduct(p, a + x * w);
    ShiftLeftProducts(x, hi, lo, below, p, co, w, a, b);
  }

  lemma ShiftLeftProducts(x: int, hi: int, lo: int, below: int, p: int, co: int, w: int, a: int, b: int)
    requires p * co == BASE && x == hi * co + lo
    requires b + below * w == p * a
    ensures (b + (lo * p + below) * w) + hi * (BASE * w) == p * (a + x * w)
  {
    assert p * (a + x * w) == p * a + (p * x) * w;
    assert p * x == hi * (p * co) + lo * p;
    assert (p * x) * w == (hi * BASE) * w + (lo * p) * w;
    assert hi * (BASE * w) == (hi * BASE) * w;
  }

  /** What the limbs below k spill into limb k. */
  ghost function Spill(src: seq<u32>, k: nat, co: nat): nat
    requires co > 0 && k <= |src|
  {
    if k == 0 then 0 else src[k - 1] / co
  }

  lemma LeftLimbParts(src: seq<u32>, dst: seq<u32>, p: nat, co: nat, k: nat) returns (lo: nat)
    requires co > 0 && k < |src| && ShiftedLeft(src, dst, p, co)
    ensures dst[k] == Times(lo, p) + Spill(src, k, co)
    ensures src[k] == Spill(src, k + 1, co) * co + lo
  {
    lo := src[k] % co;
    assert dst[k] == LeftLimb(src, k, p, co);
    TimesIsProduct(lo, p);
  }

  lemma {:induction false} ShiftLeftPrefix(src: seq<u32>, dst: seq<u32>, p: nat, co: nat, k: nat)
    requires co > 0 && p * co == BASE
    requires k <= |src| && ShiftedLeft(src, dst, p, co)
    ensures Val(dst[..k]) + Times(Spill(src, k, co), Power(k)) == Times(p, Val(src[..k]))
  {
    if k == 0 {
      TimesIsProduct(p, 0);
    } else {
      ShiftLeftPrefix(src, dst, p, co, k - 1);
      var lo := LeftLimbParts(src, dst, p, co, k - 1);
      ShiftLeftSnoc(src[..k - 1], dst[..k - 1], src[k - 1], dst[k - 1],
                    Spill(src, k, co), lo, Spill(src, k - 1, co), p, co);
      assert src[..k] == src[..k - 1] + [src[k - 1]];
      assert dst[..k] == dst[..k - 1] + [dst[k - 1]];
    }
  }

  lemma ShiftLeftSnoc(s: seq<u32>, d: seq<u32>, x: u32, y: u32, hi: nat, lo: nat, below: nat, p: nat, co: nat)
    requires p * co == BASE && x == hi * co + lo && |d| == |s|
    requires Val(d) + Times(below, Power(|s|)) == Times(p, Val(s))
    requires y == Times(lo, p) + below
    ensures Val(d + [y]) + Times(hi, Power(|s| + 1)) == Times(p, Val(s + [x]))
  {
    ValSnoc(s, x);
    ValSnoc(d, y);
    ShiftLeftStep(x, hi, lo, below, p, co, Power(|s|), Val(s), Val(d));
  }

  /** The shifted limbs and what spilled out of the top one are src * p. */
  lemma ShiftLeftValue(src: seq<u32>, dst: seq<u32>, p: nat, co: nat)
    requires co > 0 && p * co == BASE
    requires src != [] && ShiftedLeft(src, dst, p, co)
    ensures Val(dst) + Times(src[|src| - 1] / co, Power(|src|)) == Times(p, Val(src))
  {
    ShiftLeftPrefix(src, dst, p, co, |src|);
    assert dst[..|src|] == dst && src[..|src|] == src;
  }

  // ---------------------------------------------------------------------------------------------
  // Right: dst is src / p, and the remainder is the bits that fell off the lowest limb.

  ghost function RightLimb(src: seq<u32>, k: nat, p: nat, co: nat): int
    requires p > 0 && k < |src|
  {
    (if k + 1 == |src| then 0 else (src[k + 1] % p) * co) + src[k] / p
  }

  ghost predicate ShiftedRight(src: seq<u32>, dst: seq<u32>, p: nat, co: nat)
    requires p > 0
  {
    |dst| == |src| &&
    forall k {:trigger RightLimb(src, k, p, co)} :: 0 <= k < |src| ==> dst[k] == RightLimb(src, k, p, co)
  }

  /** The bits of limb k that go to the limb below it. */
  ghost function Dropped(src: seq<u32>, k: nat, p: nat): nat
    requires p > 0 && k <= |src|
  {
    if k == |src| then 0 else src[k] % p
  }

  lemma RightLimbParts(src: seq<u32>, dst: seq<u32>, p: nat, co: nat, k: nat) returns (hi: nat)
    requires p > 0 && k < |src| && ShiftedRight(src, dst, p, co)
    ensures dst[k] == Dropped(src, k + 1, p) * co + hi
    ensures src[k] == hi * p + Dropped(src, k, p)
  {
    hi := src[k] / p;
    assert dst[k] == RightLimb(src, k, p, co);
  }

  lemma {:induction false} ShiftRightSuffix(src: seq<u32>, dst: seq<u32>, p: nat, co: nat, k: nat)
    requires p > 0 && p * co == BASE
    requires k <= |src| && ShiftedRight(src, dst, p, co)
    ensures Times(p, Val(dst[k..])) + Dropped(src, k, p) == Val(src[k..])
    decreases |src| - k
  {
    if k == |src| {
      TimesIsProduct(p, 0);
    } else {
      ShiftRightSuffix(src, dst, p, co, k + 1);
      var hi := RightLimbParts(src, dst, p, co, k);
      assert src[k..][1..] == src[k + 1..] && dst[k..][1..] == dst[k + 1..];
      ShiftRightStep(dst[k], src[k], hi, Dropped(src, k, p), Dropped(src, k + 1, p), p, co,
                     Val(dst[k + 1..]), Val(src[k + 1..]));
    }
  }

  lemma ShiftRightValue(src: seq<u32>, dst: seq<u32>, p: nat, co: nat)
    requires p > 0 && p * co == BASE
    requires src != [] && ShiftedRight(src, dst, p, co)
    ensures Times(p, Val(dst)) + src[0] % p == Val(src)
  {
    ShiftRightSuffix(src, dst, p, co, 0);
    assert dst[0..] == dst && src[0..] == src;
  }

  lemma ShiftRightStep(y: int, x: int, hi: int, lo: int, above: int, p: int, co: int, d: int, s: int)
    requires p * co == BASE && x == hi * p + lo
    requires y == above * co + hi
    requires Times(p, d) + above == s
    ensures Times(p, y + BASE * d) + lo == x + BASE * s
  {
    TimesIsProduct(p, d);
    TimesIsProduct(p, y + BASE * d);
    ShiftRightProducts(y, x, hi, lo, above, p, co, d, s);
  }

  lemma ShiftRightProducts(y: int, x: int, hi: int, lo: int, above: int, p: int, co: int, d: int, s: int)
    requires p * co == BASE && x == hi * p + lo
    requires y == above * co + hi
    requires p * d + above == s
    ensures p * (y + BASE * d) + lo == x + BASE * s
  {
    assert p * y == above * (p * co) + hi * p;
    assert p * (BASE * d) == BASE * (p * d);
  }
}
