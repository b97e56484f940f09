/** Little-endian sequences of 32-bit limbs and the natural number they stand for. */
module Limbs {
  const BASE: int := 0x1_0000_0000

  /** std::uint32_t */
  type u32 = x: int | 0 <= x < BASE

  /** std::uint64_t: a value stored at this type is checked not to wrap. */
  type u64 = x: int | 0 <= x < 0x1_0000_0000_0000_0000

  function Low(value: u64): u32 { value % BASE }

  function High(value: u64): u32 { value / BASE }

  ghost function Power(n: nat): (p: nat)
    ensures p >= 1
  {
    if n == 0 then 1 else BASE * Power(n - 1)
  }

  /** The number a limb sequence denotes, least significant limb first. */
  ghost function Val(s: seq<u32>): nat
  {
    if s == [] then 0 else s[0] + BASE * Val(s[1..])
  }

  /** No most significant limb is zero: the form every BigUnsigned keeps. */
  predicate Normal(s: seq<u32>) {
    s != [] ==> s[|s| - 1] != 0
  }

  ghost predicate ZeroLimbs(s: seq<u32>) {
    forall i :: 0 <= i < |s| ==> s[i] == 0
  }

  /** A product as repeated addition: it keeps nonlinear terms out of the proofs about whole numbers. */
  ghost function Times(x: int, y: int): int
    decreases if x < 0 then -x else x
  {
    if x == 0 then 0 else if x > 0 then y + Times(x - 1, y) else Times(x + 1, y) - y
  }

  lemma {:induction false} TimesIsProduct(x: int, y: int)
    ensures Times(x, y) == x * y
    decreases if x < 0 then -x else x
  {
    if x > 0 {
      TimesIsProduct(x - 1, y);
      assert (x - 1) * y == x * y - y;
    } else if x < 0 {
      TimesIsProduct(x + 1, y);
      assert (x + 1) * y == x * y + y;
    }
  }

  lemma {:induction false} TimesAdd(a: int, b: int, y: int)
    ensures Times(a + b, y) == Times(a, y) + Times(b, y)
    decreases if a < 0 then -a else a
  {
    if a > 0 {
      TimesAdd(a - 1, b, y);
      TimesNext(a + b - 1, y);
    } else if a < 0 {
      TimesAdd(a + 1, b, y);
      TimesNext(a + b, y);
    }
  }

  lemma TimesNext(a: int, y: int)
    ensures Times(a + 1, y) == Times(a, y) + y
  {
  }

  lemma TimesBase(x: int, y: int)
    ensures Times(BASE * x, y) == BASE * Times(x, y)
  {
    TimesIsProduct(BASE * x, y);
    TimesIsProduct(x, y);
  }

  lemma ScaleSum(v: int, p: int, w: int)
    ensures BASE * (v + Times(w, p)) == BASE * v + Times(w, BASE * p)
  {
    TimesIsProduct(w, p);
    TimesIsProduct(w, BASE * p);
    assert BASE * (w * p) == w * (BASE * p);
  }

  lemma StepUp(p: nat, x: int, y: int)
    requires x < y
    ensures Times(x, p) + p <= Times(y, p)
  {
    TimesIsProduct(x, p);
    TimesIsProduct(y, p);
    assert (x + 1) * p <= y * p;
  }

  lemma {:induction false} ValSnoc(s: seq<u32>, x: u32)
    ensures Val(s + [x]) == Val(s) + Times(x, Power(|s|))
  {
    if s == [] {
      assert (s + [x])[1..] == [];
      TimesIsProduct(x, 1);
    } else {
      ValSnoc(s[1..], x);
      assert (s + [x])[1..] == s[1..] + [x];
      ScaleSum(Val(s[1..]), Power(|s| - 1), x);
    }
  }

  lemma {:induction false} ValConcat(a: seq<u32>, b: seq<u32>)
    ensures Val(a + b) == Val(a) + Times(Val(b), Power(|a|))
  {
    if a == [] {
      assert a + b == b;
      TimesIsProduct(Val(b), 1);
    } else {
      ValConcat(a[1..], b);
      assert (a + b)[1..] == a[1..] + b;
      ScaleSum(Val(a[1..]), Power(|a| - 1), Val(b));
    }
  }

  lemma {:induction false} PowerAdd(m: nat, n: nat)
    ensures Power(m + n) == Times(Power(n), Power(m))
  {
    if m == 0 {
      TimesIsProduct(Power(n), 1);
    } else {
      PowerAdd(m - 1, n);
      ScaleSum(0, Power(m - 1), Power(n));
    }
  }

  lemma {:induction false} ValBound(s: seq<u32>)
    ensures Val(s) < Power(|s|)
  {
    if s != [] {
      ValBound(s[1..]);
    }
  }

  lemma {:induction false} ValZeros(s: seq<u32>)
    requires ZeroLimbs(s)
    ensures Val(s) == 0
  {
    if s != [] {
      ValZeros(s[1..]);
    }
  }

  /** A limb sequence split at k: the low part, then the high part at weight BASE^k. */
  lemma ValSplit(s: seq<u32>, k: nat)
    requires k <= |s|
    ensures Val(s) == Val(s[..k]) + Times(Val(s[k..]), Power(k))
  {
    assert s == s[..k] + s[k..];
    ValConcat(s[..k], s[k..]);
  }

  lemma ValAppendZeros(s: seq<u32>, z: seq<u32>)
    requires ZeroLimbs(z)
    ensures Val(s + z) == Val(s)
  {
    ValConcat(s, z);
    ValZeros(z);
  }

  /** A normal sequence of n > 0 limbs is at least BASE^(n-1). */
  lemma NormalLowerBound(s: seq<u32>)
    requires Normal(s) && s != []
    ensures Val(s) >= Power(|s| - 1)
  {
    var n := |s| - 1;
    assert s == s[..n] + [s[n]];
    ValSnoc(s[..n], s[n]);
    StepUp(Power(n), 0, s[n]);
  }

  lemma {:induction false} PowerMonotone(m: nat, n: nat)
    requires m <= n
    ensures Power(m) <= Power(n)
  {
    if m < n {
      PowerMonotone(m, n - 1);
    }
  }

  /** Longer normal sequences denote larger numbers. */
  lemma LongerIsGreater(s: seq<u32>, t: seq<u32>)
    requires Normal(t) && |s| < |t|
    ensures Val(s) < Val(t)
  {
    ValBound(s);
    PowerMonotone(|s|, |t| - 1);
    NormalLowerBound(t);
  }

  lemma HigherTopLimb(a: seq<u32>, b: seq<u32>, x: u32, y: u32)
    requires |a| == |b| && x < y
    ensures Val(a + [x]) < Val(b + [y])
  {
    ValSnoc(a, x);
    ValSnoc(b, y);
    ValBound(a);
    StepUp(Power(|a|), x, y);
  }

  /** At equal length the highest differing limb decides. */
  lemma HighestDifferenceDecides(s: seq<u32>, t: seq<u32>, i: nat)
    requires |s| == |t| && i < |s|
    requires s[i + 1..] == t[i + 1..]
    requires s[i] < t[i]
    ensures Val(s) < Val(t)
  {
    HigherTopLimb(s[..i], t[..i], s[i], t[i]);
    assert s[..i + 1] == s[..i] + [s[i]];
    assert t[..i + 1] == t[..i] + [t[i]];
    ValSplit(s, i + 1);
    ValSplit(t, i + 1);
  }

  /** The representation is unique: equality of limbs is equality of numbers. */
  lemma {:induction false} NormalUnique(s: seq<u32>, t: seq<u32>)
    requires Normal(s) && Normal(t)
    requires Val(s) == Val(t)
    ensures s == t
  {
    if |s| < |t| {
      LongerIsGreater(s, t);
    } else if |t| < |s| {
      LongerIsGreater(t, s);
    } else if s != [] {
      assert s[0] == Val(s) % BASE && t[0] == Val(t) % BASE;
      assert Val(s[1..]) == Val(t[1..]);
      NormalUnique(s[1..], t[1..]);
      assert s == [s[0]] + s[1..] && t == [t[0]] + t[1..];
    }
  }

  // ---------------------------------------------------------------------------------------------
  // Schoolbook loops. Each works limb by limb and owes a carry (negative: a borrow) at the next weight.

  lemma MulLe(a: int, b: int, c: nat)
    requires a <= b
    ensures a * c <= b * c && c * a <= c * b
  {
  }

  /** The product of two limbs plus two more limbs is at most 2^64 - 1. */
  function ProductPlus(x: u64, y: u32, addend: u64): (sum: u64)
    requires x < BASE && addend <= 2 * (BASE - 1)
    ensures sum == x * y + addend
  {
    MulLe(x, BASE - 1, y);
    x * y + addend
  }

  /** What the low limbs of a + f * vs look like once the carry is counted. */
  ghost predicate Acc(now: seq<u32>, a: int, vs: seq<u32>, f: int, carry: int) {
    |now| == |vs| && Val(now) == a + Times(f, Val(vs)) - Times(carry, Power(|now|))
  }

  lemma AccProducts(p: int, n: int, c: int, a: int, f: int, b: int, x: int, c': int, w: int, v: int)
    requires n == a + f * b - c * p
    requires x == w + f * v + c - c' * BASE
    ensures n + x * p == (a + w * p) + f * (b + v * p) - c' * (BASE * p)
  {
    assert f * (b + v * p) == f * b + (f * v) * p;
    assert x * p == w * p + (f * v) * p + c * p - (c' * BASE) * p;
    assert (c' * BASE) * p == c' * (BASE * p);
  }

  lemma AccArithmetic(p: int, n: int, c: int, a: int, f: int, b: int, x: int, c': int, w: int, v: int)
    requires n == a + Times(f, b) - Times(c, p)
    requires x == w + f * v + c - c' * BASE
    ensures n + Times(x, p) == (a + Times(w, p)) + Times(f, b + Times(v, p)) - Times(c', BASE * p)
  {
    assert n + x * p == (a + w * p) + f * (b + v * p) - c' * (BASE * p) by {
      TimesIsProduct(f, b);
      TimesIsProduct(c, p);
      AccProducts(p, n, c, a, f, b, x, c', w, v);
    }
    TimesIsProduct(x, p);
    TimesIsProduct(w, p);
    TimesIsProduct(v, p);
    TimesIsProduct(f, b + v * p);
    TimesIsProduct(c', BASE * p);
  }

  lemma {:induction false} AccStep(now: seq<u32>, a: int, vs: seq<u32>, f: int, carry: int, w: int, v: u32, x: u32,
                                   carry': int)
    requires Acc(now, a, vs, f, carry)
    requires x == w + f * v + carry - carry' * BASE
    ensures Acc(now + [x], a + Times(w, Power(|now|)), vs + [v], f, carry')
  {
    ValSnoc(now, x);
    ValSnoc(vs, v);
    AccArithmetic(Power(|now|), Val(now), carry, a, f, Val(vs), x, carry', w, v);
  }

  lemma AccEmpty(f: int, carry: int)
    ensures Acc([], carry, [], f, carry)
  {
    TimesIsProduct(f, 0);
    TimesIsProduct(carry, 1);
  }

  /** After i limbs of now := was + f * vs at offset j; everything outside those limbs is as it was. */
  ghost predicate Accumulated(was: seq<u32>, now: seq<u32>, j: nat, i: nat, vs: seq<u32>, f: int, carry: int) {
    && |now| == |was| && j + i <= |was| && i <= |vs|
    && now[..j] == was[..j] && now[j + i..] == was[j + i..]
    && Acc(now[j..j + i], Val(was[j..j + i]), vs[..i], f, carry)
  }

  lemma SnocSlice(s: seq<u32>, lo: nat, hi: nat)
    requires lo <= hi < |s|
    ensures s[lo..hi + 1] == s[lo..hi] + [s[hi]]
    ensures Val(s[lo..hi + 1]) == Val(s[lo..hi]) + Times(s[hi], Power(hi - lo))
  {
    assert s[lo..hi + 1] == s[lo..hi] + [s[hi]];
    ValSnoc(s[lo..hi], s[hi]);
  }

  lemma AccumulateLimb(was: seq<u32>, now: seq<u32>, j: nat, i: nat, vs: seq<u32>, f: int, carry: int,
                       x: u32, carry': int)
    requires Accumulated(was, now, j, i, vs, f, carry)
    requires j + i < |was| && i < |vs|
    requires x == was[j + i] + f * vs[i] + carry - carry' * BASE
    ensures Accumulated(was, now[j + i := x], j, i + 1, vs, f, carry')
  {
    var next := now[j + i := x];
    AccStep(now[j..j + i], Val(was[j..j + i]), vs[..i], f, carry, was[j + i], vs[i], x, carry');
    assert next[j..j + i + 1] == now[j..j + i] + [x];
    assert vs[..i + 1] == vs[..i] + [vs[i]];
    SnocSlice(was, j, j + i);
    assert next[j + i + 1..] == now[j + i..][1..];
    assert was[j + i + 1..] == was[j + i..][1..];
  }

  lemma AccumulateStart(was: seq<u32>, j: nat, vs: seq<u32>, f: int)
    requires j <= |was|
    ensures Accumulated(was, was, j, 0, vs, f, 0)
  {
    AccEmpty(f, 0);
  }

  /** A limb not yet reached is the original one. */
  lemma NotYetReached(was: seq<u32>, now: seq<u32>, j: nat, i: nat, vs: seq<u32>, f: int, carry: int)
    requires Accumulated(was, now, j, i, vs, f, carry)
    requires j + i < |was|
    ensures now[j + i] == was[j + i]
  {
    assert now[j + i] == now[j + i..][0];
    assert was[j + i] == was[j + i..][0];
  }
}
