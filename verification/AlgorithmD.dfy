/** Knuth's algorithm D, one quotient digit at a time, on a dividend buffer u and a normalised divisor v: one whose
    leading limb is at least half the base. */
module AlgorithmD {
  import opened Limbs

  // ---------------------------------------------------------------------------------------------
  // D3: the digit estimate.

  lemma ScaleLess(a: int, b: int, p: nat)
    requires a < b
    ensures a * p + p <= b * p
  {
    assert (a + 1) * p <= b * p;
  }

  lemma Distribute(e: int, v1: int, v0: int)
    ensures e * (v1 * BASE + v0) == (e * v1) * BASE + e * v0
  {
  }

  /** Quotient and remainder of a 64-bit number by a limb. */
  function Divide64(n: u64, d: u32): (r: (u64, u64))
    requires d > 0
    ensures r.0 * d + r.1 == n && r.1 < d
  {
    assert n / d <= n;
    (n / d, n % d)
  }

  /** Dividing a remainder and one more limb by the divisor gives one limb. */
  lemma QuotientIsLimb(q: nat, r: nat, rest: nat, x: u32, d: nat)
    requires q * d + r == rest * BASE + x && rest < d
    ensures q < BASE
  {
    if q >= BASE {
      MulLe(BASE, q, d);
      assert false;
    }
  }

  /** D3: the quotient of the window's top three limbs by the divisor's top two, capped at BASE - 1. */
  method EstimateDigit(w2: u32, w1: u32, w0: u32, v1: u32, v0: u32) returns (estimate: u32)
    requires w2 <= v1 && 0 < v1
    ensures var t, d := (w2 * BASE + w1) * BASE + w0, v1 * BASE + v0;
            estimate * d <= t && (estimate == BASE - 1 || t < (estimate + 1) * d)
  {
    var numerator: u64 := w2 * BASE + w1;
    var first := Divide64(numerator, v1);
    var guess: u64, rest: u64 := first.0, first.1;
    ghost var t, d := numerator * BASE + w0, v1 * BASE + v0;
    FirstGuessNotTooSmall(guess, rest, v1, v0, w0);
    while guess >= BASE ||
          (var product: u64 := ProductPlus(guess, v0, 0); var bound: u64 := rest * BASE + w0; product > bound)
      invariant guess * v1 + rest == numerator
      invariant rest < BASE
      invariant guess >= BASE - 1 || t < (guess + 1) * d
      decreases guess
    {
      GuessTooLarge(guess, rest, v1, v0, w0);
      assert (guess - 1) * v1 == guess * v1 - v1;
      guess := guess - 1;
      rest := rest + v1;
      if rest >= BASE {
        BreakIsSound(guess, rest, w2, w1, v1, v0, w0);
        break;
      }
    }
    assert guess < BASE && guess * v0 <= rest * BASE + w0;
    Distribute(guess, v1, v0);
    estimate := guess;
  }

  lemma FirstGuessNotTooSmall(e: nat, rest: nat, v1: u32, v0: u32, w0: u32)
    requires rest < v1
    ensures (e * v1 + rest) * BASE + w0 < (e + 1) * (v1 * BASE + v0)
  {
    Distribute(e + 1, v1, v0);
    assert (e + 1) * v1 == e * v1 + v1;
  }

  lemma GuessTooLarge(e: nat, rest: nat, v1: u32, v0: u32, w0: u32)
    requires e >= BASE || e * v0 > rest * BASE + w0
    ensures e > 0
    ensures e >= BASE || (e * v1 + rest) * BASE + w0 < e * (v1 * BASE + v0)
  {
    Distribute(e, v1, v0);
  }

  lemma BreakIsSound(e: nat, rest: nat, w2: u32, w1: u32, v1: u32, v0: u32, w0: u32)
    requires w2 <= v1
    requires e * v1 + rest == w2 * BASE + w1
    requires rest >= BASE
    ensures e < BASE && e * v0 <= rest * BASE + w0
  {
    if e >= BASE {
      MulLe(BASE, e, v1);
      assert false;
    }
    MulLe(e, BASE, v0);
  }

  // ---------------------------------------------------------------------------------------------
  // What the leading limbs say about the whole numbers.

  /** A number whose leading limbs are `top` and whose remaining limbs, at weight p, are `rest`. */
  ghost predicate Leads(top: nat, rest: nat, p: nat, whole: nat) {
    whole == rest + Times(top, p) && rest < p
  }

  lemma LeadTooLarge(e: nat, t: nat, d: nat, p: nat, wRest: nat, vRest: nat, w: nat, v: nat)
    requires Leads(t, wRest, p, w) && Leads(d, vRest, p, v)
    requires t < e * d
    ensures w < Times(e, v)
  {
    TimesIsProduct(t, p);
    TimesIsProduct(d, p);
    TimesIsProduct(e, v);
    LeadsOver(e, t, d, p, d * p, v);
  }

  lemma LeadsOver(e: nat, t: nat, d: nat, p: nat, dp: nat, v: nat)
    requires t < e * d && dp == d * p <= v
    ensures t * p + p <= e * v
  {
    ScaleLess(t, e * d, p);
    Associate(e, d, p);
    MulLe(dp, v, e);
  }

  lemma Associate(e: int, d: int, p: int)
    ensures (e * d) * p == e * (d * p)
  {
  }

  lemma LeadAtMostOneTooLarge(e: nat, t: nat, d: nat, p: nat, wRest: nat, vRest: nat, w: nat, v: nat)
    requires Leads(t, wRest, p, w) && Leads(d, vRest, p, v)
    requires e * d <= t && 1 <= e <= d + 1
    ensures Times(e - 1, v) <= w
  {
    TimesIsProduct(t, p);
    TimesIsProduct(d, p);
    TimesIsProduct(e - 1, v);
    OneLessFits(e, t, d, p, v);
  }

  lemma OneLessFits(e: nat, t: nat, d: nat, p: nat, v: nat)
    requires v <= d * p + p
    requires e * d <= t && 1 <= e <= d + 1
    ensures (e - 1) * v <= t * p
  {
    assert d * p + p == (d + 1) * p;
    MulLe(v, (d + 1) * p, e - 1);
    assert (e - 1) * ((d + 1) * p) == ((e - 1) * (d + 1)) * p;
    assert (e - 1) * (d + 1) == e * d + e - d - 1;
    MulLe((e - 1) * (d + 1), t, p);
  }

  /** If the window's top limb exceeded the divisor's, the window would hold BASE divisors. */
  lemma TopLimbTooLarge(w2: u32, low: nat, v1: u32, v0: u32, p: nat, wRest: nat, vRest: nat, w: nat, v: nat)
    requires v1 < w2
    requires Leads(w2 * (BASE * BASE) + low, wRest, p, w)
    requires Leads(v1 * BASE + v0, vRest, p, v)
    ensures BASE * v <= w
  {
    var t, d := w2 * (BASE * BASE) + low, v1 * BASE + v0;
    TimesIsProduct(t, p);
    TimesIsProduct(d, p);
    assert BASE * (d + 1) <= t;
    MulLe(BASE * (d + 1), t, p);
    assert (BASE * (d + 1)) * p == BASE * (d * p + p);
  }

  /** The estimate from the leading limbs is the true digit or one more, whatever the other limbs are. */
  lemma EstimateIsClose(e: u32, t: nat, d: nat, p: nat, wRest: nat, vRest: nat, w: nat, v: nat)
    requires Leads(t, wRest, p, w) && Leads(d, vRest, p, v)
    requires e * d <= t && (e == BASE - 1 || t < (e + 1) * d)
    requires BASE <= d && w < BASE * v
    ensures w < Times(e + 1, v) && (e == 0 || Times(e - 1, v) <= w)
  {
    if e < BASE - 1 {
      LeadTooLarge(e + 1, t, d, p, wRest, vRest, w, v);
    } else {
      TimesIsProduct(e + 1, v);
    }
    if e > 0 {
      LeadAtMostOneTooLarge(e, t, d, p, wRest, vRest, w, v);
    }
  }

  // ---------------------------------------------------------------------------------------------
  // D4 and D6: subtracting a multiple of the divisor from a window, and adding the divisor back.

  /** One limb of D4. */
  method SubtractLimbProduct(u: array<u32>, k: nat, estimate: u32, vi: u32, carry: u64, borrow: u64)
    returns (carry': u64, borrow': u64)
    requires k < u.Length && carry < BASE && borrow <= 1
    modifies u
    ensures carry' < BASE && borrow' <= 1
    ensures u[..] == old(u[..])[k := u[k]]
    ensures u[k] == old(u[k]) + (0 - estimate) * vi + (0 - (carry + borrow)) - (0 - (carry' + borrow')) * BASE
  {
    var product: u64 := ProductPlus(estimate, vi, carry);
    assert (0 - estimate) * vi == 0 - estimate * vi;
    carry' := High(product);
    var subtrahend: u64 := Low(product) + borrow;
    if u[k] >= subtrahend {
      u[k] := Low(u[k] - subtrahend);
      borrow' := 0;
    } else {
      u[k] := Low(BASE + u[k] - subtrahend);
      borrow' := 1;
    }
  }

  /** The whole window after D4: was - e * v, plus BASE^(n+1) when that is negative. */
  ghost predicate Differs(was: seq<u32>, now: seq<u32>, j: nat, vs: seq<u32>, e: nat, below: nat) {
    var k := j + |vs| + 1;
    && |now| == |was| && k <= |was|
    && now[..j] == was[..j] && now[k..] == was[k..]
    && Val(now[j..k]) == Val(was[j..k]) - Times(e, Val(vs)) + Times(below, Power(|vs| + 1))
  }

  /** The whole window after D6: was + v, less the carry that left the top limb. */
  ghost predicate Summed(was: seq<u32>, now: seq<u32>, j: nat, vs: seq<u32>, dropped: nat) {
    var k := j + |vs| + 1;
    && |now| == |was| && k <= |was|
    && now[..j] == was[..j] && now[k..] == was[k..]
    && Val(now[j..k]) + Times(dropped, Power(|vs| + 1)) == Val(was[j..k]) + Val(vs)
  }

  /** The window with its top limb done. */
  lemma WindowDone(was: seq<u32>, now: seq<u32>, j: nat, vs: seq<u32>, f: int, carry: int)
    requires j + |vs| < |was|
    requires Accumulated(was, now, j, |vs| + 1, vs + [0], f, carry)
    ensures var k := j + |vs| + 1;
            Val(now[j..k]) == Val(was[j..k]) + Times(f, Val(vs)) - Times(carry, Power(|vs| + 1))
  {
    assert (vs + [0])[..|vs| + 1] == vs + [0];
    ValSnoc(vs, 0);
  }

  lemma {:induction false} TimesNegated(x: nat, y: int)
    ensures Times(0 - x, y) == 0 - Times(x, y)
  {
    if x > 0 {
      TimesNegated(x - 1, y);
    }
  }

  lemma WindowDiffers(was: seq<u32>, now: seq<u32>, j: nat, vs: seq<u32>, e: nat, below: nat)
    requires j + |vs| < |was|
    requires Accumulated(was, now, j, |vs| + 1, vs + [0], 0 - e, 0 - below)
    ensures Differs(was, now, j, vs, e, below)
  {
    WindowDone(was, now, j, vs, 0 - e, 0 - below);
    TimesNegated(e, Val(vs));
    TimesNegated(below, Power(|vs| + 1));
  }

  lemma WindowSummed(was: seq<u32>, now: seq<u32>, j: nat, vs: seq<u32>, dropped: nat)
    requires j + |vs| < |was|
    requires Accumulated(was, now, j, |vs| + 1, vs + [0], 1, dropped)
    ensures Summed(was, now, j, vs, dropped)
  {
    WindowDone(was, now, j, vs, 1, dropped);
    assert Times(1, Val(vs)) == Val(vs);
  }

  /** D4 on the limbs the divisor has; what is still owed at the window's top limb is returned. */
  method SubtractProducts(u: array<u32>, j: nat, v: array<u32>, estimate: u32) returns (top: u64)
    requires u != v && j + v.Length < u.Length
    modifies u
    ensures top <= BASE
    ensures Accumulated(old(u[..]), u[..], j, v.Length, v[..] + [0], 0 - estimate, 0 - top)
  {
    var borrow: u64, carry: u64 := 0, 0;
    ghost var was, vs := u[..], v[..] + [0];
    var i := 0;
    AccumulateStart(was, j, vs, 0 - estimate);
    while i < v.Length
      invariant 0 <= i <= v.Length
      invariant carry < BASE && borrow <= 1
      invariant Accumulated(was, u[..], j, i, vs, 0 - estimate, 0 - (carry + borrow))
    {
      ghost var now, debt := u[..], carry + borrow;
      NotYetReached(was, now, j, i, vs, 0 - estimate, 0 - debt);
      carry, borrow := SubtractLimbProduct(u, j + i, estimate, v[i], carry, borrow);
      AccumulateLimb(was, now, j, i, vs, 0 - estimate, 0 - debt, u[j + i], 0 - (carry + borrow));
      i := i + 1;
    }
    top := carry + borrow;
  }

  /** D4 on the window's top limb. */
  method SubtractTop(u: array<u32>, k: nat, top: u64) returns (negative: bool)
    requires k < u.Length && top <= BASE
    modifies u
    ensures u[..] == old(u[..])[k := u[k]]
    ensures u[k] == old(u[k]) - top + (if negative then BASE else 0)
  {
    negative := u[k] < top;
    if negative {
      u[k] := Low(BASE + u[k] - top);
    } else {
      u[k] := Low(u[k] - top);
    }
  }

  /** D4: subtracts estimate * v from the window u[j..j+n]; `negative` says that it went below zero, in which
      case the window holds the difference plus BASE^(n+1). */
  method MultiplySubtract(u: array<u32>, j: nat, v: array<u32>, estimate: u32) returns (negative: bool)
    requires u != v && j + v.Length < u.Length
    modifies u
    ensures Differs(old(u[..]), u[..], j, v[..], estimate, if negative then 1 else 0)
  {
    ghost var was := u[..];
    var top := SubtractProducts(u, j, v, estimate);
    ghost var now := u[..];
    negative := SubtractTop(u, j + v.Length, top);
    TopDiffers(was, now, j, v[..], estimate, top, u[j + v.Length], if negative then 1 else 0);
  }

  lemma TopDiffers(was: seq<u32>, now: seq<u32>, j: nat, vs: seq<u32>, e: u32, top: nat, x: u32, below: nat)
    requires j + |vs| < |was|
    requires Accumulated(was, now, j, |vs|, vs + [0], 0 - e, 0 - top)
    requires x == now[j + |vs|] - top + below * BASE
    ensures Differs(was, now[j + |vs| := x], j, vs, e, below)
  {
    NotYetReached(was, now, j, |vs|, vs + [0], 0 - e, 0 - top);
    assert (vs + [0])[|vs|] == 0;
    AccumulateLimb(was, now, j, |vs|, vs + [0], 0 - e, 0 - top, x, 0 - below);
    WindowDiffers(was, now[j + |vs| := x], j, vs, e, below);
  }

  /** D6: adds v to the window; the carry out of the window's top limb is dropped. */
  method AddBack(u: array<u32>, j: nat, v: array<u32>) returns (ghost dropped: nat)
    requires u != v && j + v.Length < u.Length
    modifies u
    ensures Summed(old(u[..]), u[..], j, v[..], dropped)
  {
    var n := v.Length;
    var addCarry: u64 := 0;
    ghost var was, vs := u[..], v[..] + [0];
    var i := 0;
    AccumulateStart(was, j, vs, 1);
    while i < n
      invariant 0 <= i <= n
      invariant addCarry <= 1
      invariant Accumulated(was, u[..], j, i, vs, 1, addCarry)
    {
      ghost var now, carry := u[..], addCarry;
      NotYetReached(was, now, j, i, vs, 1, carry);
      var sum: u64 := u[i + j] + v[i] + addCarry;
      u[i + j] := Low(sum);
      addCarry := High(sum);
      assert u[..] == now[j + i := Low(sum)];
      AccumulateLimb(was, now, j, i, vs, 1, carry, Low(sum), addCarry);
      i := i + 1;
    }
    ghost var now := u[..];
    NotYetReached(was, now, j, n, vs, 1, addCarry);
    dropped := High(u[j + n] + addCarry);
    u[j + n] := Low(u[j + n] + addCarry);
    assert u[..] == now[j + n := u[j + n]];
    AccumulateLimb(was, now, j, n, vs, 1, addCarry, u[j + n], dropped);
    WindowSummed(was, u[..], j, v[..], dropped);
  }

  // ---------------------------------------------------------------------------------------------
  // One quotient digit.

  lemma ValTwo(a: u32, b: u32)
    ensures Val([a, b]) == b * BASE + a
  {
    assert [a, b][1..] == [b];
    assert [b][1..] == [];
    assert Val([b]) == b;
  }

  lemma ValThree(a: u32, b: u32, c: u32)
    ensures Val([a, b, c]) == (c * BASE + b) * BASE + a
  {
    assert [a, b, c][1..] == [b, c];
    ValTwo(b, c);
  }

  lemma LeadsFromSplit(s: seq<u32>, k: nat, top: nat)
    requires k <= |s| && Val(s[k..]) == top
    ensures Leads(top, Val(s[..k]), Power(k), Val(s))
  {
    ValSplit(s, k);
    ValBound(s[..k]);
  }

  lemma LeadingTwo(s: seq<u32>)
    requires |s| >= 2
    ensures var n := |s|;
            Leads(s[n - 1] * BASE + s[n - 2], Val(s[..n - 2]), Power(n - 2), Val(s))
  {
    var k := |s| - 2;
    assert s[k..] == [s[k], s[k + 1]];
    ValTwo(s[k], s[k + 1]);
    LeadsFromSplit(s, k, s[k + 1] * BASE + s[k]);
  }

  lemma LeadingThree(s: seq<u32>)
    requires |s| >= 3
    ensures var n := |s|;
            Leads((s[n - 1] * BASE + s[n - 2]) * BASE + s[n - 3], Val(s[..n - 3]), Power(n - 3), Val(s))
  {
    var k := |s| - 3;
    assert s[k..] == [s[k], s[k + 1], s[k + 2]];
    ValThree(s[k], s[k + 1], s[k + 2]);
    LeadsFromSplit(s, k, (s[k + 2] * BASE + s[k + 1]) * BASE + s[k]);
  }

  /** The window's top limb is at most the divisor's, so that the estimate starts at BASE + 1 or less. */
  lemma WindowTopLimb(w: seq<u32>, v: seq<u32>)
    requires |v| >= 2 && |w| == |v| + 1
    requires Val(w) < BASE * Val(v)
    ensures w[|w| - 1] <= v[|v| - 1]
  {
    var n := |v|;
    if w[n] > v[n - 1] {
      LeadingTwo(v);
      LeadingThree(w);
      TopLimbTooLarge(w[n], w[n - 1] * BASE + w[n - 2], v[n - 1], v[n - 2], Power(n - 2),
                      Val(w[..n - 2]), Val(v[..n - 2]), Val(w), Val(v));
    }
  }

  /** Whatever the digit estimate from the leading limbs, it is the true digit or one more. */
  lemma EstimateSound(w: seq<u32>, v: seq<u32>, e: u32)
    requires |v| >= 2 && |w| == |v| + 1 && BASE / 2 <= v[|v| - 1]
    requires Val(w) < BASE * Val(v)
    requires var n := |v|;
             var t, d := (w[n] * BASE + w[n - 1]) * BASE + w[n - 2], v[n - 1] * BASE + v[n - 2];
             e * d <= t && (e == BASE - 1 || t < (e + 1) * d)
    ensures Val(w) < Times(e + 1, Val(v)) && (e == 0 || Times(e - 1, Val(v)) <= Val(w))
  {
    var n := |v|;
    LeadingTwo(v);
    LeadingThree(w);
    EstimateIsClose(e, (w[n] * BASE + w[n - 1]) * BASE + w[n - 2], v[n - 1] * BASE + v[n - 2], Power(n - 2),
                    Val(w[..n - 2]), Val(v[..n - 2]), Val(w), Val(v));
  }

  /** The state of the window once a digit has been taken off. */
  ghost predicate Reduced(was: seq<u32>, now: seq<u32>, j: nat, vs: seq<u32>, digit: nat) {
    && |now| == |was| && j + |vs| < |was|
    && now[..j] == was[..j] && now[j + |vs| + 1..] == was[j + |vs| + 1..]
    && Val(now[j..j + |vs| + 1]) == Val(was[j..j + |vs| + 1]) - Times(digit, Val(vs)) < Val(vs)
  }

  lemma NoAddBack(was: seq<u32>, now: seq<u32>, j: nat, vs: seq<u32>, e: nat)
    requires Differs(was, now, j, vs, e, 0) && Close(was, j, vs, e)
    ensures Reduced(was, now, j, vs, e)
  {
  }

  /** A difference below zero is repaired by adding the divisor back once. */
  lemma OneAddBackSuffices(was: seq<u32>, mid: seq<u32>, now: seq<u32>, j: nat, vs: seq<u32>, e: nat, dropped: nat)
    requires Differs(was, mid, j, vs, e, 1)
    requires Summed(mid, now, j, vs, dropped)
    requires Close(was, j, vs, e)
    ensures e > 0 && Reduced(was, now, j, vs, e - 1)
  {
    var k := j + |vs| + 1;
    ValBound(mid[j..k]);
    ValBound(now[j..k]);
    ValBound(vs);
    assert Times(1, Power(|vs| + 1)) == Power(|vs| + 1);
    AddBackArithmetic(Val(was[j..k]), Val(mid[j..k]), Val(now[j..k]), Val(vs), Power(|vs| + 1), e, dropped);
  }

  lemma AddBackArithmetic(w: nat, m: nat, r: nat, v: nat, p: nat, e: nat, dropped: nat)
    requires m == w - Times(e, v) + p && m < p && r < p
    requires r + Times(dropped, p) == m + v && v < p
    requires e == 0 || Times(e - 1, v) <= w
    ensures e > 0 && r == w - Times(e - 1, v) && r < v
  {
    assert Times(1, p) == p;
    if dropped >= 2 {
      StepUp(p, 1, dropped);
      assert false;
    }
  }

  /** D3 on a window of the dividend: the estimate is the true digit or one more. */
  method EstimateWindow(u: array<u32>, j: nat, v: array<u32>) returns (estimate: u32)
    requires 2 <= v.Length && j + v.Length < u.Length
    requires BASE / 2 <= v[v.Length - 1]
    requires Val(u[..][j..j + v.Length + 1]) < BASE * Val(v[..])
    ensures Close(u[..], j, v[..], estimate)
  {
    var n := v.Length;
    ghost var w := u[..][j..j + n + 1];
    WindowTopLimb(w, v[..]);
    estimate := EstimateDigit(u[j + n], u[j + n - 1], u[j + n - 2], v[n - 1], v[n - 2]);
    EstimateSound(w, v[..], estimate);
  }

  /** e copies of v may be one too many for the window, not two; e + 1 copies are too many. */
  ghost predicate Close(u: seq<u32>, j: nat, vs: seq<u32>, e: nat) {
    && j + |vs| < |u|
    && Val(u[j..j + |vs| + 1]) < Times(e + 1, Val(vs))
    && (e == 0 || Times(e - 1, Val(vs)) <= Val(u[j..j + |vs| + 1]))
  }

  /** One quotient digit: takes floor(window / v) copies of v off the window and returns how many. */
  method DivideStep(u: array<u32>, j: nat, v: array<u32>) returns (digit: u32)
    requires u != v && 2 <= v.Length && j + v.Length < u.Length
    requires BASE / 2 <= v[v.Length - 1]
    requires Val(u[..][j..j + v.Length + 1]) < BASE * Val(v[..])
    modifies u
    ensures Reduced(old(u[..]), u[..], j, v[..], digit)
  {
    ghost var was, vs := u[..], v[..];
    var estimate := EstimateWindow(u, j, v);
    var negative := MultiplySubtract(u, j, v, estimate);
    if negative {
      ghost var mid := u[..];
      ghost var dropped := AddBack(u, j, v);
      OneAddBackSuffices(was, mid, u[..], j, vs, estimate, dropped);
      digit := estimate - 1;
    } else {
      NoAddBack(was, u[..], j, vs, estimate);
      digit := estimate;
    }
  }
}
