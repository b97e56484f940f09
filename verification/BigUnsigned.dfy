/** An unsigned integer of any size in base 2^32 (cpp/src/bignum.cpp): every operation refines arithmetic on nat
    and keeps the limbs without a most significant zero. */
module BigNumber {
  import opened Limbs
  import opened DecimalText
  import opened Outcomes
  import AlgorithmD
  import Shifts

  const CHUNK: u32 := 1_000_000_000
  const CHUNK_DIGITS: nat := 9

  datatype Ordering = Less | Equal | Greater

  class BigUnsigned {
    var limbs: seq<u32>

    ghost predicate Valid()
      reads this
    {
      Normal(limbs)
    }

    ghost function Value(): nat
      reads this
    {
      Val(limbs)
    }

    constructor (value: u64)
      ensures Valid() && Value() == value
    {
      var s: seq<u32> := [];
      if value != 0 {
        s := s + [Low(value)];
      }
      if High(value) != 0 {
        s := s + [High(value)];
      }
      limbs := s;
      new;
      if value != 0 && High(value) != 0 {
        AlgorithmD.ValTwo(Low(value), High(value));
      } else if value != 0 {
        assert limbs[1..] == [];
        assert Val(limbs[1..]) == 0;
      }
    }

    constructor Copy(other: BigUnsigned)
      requires other.Valid()
      ensures Valid() && limbs == other.limbs
    {
      limbs := other.limbs;
    }

    /** Drops the most significant zero limbs. */
    method Trim()
      modifies this
      ensures Valid() && Value() == old(Value())
      ensures limbs <= old(limbs)
    {
      while limbs != [] && limbs[|limbs| - 1] == 0
        invariant Val(limbs) == old(Val(limbs))
        invariant limbs <= old(limbs)
        decreases |limbs|
      {
        var n := |limbs| - 1;
        assert limbs == limbs[..n] + [0];
        ValSnoc(limbs[..n], 0);
        limbs := limbs[..n];
      }
    }

    /** *this = *this * factor + addend */
    method MultiplyAdd(factor: u32, addend: u32)
      modifies this
      ensures Valid() && Value() == old(Value()) * factor + addend
    {
      var carry: u64 := addend;
      ghost var was := limbs;
      var i := 0;
      AccEmpty(factor, addend);
      while i < |limbs|
        invariant 0 <= i <= |limbs| == |was|
        invariant carry < BASE
        invariant limbs[i..] == was[i..]
        invariant Acc(limbs[..i], addend, was[..i], factor, carry)
      {
        ghost var now, before := limbs, carry;
        assert limbs[i] == limbs[i..][0] == was[i];
        var product: u64 := ProductPlus(limbs[i], factor, carry);
        limbs := limbs[i := Low(product)];
        carry := High(product);
        MultiplyAddStep(was, now, limbs, i, factor, addend, before, carry);
        i := i + 1;
      }
      assert limbs[..i] == limbs && was[..i] == was;
      ghost var low := limbs;
      if carry != 0 {
        limbs := limbs + [Low(carry)];
      }
      MultiplyAddDone(was, low, limbs, factor, addend, carry);
      Trim();
    }

    static lemma MultiplyAddStep(was: seq<u32>, now: seq<u32>, next: seq<u32>, i: nat, factor: u32, addend: u32,
                                 carry: nat, carry': nat)
      requires i < |now| == |was| == |next| && now[i..] == was[i..]
      requires Acc(now[..i], addend, was[..i], factor, carry)
      requires next == now[i := next[i]] && next[i] + carry' * BASE == was[i] * factor + carry
      ensures next[i + 1..] == was[i + 1..]
      ensures Acc(next[..i + 1], addend, was[..i + 1], factor, carry')
    {
      assert factor * was[i] == was[i] * factor;
      AccStep(now[..i], addend, was[..i], factor, carry, 0, was[i], next[i], carry');
      assert next[..i + 1] == now[..i] + [next[i]];
      assert was[..i + 1] == was[..i] + [was[i]];
      assert next[i + 1..] == now[i..][1..];
      assert was[i + 1..] == was[i..][1..];
    }

    static lemma MultiplyAddDone(was: seq<u32>, low: seq<u32>, all: seq<u32>, factor: u32, addend: u32, carry: u32)
      requires Acc(low, addend, was, factor, carry)
      requires all == if carry != 0 then low + [carry] else low
      ensures Val(all) == Val(was) * factor + addend
    {
      ValSnoc(low, carry);
      TimesIsProduct(factor, Val(was));
    }

    /** Divides in place by a limb and returns the remainder. */
    method DivideSmall(divisor: u32) returns (rest: u32)
      requires divisor > 0
      modifies this
      ensures Valid() && rest < divisor
      ensures old(Value()) == Value() * divisor + rest
    {
      var remainder: u64 := 0;
      ghost var was := limbs;
      var i := |limbs|;
      TimesIsProduct(divisor, 0);
      while i > 0
        invariant 0 <= i <= |limbs| == |was|
        invariant remainder < divisor
        invariant limbs[..i] == was[..i]
        invariant Val(was[i..]) == Times(divisor, Val(limbs[i..])) + remainder
      {
        i := i - 1;
        ghost var now, before := limbs, remainder;
        assert limbs[i] == limbs[..i + 1][i] == was[..i + 1][i] == was[i];
        remainder := DivideLimb(i, divisor, remainder);
        DivideSmallStep(was, now, limbs, i, divisor, before, remainder);
      }
      assert limbs[0..] == limbs && was[0..] == was;
      TimesIsProduct(divisor, Val(limbs));
      Trim();
      rest := Low(remainder);
    }

    /** One limb of DivideSmall: the remainder so far and the limb, divided. */
    method DivideLimb(i: nat, divisor: u32, rest: u64) returns (rest': u64)
      requires i < |limbs| && rest < divisor
      modifies this
      ensures |limbs| == |old(limbs)| && limbs == old(limbs)[i := limbs[i]]
      ensures rest' < divisor && limbs[i] * divisor + rest' == rest * BASE + old(limbs)[i]
    {
      var current: u64 := rest * BASE + limbs[i];
      var qr := AlgorithmD.Divide64(current, divisor);
      AlgorithmD.QuotientIsLimb(qr.0, qr.1, rest, limbs[i], divisor);
      limbs := limbs[i := Low(qr.0)];
      rest' := qr.1;
    }

    static lemma DivideSmallStep(was: seq<u32>, now: seq<u32>, next: seq<u32>, i: nat, divisor: u32,
                                 rest: nat, rest': nat)
      requires i < |now| == |was| == |next| && now[..i + 1] == was[..i + 1]
      requires Val(was[i + 1..]) == Times(divisor, Val(now[i + 1..])) + rest
      requires next == now[i := next[i]] && next[i] * divisor + rest' == rest * BASE + was[i]
      ensures next[..i] == was[..i]
      ensures Val(was[i..]) == Times(divisor, Val(next[i..])) + rest'
    {
      assert next[..i] == now[..i + 1][..i] && was[..i] == was[..i + 1][..i];
      assert was[i..][1..] == was[i + 1..] && next[i..][1..] == now[i + 1..];
      DivideSmallArithmetic(next[i], Val(now[i + 1..]), divisor);
    }

    static lemma DivideSmallArithmetic(x: int, hi: int, d: int)
      ensures Times(d, x + BASE * hi) == x * d + BASE * Times(d, hi)
    {
      TimesIsProduct(d, x + BASE * hi);
      TimesIsProduct(d, hi);
      assert d * (x + BASE * hi) == d * x + BASE * (d * hi);
    }

    /** operator<=> */
    method Compare(other: BigUnsigned) returns (order: Ordering)
      requires Valid() && other.Valid()
      ensures order == if Value() < other.Value() then Less else if Value() > other.Value() then Greater else Equal
      ensures order == Equal <==> limbs == other.limbs
    {
      if |limbs| < |other.limbs| {
        LongerIsGreater(limbs, other.limbs);
        return Less;
      }
      if |limbs| > |other.limbs| {
        LongerIsGreater(other.limbs, limbs);
        return Greater;
      }
      var i := |limbs|;
      while i > 0
        invariant 0 <= i <= |limbs|
        invariant limbs[i..] == other.limbs[i..]
      {
        i := i - 1;
        if limbs[i] < other.limbs[i] {
          HighestDifferenceDecides(limbs, other.limbs, i);
          return Less;
        }
        if limbs[i] > other.limbs[i] {
          HighestDifferenceDecides(other.limbs, limbs, i);
          return Greater;
        }
        assert limbs[i..] == [limbs[i]] + limbs[i + 1..];
        assert other.limbs[i..] == [other.limbs[i]] + other.limbs[i + 1..];
      }
      assert limbs[0..] == limbs && other.limbs[0..] == other.limbs;
      order := Equal;
    }

    /** The limb loop of operator+=; `other` may be this very number. */
    method AddLimbs(other: BigUnsigned, ghost vs: seq<u32>) returns (carry: u64)
      requires |vs| == |limbs| && forall k :: 0 <= k < |vs| ==> LimbAt(other.limbs, k) == vs[k]
      modifies this
      ensures carry <= 1
      ensures Accumulated(old(limbs), limbs, 0, |vs|, vs, 1, carry)
    {
      ghost var was := limbs;
      carry := 0;
      var i := 0;
      AccumulateStart(was, 0, vs, 1);
      while i < |limbs|
        invariant 0 <= i <= |limbs| == |was|
        invariant carry <= 1
        invariant Accumulated(was, limbs, 0, i, vs, 1, carry)
        invariant forall k :: i <= k < |was| ==> LimbAt(other.limbs, k) == vs[k]
      {
        ghost var now, before := limbs, carry;
        NotYetReached(was, now, 0, i, vs, 1, before);
        var sum: u64 := limbs[i] + LimbAt(other.limbs, i) + carry;
        limbs := limbs[i := Low(sum)];
        carry := High(sum);
        AccumulateLimb(was, now, 0, i, vs, 1, before, Low(sum), carry);
        i := i + 1;
      }
    }

    /** operator+= */
    method Add(other: BigUnsigned)
      requires Valid() && other.Valid()
      modifies this
      ensures Valid() && Value() == old(Value()) + old(other.Value())
    {
      ghost var left, right := limbs, other.limbs;
      if |limbs| < |other.limbs| {
        limbs := limbs + seq(|other.limbs| - |limbs|, _ => 0);
      }
      ghost var was, vs := limbs, Padded(right, |limbs|);
      PaddedValue(left, |was|);
      PaddedValue(right, |was|);
      var carry := AddLimbs(other, vs);
      ghost var low := limbs;
      if carry != 0 {
        limbs := limbs + [Low(carry)];
      }
      AddDone(was, low, limbs, vs, carry);
      NormalSum(left, right, low, limbs, carry);
    }

    static lemma AddDone(was: seq<u32>, low: seq<u32>, all: seq<u32>, vs: seq<u32>, carry: u32)
      requires |vs| == |was| && Accumulated(was, low, 0, |was|, vs, 1, carry)
      requires all == if carry != 0 then low + [carry] else low
      ensures Val(all) == Val(was) + Val(vs)
    {
      var n := |was|;
      assert low[0..0 + n] == low && was[0..0 + n] == was && vs[..n] == vs;
      assert Times(1, Val(vs)) == Val(vs);
      CarryOut(low, all, carry);
    }

    static lemma CarryOut(low: seq<u32>, all: seq<u32>, carry: u32)
      requires all == if carry != 0 then low + [carry] else low
      ensures Val(all) == Val(low) + Times(carry, Power(|low|))
    {
      if carry != 0 {
        ValSnoc(low, carry);
      }
    }

    /** The sum of two normal numbers needs no trimming. */
    static lemma NormalSum(left: seq<u32>, right: seq<u32>, low: seq<u32>, all: seq<u32>, carry: u32)
      requires Normal(left) && Normal(right)
      requires |low| == if |left| < |right| then |right| else |left|
      requires all == if carry != 0 then low + [carry] else low
      requires Val(all) == Val(left) + Val(right)
      ensures Normal(all)
    {
      if carry == 0 {
        AtLeastLonger(left, right, all);
      }
    }

    /** As long as the longer of two normal numbers and no smaller, it has no zero on top. */
    static lemma AtLeastLonger(left: seq<u32>, right: seq<u32>, all: seq<u32>)
      requires Normal(left) && Normal(right) && Val(all) >= Val(left) && Val(all) >= Val(right)
      requires |all| == if |left| < |right| then |right| else |left|
      ensures Normal(all)
    {
      if all != [] && all[|all| - 1] == 0 {
        TopZeroIsSmall(all);
        NormalLowerBound(if |left| < |right| then right else left);
      }
    }

    static lemma TopZeroIsSmall(s: seq<u32>)
      requires s != [] && s[|s| - 1] == 0
      ensures Val(s) < Power(|s| - 1)
    {
      var n := |s| - 1;
      assert s == s[..n] + [0];
      ValSnoc(s[..n], 0);
      ValBound(s[..n]);
    }

    /** One limb of operator-=. */
    method SubtractLimb(i: nat, subtrahend: u64) returns (borrow: u64)
      requires i < |limbs| && subtrahend <= BASE
      modifies this
      ensures borrow <= 1
      ensures |limbs| == |old(limbs)| && limbs == old(limbs)[i := limbs[i]]
      ensures limbs[i] == old(limbs[i]) - subtrahend + borrow * BASE
    {
      if limbs[i] >= subtrahend {
        limbs := limbs[i := Low(limbs[i] - subtrahend)];
        borrow := 0;
      } else {
        limbs := limbs[i := Low(BASE + limbs[i] - subtrahend)];
        borrow := 1;
      }
    }

    /** The limb loop of operator-=; `other` may be this very number. */
    method SubtractLimbs(other: BigUnsigned, ghost vs: seq<u32>) returns (borrow: u64)
      requires |vs| == |limbs| && forall k :: 0 <= k < |vs| ==> LimbAt(other.limbs, k) == vs[k]
      modifies this
      ensures Accumulated(old(limbs), limbs, 0, |vs|, vs, 0 - 1, 0 - borrow)
    {
      ghost var was := limbs;
      borrow := 0;
      var i := 0;
      AccumulateStart(was, 0, vs, 0 - 1);
      while i < |limbs|
        invariant 0 <= i <= |limbs| == |was|
        invariant borrow <= 1
        invariant Accumulated(was, limbs, 0, i, vs, 0 - 1, 0 - borrow)
        invariant forall k :: i <= k < |was| ==> LimbAt(other.limbs, k) == vs[k]
      {
        ghost var now: seq<u32>, before: int := limbs, borrow;
        NotYetReached(was, now, 0, i, vs, 0 - 1, 0 - before);
        var subtrahend: u64 := LimbAt(other.limbs, i) + borrow;
        borrow := SubtractLimb(i, subtrahend);
        AccumulateLimb(was, now, 0, i, vs, 0 - 1, 0 - before, limbs[i], 0 - borrow);
        i := i + 1;
      }
    }

    /** operator-=: throws, changing nothing, when the difference would be negative. */
    method Subtract(other: BigUnsigned) returns (ok: bool)
      requires Valid() && other.Valid()
      modifies this
      ensures ok <==> old(Value()) >= old(other.Value())
      ensures Valid()
      ensures ok ==> Value() == old(Value()) - old(other.Value())
      ensures !ok ==> limbs == old(limbs)
    {
      var order := Compare(other);
      if order == Less {
        return false;
      }
      ghost var was, right := limbs, other.limbs;
      if |was| < |right| {
        LongerIsGreater(was, right);
      }
      ghost var vs := Padded(right, |was|);
      PaddedValue(right, |was|);
      var borrow := SubtractLimbs(other, vs);
      SubtractDone(was, limbs, vs, borrow);
      Trim();
      ok := true;
    }

    static lemma SubtractDone(was: seq<u32>, now: seq<u32>, vs: seq<u32>, borrow: nat)
      requires |vs| == |was| && Accumulated(was, now, 0, |was|, vs, 0 - 1, 0 - borrow)
      requires Val(was) >= Val(vs)
      ensures Val(now) == Val(was) - Val(vs)
    {
      var n := |was|;
      assert now[0..0 + n] == now && was[0..0 + n] == was && vs[..n] == vs;
      assert Times(0 - 1, Val(vs)) == 0 - Val(vs);
      AlgorithmD.TimesNegated(borrow, Power(n));
      ValBound(now);
      if borrow > 0 {
        StepUp(Power(n), 0, borrow);
        assert false;
      }
    }
  }

  /** A limb, or 0 past the end. */
  function LimbAt(s: seq<u32>, i: nat): u32 {
    if i < |s| then s[i] else 0
  }

  ghost function Padded(s: seq<u32>, n: nat): (r: seq<u32>)
    ensures |s| <= n ==> |r| == n
  {
    if |s| <= n then s + seq(n - |s|, _ => 0) else s
  }

  lemma PaddedValue(s: seq<u32>, n: nat)
    ensures Val(Padded(s, n)) == Val(s)
  {
    if |s| <= n {
      ValAppendZeros(s, seq(n - |s|, _ => 0));
    }
  }

  // ---------------------------------------------------------------------------------------------
  // operator*

  /** One row: out += x * right at limb i, the limb above the row taking the carry. */
  method MultiplyRow(out: array<u32>, i: nat, x: u32, right: seq<u32>)
    requires i + |right| < out.Length && out[i + |right|] == 0
    modifies out
    ensures Accumulated(old(out[..]), out[..], i, |right| + 1, right + [0], x, 0)
  {
    ghost var was, vs := out[..], right + [0];
    var carry: u64 := 0;
    var j := 0;
    AccumulateStart(was, i, vs, x);
    while j < |right|
      invariant 0 <= j <= |right|
      invariant carry < BASE
      invariant Accumulated(was, out[..], i, j, vs, x, carry)
    {
      ghost var now, before := out[..], carry;
      NotYetReached(was, now, i, j, vs, x, before);
      var current: u64 := ProductPlus(x, right[j], out[i + j] + carry);
      out[i + j] := Low(current);
      carry := High(current);
      assert out[..] == now[i + j := Low(current)];
      AccumulateLimb(was, now, i, j, vs, x, before, Low(current), carry);
      j := j + 1;
    }
    ghost var now := out[..];
    NotYetReached(was, now, i, j, vs, x, carry);
    out[i + |right|] := Low(carry);
    assert out[..] == now[i + j := Low(carry)];
    AccumulateLimb(was, now, i, j, vs, x, carry, Low(carry), 0);
  }

  /** After i rows the low limbs hold the product of the first i limbs of left with right; the rest are 0. */
  ghost predicate Multiplied(out: seq<u32>, i: nat, left: seq<u32>, right: seq<u32>) {
    && |out| == |left| + |right| && i <= |left|
    && ZeroLimbs(out[i + |right|..])
    && Val(out[..i + |right|]) == Times(Val(left[..i]), Val(right))
  }

  lemma RowValue(was: seq<u32>, now: seq<u32>, i: nat, left: seq<u32>, right: seq<u32>)
    requires i < |left| && Multiplied(was, i, left, right)
    requires Accumulated(was, now, i, |right| + 1, right + [0], left[i], 0)
    ensures Multiplied(now, i + 1, left, right)
  {
    var k := i + |right| + 1;
    AlgorithmD.WindowDone(was, now, i, right, left[i], 0);
    assert was[..i + |right|] + [0] == was[..k] by {
      assert was[i + |right|] == was[i + |right|..][0];
    }
    ValSnoc(was[..i + |right|], 0);
    ValSplit(now[..k], i);
    ValSplit(was[..k], i);
    assert now[..k][i..] == now[i..k] && was[..k][i..] == was[i..k];
    assert now[..k][..i] == now[..i] && was[..k][..i] == was[..i];
    assert left[..i + 1] == left[..i] + [left[i]];
    ValSnoc(left[..i], left[i]);
    RowProducts(Val(was[i..k]), Val(now[i..k]), left[i], Val(right), Power(i), Val(left[..i]));
    assert ZeroLimbs(now[k..]) by {
      assert now[k..] == was[k..];
      assert was[k..] == was[i + |right|..][1..];
    }
  }

  lemma RowProducts(w: int, n: int, x: int, r: int, p: int, a: int)
    requires n == w + Times(x, r)
    ensures Times(n, p) - Times(w, p) == Times(a + Times(x, p), r) - Times(a, r)
  {
    TimesIsProduct(x, r);
    TimesIsProduct(n, p);
    TimesIsProduct(w, p);
    TimesIsProduct(x, p);
    TimesIsProduct(a + x * p, r);
    TimesIsProduct(a, r);
    RowDistributes(w, x, r, p, a);
  }

  lemma RowDistributes(w: int, x: int, r: int, p: int, a: int)
    ensures (w + x * r) * p - w * p == (a + x * p) * r - a * r
  {
    assert (w + x * r) * p == w * p + (x * r) * p;
    assert (a + x * p) * r == a * r + (x * p) * r;
    assert (x * r) * p == (x * p) * r;
  }

  /** The rows of the product, one for each limb of the left factor. */
  method MultiplyRows(product: array<u32>, xs: seq<u32>, ys: seq<u32>)
    requires product.Length == |xs| + |ys| && Multiplied(product[..], 0, xs, ys)
    modifies product
    ensures Multiplied(product[..], |xs|, xs, ys)
  {
    var n := |ys|;
    for i := 0 to |xs|
      invariant Multiplied(product[..], i, xs, ys)
    {
      ghost var was := product[..];
      assert was[i + n] == was[i + n..][0] == 0;
      MultiplyRow(product, i, xs[i], ys);
      RowValue(was, product[..], i, xs, ys);
    }
  }

  /** operator* */
  method Multiply(left: BigUnsigned, right: BigUnsigned) returns (out: BigUnsigned)
    requires left.Valid() && right.Valid()
    ensures fresh(out) && out.Valid()
    ensures out.Value() == left.Value() * right.Value()
  {
    out := new BigUnsigned(0);
    TimesIsProduct(Val(left.limbs), Val(right.limbs));
    if left.limbs == [] || right.limbs == [] {
      return;
    }
    var m, n := |left.limbs|, |right.limbs|;
    var product := new u32[m + n](_ => 0);
    MultiplyStart(product[..], left.limbs, right.limbs);
    MultiplyRows(product, left.limbs, right.limbs);
    assert product[..][..m + n] == product[..] && left.limbs[..m] == left.limbs;
    out.limbs := product[..];
    out.Trim();
  }

  lemma MultiplyStart(out: seq<u32>, left: seq<u32>, right: seq<u32>)
    requires |out| == |left| + |right| && ZeroLimbs(out)
    ensures Multiplied(out, 0, left, right)
  {
    ValZeros(out[..0 + |right|]);
  }

  // ---------------------------------------------------------------------------------------------
  // divmod

  /** D1: dst[..|src|] := the low limbs of src << shift. */
  method ShiftInto(src: seq<u32>, shift: nat, dst: array<u32>)
    requires src != [] && |src| <= dst.Length && shift < 32
    modifies dst
    ensures dst[|src|..] == old(dst[|src|..])
    ensures Shifts.ShiftedLeft(src, dst[..|src|], Shifts.Pow2(shift), Shifts.Pow2(32 - shift))
  {
    var p, co := Shifts.Pow2(shift), Shifts.Pow2(32 - shift);
    Shifts.Pow2Base(shift);
    var i := |src| - 1;
    while i > 0
      invariant 0 <= i < |src|
      invariant dst[|src|..] == old(dst[|src|..])
      invariant forall k :: i < k < |src| ==> dst[k] == Shifts.LeftLimb(src, k, p, co)
    {
      dst[i] := Shifts.ShiftedLimb(src[i], src[i - 1], p, co);
      i := i - 1;
    }
    dst[0] := Shifts.ShiftedLimb(src[0], 0, p, co);
  }

  /** D8: the remainder, shifted back. */
  method ShiftBack(u: seq<u32>, shift: nat) returns (dst: array<u32>)
    requires u != [] && shift < 32
    ensures fresh(dst)
    ensures Shifts.ShiftedRight(u, dst[..], Shifts.Pow2(shift), Shifts.Pow2(32 - shift))
  {
    var p, co := Shifts.Pow2(shift), Shifts.Pow2(32 - shift);
    Shifts.Pow2Base(shift);
    var n := |u|;
    dst := new u32[n](_ => 0);
    var i := 0;
    while i + 1 < n
      invariant 0 <= i < n
      invariant forall k :: 0 <= k < i ==> dst[k] == Shifts.RightLimb(u, k, p, co)
    {
      dst[i] := Shifts.ShiftedLimb(u[i + 1], u[i], co, p);
      i := i + 1;
    }
    dst[n - 1] := Shifts.ShiftedLimb(0, u[n - 1], co, p);
  }

  /** Before digit k - 1 is taken: the limbs below k are untouched, and above them the digits found so far and
      what is left of the dividend make up the dividend's limbs from k on. */
  ghost predicate Dividing(u0: seq<u32>, u: seq<u32>, k: nat, q: seq<u32>, v: seq<u32>) {
    && |u| == |u0| == |q| + |v| && k <= |q|
    && u[..k] == u0[..k]
    && ZeroLimbs(u[k + |v|..])
    && Val(u[k..k + |v|]) < Val(v)
    && Val(u0[k..]) == Times(Val(q[k..]), Val(v)) + Val(u[k..])
  }

  /** The next window holds fewer than BASE divisors. */
  lemma NextWindow(u0: seq<u32>, u: seq<u32>, j: nat, q: seq<u32>, v: seq<u32>)
    requires j < |q| && Dividing(u0, u, j + 1, q, v)
    ensures j + |v| < |u| && Val(u[j..j + |v| + 1]) < BASE * Val(v)
  {
    assert u[j..j + |v| + 1][1..] == u[j + 1..j + 1 + |v|];
  }

  lemma DigitTaken(u0: seq<u32>, was: seq<u32>, now: seq<u32>, j: nat, q: seq<u32>, v: seq<u32>, d: u32)
    requires j < |q| && Dividing(u0, was, j + 1, q, v)
    requires AlgorithmD.Reduced(was, now, j, v, d)
    ensures Dividing(u0, now, j, q[j := d], v)
  {
    DigitFrame(u0, was, now, j, q, v, d);
    SuffixIsWindow(was, j, |v| + 1);
    SuffixIsWindow(now, j, |v| + 1);
    DigitArithmetic(u0, was, j, q, v, d);
  }

  lemma DigitFrame(u0: seq<u32>, was: seq<u32>, now: seq<u32>, j: nat, q: seq<u32>, v: seq<u32>, d: u32)
    requires j < |q| && Dividing(u0, was, j + 1, q, v)
    requires AlgorithmD.Reduced(was, now, j, v, d)
    ensures now[..j] == u0[..j]
    ensures ZeroLimbs(now[j + |v|..]) && ZeroLimbs(now[j + |v| + 1..]) && ZeroLimbs(was[j + |v| + 1..])
    ensures Val(now[j..j + |v|]) == Val(now[j..j + |v| + 1])
  {
    var k := j + |v| + 1;
    assert was[..j] == was[..j + 1][..j] && u0[..j] == u0[..j + 1][..j];
    assert now[k..] == was[k..] == was[j + 1 + |v|..];
    TopIsZero(now[j..k], v);
    assert now[j..k][..|v|] == now[j..j + |v|];
    assert now[j + |v|] == now[j..k][|v|];
    assert now[j + |v|..] == [now[j + |v|]] + now[k..];
  }

  lemma TopIsZero(w: seq<u32>, v: seq<u32>)
    requires |w| == |v| + 1 && Val(w) < Val(v)
    ensures w[|v|] == 0 && Val(w[..|v|]) == Val(w)
  {
    assert w == w[..|v|] + [w[|v|]];
    ValSnoc(w[..|v|], w[|v|]);
    ValBound(v);
    if w[|v|] > 0 {
      StepUp(Power(|v|), 0, w[|v|]);
      assert false;
    }
  }

  /** Zero limbs above a window do not count. */
  lemma SuffixIsWindow(u: seq<u32>, j: nat, n: nat)
    requires j + n <= |u| && ZeroLimbs(u[j + n..])
    ensures Val(u[j..]) == Val(u[j..j + n])
  {
    assert u[j..] == u[j..j + n] + u[j + n..];
    ValAppendZeros(u[j..j + n], u[j + n..]);
  }

  lemma DigitArithmetic(u0: seq<u32>, was: seq<u32>, j: nat, q: seq<u32>, v: seq<u32>, d: u32)
    requires j < |q| && Dividing(u0, was, j + 1, q, v)
    ensures Val(u0[j..]) == Times(Val(q[j := d][j..]), Val(v)) + (Val(was[j..]) - Times(d, Val(v)))
  {
    var r := q[j := d];
    assert u0[j] == u0[..j + 1][j] == was[..j + 1][j] == was[j];
    assert u0[j..][1..] == u0[j + 1..] && was[j..][1..] == was[j + 1..] && r[j..][1..] == q[j + 1..];
    DigitProducts(d, Val(q[j + 1..]), Val(v));
  }

  lemma DigitProducts(d: int, x: int, v: int)
    ensures Times(d + BASE * x, v) == Times(d, v) + BASE * Times(x, v)
  {
    TimesAdd(d, BASE * x, v);
    TimesBase(x, v);
  }

  /** One pass of the digit loop. */
  method DivideDigit(u: array<u32>, v: array<u32>, q: array<u32>, j: nat, ghost u0: seq<u32>)
    requires u != v && q != u && q != v && 2 <= v.Length && j < q.Length
    requires BASE / 2 <= v[v.Length - 1]
    requires Dividing(u0, u[..], j + 1, q[..], v[..])
    modifies u, q
    ensures Dividing(u0, u[..], j, q[..], v[..])
  {
    ghost var was, qs := u[..], q[..];
    NextWindow(u0, was, j, qs, v[..]);
    var digit := AlgorithmD.DivideStep(u, j, v);
    q[j] := digit;
    assert q[..] == qs[j := digit];
    DigitTaken(u0, was, u[..], j, qs, v[..], digit);
  }

  /** Quotient digits of the shifted dividend u by the shifted divisor v, highest first; u becomes the remainder. */
  method DivideLimbs(u: array<u32>, v: array<u32>) returns (q: array<u32>)
    requires u != v && 2 <= v.Length < u.Length
    requires BASE / 2 <= v[v.Length - 1]
    requires Val(u[..][u.Length - v.Length..]) < Val(v[..])
    modifies u
    ensures fresh(q) && q.Length == u.Length - v.Length
    ensures old(Val(u[..])) == Times(Val(q[..]), Val(v[..])) + Val(u[..v.Length])
    ensures Val(u[..v.Length]) < Val(v[..])
  {
    var n := v.Length;
    q := new u32[u.Length - n](_ => 0);
    ghost var u0 := u[..];
    var j := u.Length - n;
    assert u0[j..j + n] == u0[j..];
    while j > 0
      invariant 0 <= j <= q.Length
      invariant Dividing(u0, u[..], j, q[..], v[..])
    {
      j := j - 1;
      DivideDigit(u, v, q, j, u0);
    }
    DigitsDone(u0, u[..], q[..], v[..]);
    assert u[..][..n] == u[..n];
  }

  lemma DigitsDone(u0: seq<u32>, u: seq<u32>, q: seq<u32>, v: seq<u32>)
    requires Dividing(u0, u, 0, q, v)
    ensures Val(u0) == Times(Val(q), Val(v)) + Val(u[..|v|]) && Val(u[..|v|]) < Val(v)
  {
    SuffixIsWindow(u, 0, |v|);
    assert u0[0..] == u0 && u[0..0 + |v|] == u[..|v|] && q[0..] == q;
  }

  /** D1: the divisor's top limb gets its high bit and loses nothing. */
  lemma {:induction false} DivisorNormalised(y: seq<u32>, v: seq<u32>, shift: nat)
    requires y != [] && y[|y| - 1] > 0 && shift == Shifts.CountlZero(y[|y| - 1])
    requires shift < 32 && Shifts.ShiftedLeft(y, v, Shifts.Pow2(shift), Shifts.Pow2(32 - shift))
    ensures BASE / 2 <= v[|v| - 1]
    ensures Val(v) == Times(Shifts.Pow2(shift), Val(y))
  {
    var n := |y| - 1;
    var p, co := Shifts.Pow2(shift), Shifts.Pow2(32 - shift);
    Shifts.Pow2Base(shift);
    Shifts.CountlZeroNormalises(y[n]);
    TopFits(y[n], p, co);
    TopShifted(y, v, p, co);
    Shifts.ShiftLeftValue(y, v, p, co);
  }

  lemma {:induction false} TopShifted(y: seq<u32>, v: seq<u32>, p: nat, co: nat)
    requires co > 0 && y != [] && Shifts.ShiftedLeft(y, v, p, co) && y[|y| - 1] % co == y[|y| - 1]
    ensures v[|v| - 1] >= y[|y| - 1] * p
  {
    assert v[|y| - 1] == Shifts.LeftLimb(y, |y| - 1, p, co);
  }

  lemma TopFits(x: nat, p: nat, co: nat)
    requires p > 0 && co > 0 && p * co == BASE && x * p < BASE
    ensures x / co == 0 && x % co == x
  {
    if x >= co {
      MulLe(co, x, p);
      assert false;
    }
    Shifts.ModUnique(x, 0, x, co);
  }

  /** D1: the dividend with the limb its shift spills into, and why the first window is below the divisor. */
  lemma DividendNormalised(x: seq<u32>, u: seq<u32>, v: seq<u32>, shift: nat)
    requires shift < 32 && |v| <= |x| && v != [] && BASE / 2 <= v[|v| - 1]
    requires |u| == |x| + 1
    requires Shifts.ShiftedLeft(x, u[..|x|], Shifts.Pow2(shift), Shifts.Pow2(32 - shift))
    requires u[|x|] == x[|x| - 1] / Shifts.Pow2(32 - shift)
    ensures Val(u) == Times(Shifts.Pow2(shift), Val(x))
    ensures Val(u[|u| - |v|..]) < Val(v)
  {
    var m, n := |x|, |v|;
    var p, co := Shifts.Pow2(shift), Shifts.Pow2(32 - shift);
    Shifts.Pow2Base(shift);
    Shifts.ShiftLeftValue(x, u[..m], p, co);
    assert u == u[..m] + [u[m]];
    ValSnoc(u[..m], u[m]);
    assert u[m] < BASE / 2 by {
      Shifts.DivideBelow(x[m - 1], co, p);
      Pow2AtMost(shift);
    }
    var w := u[|u| - n..];
    assert w[n - 1] == u[m];
    HighestDifferenceDecides(w, v, n - 1);
  }

  lemma {:induction false} Pow2AtMost(s: nat)
    requires s < 32
    ensures Shifts.Pow2(s) <= BASE / 2
    decreases 32 - s
  {
    Shifts.Pow2Is32();
    if s < 31 {
      Pow2AtMost(s + 1);
    }
  }

  /** The shift cancels. */
  lemma ShiftCancels(p: nat, x: nat, y: nat, q: nat, r: nat, lo: nat)
    requires lo < p
    requires Times(p, x) == Times(q, Times(p, y)) + (Times(p, r) + lo)
    requires Times(p, r) + lo < Times(p, y)
    ensures x == q * y + r && r < y
  {
    TimesIsProduct(p, x);
    TimesIsProduct(p, y);
    TimesIsProduct(q, p * y);
    TimesIsProduct(p, r);
    Cancel(p, x, y, q, r, lo);
  }

  lemma Cancel(p: nat, x: nat, y: nat, q: nat, r: nat, lo: nat)
    requires lo < p
    requires p * x == q * (p * y) + (p * r + lo)
    requires p * r + lo < p * y
    ensures x == q * y + r && r < y
  {
    assert q * (p * y) == p * (q * y);
    assert p * (x - (q * y + r)) == lo;
    if x - (q * y + r) >= 1 {
      MulLe(1, x - (q * y + r), p);
      assert false;
    }
    if x - (q * y + r) <= -1 {
      MulLe(x - (q * y + r), -1, p);
      assert false;
    }
    if r >= y {
      MulLe(y, r, p);
      assert false;
    }
  }

  /** Algorithm D on a divisor of at least two limbs. */
  method DivideLong(x: seq<u32>, y: seq<u32>) returns (q: array<u32>, r: array<u32>)
    requires Normal(y) && 2 <= |y| <= |x|
    ensures Val(x) == Val(q[..]) * Val(y) + Val(r[..]) && Val(r[..]) < Val(y)
  {
    var m, n := |x|, |y|;
    var shift := Shifts.CountlZero(y[n - 1]);
    Shifts.CountlZeroNormalises(y[n - 1]);
    var v := new u32[n](_ => 0);
    ShiftInto(y, shift, v);
    assert v[..n] == v[..];
    DivisorNormalised(y, v[..], shift);
    var u := new u32[m + 1](_ => 0);
    var co := Shifts.Pow2(32 - shift);
    u[m] := ShiftDown(x[m - 1], co);
    ShiftInto(x, shift, u);
    assert u[m] == u[m..][0];
    assert u[..][..m] == u[..m];
    DividendNormalised(x, u[..], v[..], shift);
    q := DivideLimbs(u, v);
    r := ShiftBack(u[..n], shift);
    ghost var p := Shifts.Pow2(shift);
    Shifts.Pow2Base(shift);
    Shifts.ShiftRightValue(u[..n], r[..], p, co);
    ShiftCancels(p, Val(x), Val(y), Val(q[..]), Val(r[..]), u[0] % p);
  }

  /** x >> k, where co = 2^k. */
  function ShiftDown(x: u32, co: nat): (r: u32)
    requires co > 0
    ensures r == x / co
  {
    MulLe(1, co, x / co);
    x / co
  }

  /** divmod: refuses a zero divisor; otherwise the quotient and remainder of the two numbers. */
  method DivMod(dividend: BigUnsigned, divisor: BigUnsigned) returns (r: Outcome<(BigUnsigned, BigUnsigned)>)
    requires dividend.Valid() && divisor.Valid()
    ensures r.Refused? <==> divisor.Value() == 0
    ensures r.Accepted? ==> fresh(r.value.0) && fresh(r.value.1) && r.value.0.Valid() && r.value.1.Valid()
    ensures r.Accepted? ==> dividend.Value() == r.value.0.Value() * divisor.Value() + r.value.1.Value()
    ensures r.Accepted? ==> r.value.1.Value() < divisor.Value()
  {
    if divisor.limbs == [] {
      return Refused;
    }
    NormalLowerBound(divisor.limbs);
    var order := dividend.Compare(divisor);
    if order == Less {
      var zero := new BigUnsigned(0);
      var rest := new BigUnsigned.Copy(dividend);
      return Accepted((zero, rest));
    }
    var quotient := new BigUnsigned.Copy(dividend);
    if |divisor.limbs| == 1 {
      assert divisor.limbs[1..] == [];
      assert Val(divisor.limbs) == divisor.limbs[0];
      var rest := quotient.DivideSmall(divisor.limbs[0]);
      var remainder := new BigUnsigned(rest);
      return Accepted((quotient, remainder));
    }
    if |dividend.limbs| < |divisor.limbs| {
      LongerIsGreater(dividend.limbs, divisor.limbs);
    }
    var q, u := DivideLong(dividend.limbs, divisor.limbs);
    quotient.limbs := q[..];
    quotient.Trim();
    var remainder := new BigUnsigned(0);
    remainder.limbs := u[..];
    remainder.Trim();
    r := Accepted((quotient, remainder));
  }

  /** Quotient and remainder are the only numbers with DivMod's property. */
  lemma DivModUnique(x: nat, y: nat, q: nat, r: nat)
    requires y > 0 && x == q * y + r && r < y
    ensures q == x / y && r == x % y
  {
    Shifts.ModUnique(x, q, r, y);
  }

  // ---------------------------------------------------------------------------------------------
  // Decimal text

  /** from_decimal: refuses anything but ASCII digits, at least one. */
  method FromDecimal(digits: string) returns (r: Outcome<BigUnsigned>)
    ensures r.Accepted? <==> digits != [] && AllDigits(digits)
    ensures r.Accepted? ==> fresh(r.value) && r.value.Valid() && r.value.Value() == DecVal(digits)
  {
    if digits == [] {
      return Refused;
    }
    var ok := CheckDigits(digits);
    if !ok {
      return Refused;
    }
    var out := ReadDigits(digits);
    r := Accepted(out);
  }

  /** The digit loop of from_decimal. Chunks are cut from the right, so only the leftmost may be short. */
  method ReadDigits(digits: string) returns (out: BigUnsigned)
    requires digits != [] && AllDigits(digits)
    ensures fresh(out) && out.Valid() && out.Value() == DecVal(digits)
  {
    out := new BigUnsigned(0);
    var position := 0;
    var first := |digits| % CHUNK_DIGITS;
    if first == 0 {
      first := CHUNK_DIGITS;
    }
    ghost var whole := (|digits| - first) / CHUNK_DIGITS;
    while position < |digits|
      invariant 0 <= position <= |digits|
      invariant whole >= 0 && |digits| == (if position == 0 then first else position) + CHUNK_DIGITS * whole
      invariant fresh(out) && out.Valid() && out.Value() == DecVal(digits[..position])
    {
      var width := if position == 0 then first else CHUNK_DIGITS;
      var chunk, factor := ReadChunk(digits, position, width);
      ghost var before := out.Value();
      out.MultiplyAdd(factor, chunk);
      AppendDigits(digits, position, width, before, factor);
      whole := if position == 0 then whole else whole - 1;
      position := position + width;
    }
    assert digits[..position] == digits;
  }

  method CheckDigits(digits: string) returns (ok: bool)
    ensures ok <==> AllDigits(digits)
  {
    for i := 0 to |digits|
      invariant forall k :: 0 <= k < i ==> IsDigit(digits[k])
    {
      if digits[i] < '0' || digits[i] > '9' {
        return false;
      }
    }
    ok := true;
  }

  lemma AppendDigits(digits: string, position: nat, width: nat, before: nat, factor: u32)
    requires AllDigits(digits) && position + width <= |digits|
    requires before == DecVal(digits[..position]) && factor == Pow10(width)
    ensures before * factor + DecVal(digits[position..position + width]) == DecVal(digits[..position + width])
  {
    DecValConcat(digits[..position], digits[position..position + width]);
    assert digits[..position + width] == digits[..position] + digits[position..position + width];
  }

  /** Up to nine digits and the power of ten they are worth. */
  method ReadChunk(digits: string, position: nat, width: nat) returns (chunk: u32, factor: u32)
    requires AllDigits(digits) && position + width <= |digits| && width <= CHUNK_DIGITS
    ensures chunk == DecVal(digits[position..position + width]) && factor == Pow10(width)
  {
    chunk, factor := 0, 1;
    for i := 0 to width
      invariant factor == Pow10(i) && chunk == DecVal(digits[position..position + i])
    {
      ghost var part := digits[position..position + i + 1];
      assert part[..|part| - 1] == digits[position..position + i];
      ChunkFits(digits[position..position + i + 1]);
      chunk := chunk * 10 + DigitValue(digits[position + i]);
      factor := factor * 10;
    }
  }

  lemma ChunkFits(s: string)
    requires AllDigits(s) && |s| <= CHUNK_DIGITS
    ensures DecVal(s) < Pow10(|s|) <= CHUNK
  {
    DecValBound(s);
    Pow10Chunk(|s|);
  }

  lemma {:induction false} Pow10Chunk(n: nat)
    requires n <= CHUNK_DIGITS
    ensures Pow10(n) <= Pow10(CHUNK_DIGITS) == CHUNK
    decreases CHUNK_DIGITS - n
  {
    assert Pow10(3) == 1000;
    assert Pow10(6) == 1000_000;
    assert Pow10(9) == CHUNK;
    if n < CHUNK_DIGITS {
      Pow10Chunk(n + 1);
    }
  }

  /** pow10 */
  method PowerOfTen(exponent: nat) returns (out: BigUnsigned)
    ensures fresh(out) && out.Valid() && out.Value() == Pow10(exponent)
  {
    out := new BigUnsigned(1);
    var left := exponent;
    Pow10Chunk(0);
    while left >= CHUNK_DIGITS
      invariant 0 <= left <= exponent
      invariant fresh(out) && out.Valid() && out.Value() == Pow10(exponent - left)
    {
      ghost var before := out.Value();
      out.MultiplyAdd(CHUNK, 0);
      Pow10Times(before, exponent - left, CHUNK_DIGITS, CHUNK);
      left := left - CHUNK_DIGITS;
    }
    var rest := SmallPowerOfTen(left);
    ghost var before := out.Value();
    out.MultiplyAdd(rest, 0);
    Pow10Times(before, exponent - left, left, rest);
    assert exponent - left + left == exponent;
  }

  method SmallPowerOfTen(exponent: nat) returns (rest: u32)
    requires exponent <= CHUNK_DIGITS
    ensures rest == Pow10(exponent)
  {
    rest := 1;
    for i := 0 to exponent
      invariant rest == Pow10(i)
    {
      Pow10Chunk(i + 1);
      rest := rest * 10;
    }
  }

  lemma Pow10Times(before: nat, m: nat, n: nat, factor: u32)
    requires before == Pow10(m) && factor == Pow10(n)
    ensures before * factor + 0 == Pow10(m + n)
  {
    Pow10Add(m, n);
  }

  lemma {:induction false} Pow10Add(m: nat, n: nat)
    ensures Pow10(m + n) == Pow10(m) * Pow10(n)
  {
    if n > 0 {
      Pow10Add(m, n - 1);
      TenTimes(Pow10(m), Pow10(n - 1));
    }
  }

  lemma TenTimes(a: int, b: int)
    ensures 10 * (a * b) == a * (10 * b)
  {
  }

  /** Chunks below 10^9, least significant first. */
  ghost function ChunksVal(chunks: seq<u32>): nat
  {
    if chunks == [] then 0 else chunks[0] + CHUNK * ChunksVal(chunks[1..])
  }

  ghost function ChunkPower(n: nat): nat
  {
    if n == 0 then 1 else CHUNK * ChunkPower(n - 1)
  }

  lemma {:induction false} ChunksSnoc(chunks: seq<u32>, x: u32, rest: nat)
    ensures ChunksVal(chunks + [x]) + Times(rest, ChunkPower(|chunks| + 1)) ==
            ChunksVal(chunks) + Times(x + CHUNK * rest, ChunkPower(|chunks|))
  {
    if chunks == [] {
      assert (chunks + [x])[1..] == [];
      TimesIsProduct(rest, CHUNK);
      TimesIsProduct(x + CHUNK * rest, 1);
    } else {
      ChunksSnoc(chunks[1..], x, rest);
      assert (chunks + [x])[1..] == chunks[1..] + [x];
      ChunkScale(rest, ChunkPower(|chunks|));
      ChunkScale(x + CHUNK * rest, ChunkPower(|chunks| - 1));
    }
  }

  lemma ChunkScale(x: int, p: int)
    ensures Times(x, CHUNK * p) == CHUNK * Times(x, p)
  {
    TimesIsProduct(x, CHUNK * p);
    TimesIsProduct(x, p);
    assert x * (CHUNK * p) == CHUNK * (x * p);
  }

  /** to_decimal: the shortest numeral of the value. */
  method ToDecimal(number: BigUnsigned) returns (out: string)
    requires number.Valid()
    ensures out == ToDec(number.Value())
  {
    if number.limbs == [] {
      return "0";
    }
    NormalLowerBound(number.limbs);
    var chunks := DecimalChunks(number);
    var i := |chunks| - 1;
    out := ToDec(chunks[i]);
    assert chunks[i..][1..] == [];
    while i > 0
      invariant 0 <= i < |chunks|
      invariant ChunksVal(chunks[i..]) > 0 && out == ToDec(ChunksVal(chunks[i..]))
    {
      i := i - 1;
      var text := ToDec(chunks[i]);
      assert chunks[i..][1..] == chunks[i + 1..];
      AppendChunk(ChunksVal(chunks[i + 1..]), chunks[i]);
      out := out + DecimalText.Zeros(CHUNK_DIGITS - |text|);
      out := out + text;
    }
    assert chunks[0..] == chunks;
  }

  lemma AppendChunk(high: nat, chunk: u32)
    requires high > 0 && chunk < CHUNK
    ensures |ToDec(chunk)| <= CHUNK_DIGITS
    ensures ToDec(chunk + CHUNK * high) ==
            ToDec(high) + DecimalText.Zeros(CHUNK_DIGITS - |ToDec(chunk)|) + ToDec(chunk)
  {
    Pow10Chunk(CHUNK_DIGITS);
    ToDecSplit(high, chunk, CHUNK_DIGITS);
    LastDigitsPad(chunk, CHUNK_DIGITS);
    assert high * Pow10(CHUNK_DIGITS) + chunk == chunk + CHUNK * high;
  }

  /** Repeated division by 10^9. */
  method DecimalChunks(number: BigUnsigned) returns (chunks: seq<u32>)
    requires number.Valid() && number.Value() > 0
    ensures chunks != [] && chunks[|chunks| - 1] != 0
    ensures forall k :: 0 <= k < |chunks| ==> chunks[k] < CHUNK
    ensures ChunksVal(chunks) == number.Value()
  {
    var rest := new BigUnsigned.Copy(number);
    chunks := [];
    TimesIsProduct(rest.Value(), 1);
    while rest.limbs != []
      invariant fresh(rest) && rest.Valid()
      invariant rest.limbs == [] ==> chunks != [] && chunks[|chunks| - 1] != 0
      invariant forall k :: 0 <= k < |chunks| ==> chunks[k] < CHUNK
      invariant ChunksVal(chunks) + Times(rest.Value(), ChunkPower(|chunks|)) == number.Value()
      decreases rest.Value()
    {
      NormalLowerBound(rest.limbs);
      var chunk := rest.DivideSmall(CHUNK);
      ChunksSnoc(chunks, chunk, rest.Value());
      chunks := chunks + [chunk];
    }
  }

  /** to_uint64: refused from 2^64 on. */
  method ToUint64(number: BigUnsigned) returns (r: Outcome<u64>)
    requires number.Valid()
    ensures r == if number.Value() < BASE * BASE then Accepted(number.Value()) else Refused
  {
    ValBound(number.limbs);
    if |number.limbs| > 2 {
      NormalLowerBound(number.limbs);
      PowerMonotone(2, |number.limbs| - 1);
      assert Power(2) == BASE * BASE;
      return Refused;
    }
    PowerMonotone(|number.limbs|, 2);
    assert Power(2) == BASE * BASE;
    var value: u64 := 0;
    var i := |number.limbs|;
    while i > 0
      invariant 0 <= i <= |number.limbs|
      invariant value == Val(number.limbs[i..])
      invariant value < Power(|number.limbs| - i)
    {
      i := i - 1;
      assert number.limbs[i..][1..] == number.limbs[i + 1..];
      ValBound(number.limbs[i..]);
      PowerMonotone(|number.limbs| - i, 2);
      value := value * BASE + number.limbs[i];
    }
    assert number.limbs[0..] == number.limbs;
    r := Accepted(value);
  }
}
