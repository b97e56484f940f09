/** Admission of a value to a decimal(p,s) field (cpp/src/admission.cpp:102-152), on text already taken apart
    (cpp/src/value_internal.hpp:39-44). */
module DecimalAdmission {
  import opened DecimalText
  import opened DecimalSyntax
  import opened Outcomes

  // --- numbers --------------------------------------------------------------------------------------

  /** c*10^k */
  function Shift(c: nat, k: nat): nat { if k == 0 then c else 10 * Shift(c, k - 1) }

  lemma {:induction false} ShiftShift(c: nat, j: nat, k: nat)
    ensures Shift(Shift(c, j), k) == Shift(c, j + k)
  {
    if k > 0 {
      ShiftShift(c, j, k - 1);
    }
  }

  lemma {:induction false} ShiftOrder(a: nat, b: nat, k: nat)
    ensures a < b <==> Shift(a, k) < Shift(b, k)
  {
    if k > 0 {
      ShiftOrder(a, b, k - 1);
    }
  }

  lemma ShiftSame(a: nat, b: nat, k: nat)
    ensures a == b <==> Shift(a, k) == Shift(b, k)
  {
    ShiftOrder(a, b, k);
    ShiftOrder(b, a, k);
  }

  lemma {:induction false} ShiftUp(c: nat, j: nat, k: nat)
    requires j <= k
    ensures Shift(c, j) <= Shift(c, k)
  {
    if j < k {
      ShiftUp(c, j, k - 1);
    }
  }

  lemma {:induction false} ShiftOne(k: nat)
    ensures Shift(1, k) == Pow10(k)
  {
    if k > 0 {
      ShiftOne(k - 1);
    }
  }

  /** The number c*10^e, with a sign. */
  datatype Number = Number(negative: bool, c: nat, e: int)

  function Floor(d: int, e: int): int { if d <= e then d else e }

  /** c*10^d and b*10^e are the same magnitude: equal once both are written with the smaller exponent. */
  predicate SameSize(c: nat, d: int, b: nat, e: int) {
    Shift(c, d - Floor(d, e)) == Shift(b, e - Floor(d, e))
  }

  /** c*10^d is a smaller magnitude than b*10^e. */
  predicate Smaller(c: nat, d: int, b: nat, e: int) {
    Shift(c, d - Floor(d, e)) < Shift(b, e - Floor(d, e))
  }

  /** Two numbers are equal; a zero has no sign. */
  predicate Same(x: Number, y: Number) {
    SameSize(x.c, x.e, y.c, y.e) && (x.c == 0 || x.negative == y.negative)
  }

  /** Any common exponent tells whether two magnitudes are the same. */
  lemma SameAt(c: nat, d: int, b: nat, e: int, f: int)
    requires f <= d && f <= e
    ensures SameSize(c, d, b, e) <==> Shift(c, d - f) == Shift(b, e - f)
  {
    var m := Floor(d, e);
    ShiftShift(c, d - m, m - f);
    ShiftShift(b, e - m, m - f);
    ShiftSame(Shift(c, d - m), Shift(b, e - m), m - f);
  }

  lemma {:induction false} ZeroShift(c: nat, k: nat)
    ensures c == 0 <==> Shift(c, k) == 0
  {
    if k > 0 {
      ZeroShift(c, k - 1);
    }
  }

  lemma SameZero(x: Number, y: Number)
    requires SameSize(x.c, x.e, y.c, y.e)
    ensures x.c == 0 <==> y.c == 0
  {
    ZeroShift(x.c, x.e - Floor(x.e, y.e));
    ZeroShift(y.c, y.e - Floor(x.e, y.e));
  }

  lemma SameTransitive(x: Number, y: Number, z: Number)
    requires Same(x, y) && Same(y, z)
    ensures Same(x, z)
  {
    var f := Floor(Floor(x.e, y.e), z.e);
    SameAt(x.c, x.e, y.c, y.e, f);
    SameAt(y.c, y.e, z.c, z.e, f);
    SameAt(x.c, x.e, z.c, z.e, f);
    SameZero(x, y);
  }

  lemma SameSymmetric(x: Number, y: Number)
    requires Same(x, y)
    ensures Same(y, x)
  {
    SameZero(x, y);
  }

  // --- values ---------------------------------------------------------------------------------------

  datatype Value =
    | Integer(n: int)
    | Decimal(negative: bool, coefficient: string, scale: int)
    | Text(parts: Parts)
    | Other

  predicate WellFormed(v: Value) {
    match v
    case Integer(_) => true
    case Decimal(_, coefficient, _) => Canonical(coefficient)
    case Text(parts) =>
      AllDigits(parts.integer) && AllDigits(parts.fraction) && parts.integer + parts.fraction != []
    case Other => true
  }

  function Magnitude(n: int): nat { if n < 0 then 0 - n else n }

  /** The number a value denotes. */
  function Denotes(v: Value): Number
    requires WellFormed(v) && !v.Other?
  {
    match v
    case Integer(n) => Number(n < 0, Magnitude(n), 0)
    case Decimal(negative, coefficient, scale) => Number(negative, DecVal(coefficient), -scale)
    case Text(parts) =>
      Number(parts.negative, DecVal(parts.integer + parts.fraction), parts.exponent - |parts.fraction|)
  }

  // --- zeros at either end --------------------------------------------------------------------------

  function DropLeading(s: string): (r: string)
    ensures |r| <= |s| && (r != [] ==> r[0] != '0')
    ensures AllDigits(s) ==> AllDigits(r)
  {
    if s != [] && s[0] == '0' then DropLeading(s[1..]) else s
  }

  lemma {:induction false} DropLeadingValue(s: string)
    requires AllDigits(s)
    ensures DecVal(DropLeading(s)) == DecVal(s)
  {
    if s != [] && s[0] == '0' {
      DropLeadingValue(s[1..]);
      assert s == s[..1] + s[1..];
      DecValConcat(s[..1], s[1..]);
      assert s[..1][..0] == [];
    }
  }

  function DropTrailing(s: string): (r: string)
    ensures |r| <= |s| && (r != [] ==> r[|r| - 1] != '0' && r[0] == s[0])
    ensures AllDigits(s) ==> AllDigits(r)
    ensures s != [] && s[0] != '0' ==> r != []
  {
    if s != [] && s[|s| - 1] == '0' then DropTrailing(s[..|s| - 1]) else s
  }

  lemma {:induction false} DropTrailingValue(s: string)
    requires AllDigits(s)
    ensures DecVal(s) == Shift(DecVal(DropTrailing(s)), |s| - |DropTrailing(s)|)
  {
    if s != [] && s[|s| - 1] == '0' {
      DropTrailingValue(s[..|s| - 1]);
    }
  }

  lemma {:induction false} AppendZeros(s: string, k: nat)
    requires AllDigits(s)
    ensures AllDigits(s + Zeros(k)) && DecVal(s + Zeros(k)) == Shift(DecVal(s), k)
  {
    if k == 0 {
      assert s + Zeros(k) == s;
    } else {
      AppendZeros(s, k - 1);
      var all := s + Zeros(k);
      assert all[..|all| - 1] == s + Zeros(k - 1);
      assert all[|all| - 1] == '0';
    }
  }

  // --- the limits of the reference ------------------------------------------------------------------

  const MAX_EMAX: int := 999_999_999_999_999_999
  const MIN_ETINY: int := -1_999_999_999_999_999_997

  /** decimal_counts: the digits of the coefficient without leading zeros, one for zero. */
  function CoefficientDigits(parts: Parts): nat {
    var integer := DropLeading(parts.integer);
    if integer != [] then |integer| + |parts.fraction|
    else if DropLeading(parts.fraction) == [] then 1
    else |DropLeading(parts.fraction)|
  }

  /** python_decimal_invalid */
  predicate PastLimits(parts: Parts) {
    var exponent := parts.exponent - |parts.fraction|;
    exponent + CoefficientDigits(parts) - 1 > MAX_EMAX || exponent < MIN_ETINY
  }

  lemma {:induction false} DropLeadingConcat(a: string, b: string)
    ensures DropLeading(a + b) == if DropLeading(a) != [] then DropLeading(a) + b else DropLeading(b)
  {
    if a == [] {
      assert a + b == b;
    } else if a[0] == '0' {
      assert (a + b)[1..] == a[1..] + b;
      DropLeadingConcat(a[1..], b);
    }
  }

  /** The digits counted are those admission keeps. */
  lemma CountsAgree(parts: Parts)
    ensures var digits := DropLeading(parts.integer + parts.fraction);
            CoefficientDigits(parts) == if digits == [] then 1 else |digits|
  {
    DropLeadingConcat(parts.integer, parts.fraction);
  }

  /** The clamp changes no answer: past it a number is refused alike, for any text that fits in memory. */
  lemma ClampChangesNothing(parts: Parts)
    requires |parts.integer| + |parts.fraction| < 0x1000_0000_0000_0000
    ensures PastLimits(parts.(exponent := Clamped(parts.exponent))) <==> PastLimits(parts)
  {
    CountsAgree(parts);
    CountsAgree(parts.(exponent := Clamped(parts.exponent)));
  }

  // --- fitting decimal(p,s) -------------------------------------------------------------------------

  /** x is a whole number of 10^-s: it has at most s fractional digits. */
  ghost predicate Exact(x: Number, scale: nat) {
    exists n: nat :: Counts(x, scale, n)
  }

  /** x is n times 10^-s, but for the sign. */
  predicate Counts(x: Number, scale: nat, n: nat) { SameSize(x.c, x.e, n, 0 - scale) }

  /** decimal(p,s) holds x: at most s fractional digits, and |x| < 10^(p-s). */
  ghost predicate Fits(x: Number, precision: nat, scale: nat)
    requires scale <= precision
  {
    Exact(x, scale) && Smaller(x.c, x.e, 1, precision - scale)
  }

  /** Digits that begin and end with something other than 0. */
  predicate Trimmed(digits: string) {
    AllDigits(digits) && digits != [] && digits[0] != '0' && digits[|digits| - 1] != '0'
  }

  lemma LastDigit(q: nat, d: nat)
    requires d < 10
    ensures (10 * q + d) % 10 == d
  {
  }

  lemma NotAMultipleOfTen(digits: string)
    requires Trimmed(digits)
    ensures DecVal(digits) % 10 != 0 && DecVal(digits) > 0
  {
    var n := |digits| - 1;
    var q, d := DecVal(digits[..n]), DigitValue(digits[n]);
    DigitOfValue(digits[n]);
    LastDigit(q, d);
  }

  /** c*10^e has at most s fractional digits exactly when e is at least -s. */
  lemma ExactIff(x: Number, scale: nat)
    requires x.c % 10 != 0
    ensures Exact(x, scale) <==> -x.e <= scale
  {
    if -x.e <= scale {
      assert Counts(x, scale, Shift(x.c, x.e + scale));
    } else {
      forall n: nat
        ensures !Counts(x, scale, n)
      {
        TooFine(x.c, 0 - scale - x.e, n);
      }
    }
  }

  lemma TooFine(c: nat, k: nat, n: nat)
    requires c % 10 != 0 && k > 0
    ensures c != Shift(n, k)
  {
  }

  /** c*10^e is below 10^w exactly when its digits reach at most w places before the point. */
  lemma {:induction false} BelowIff(digits: string, e: int, w: nat)
    requires AllDigits(digits) && digits != [] && digits[0] != '0'
    ensures Smaller(DecVal(digits), e, 1, w) <==> |digits| + e <= w
  {
    var c, n, m := DecVal(digits), |digits|, Floor(e, w);
    DecValBound(digits);
    LeadingDigitCounts(digits);
    ShiftOne(n);
    ShiftOne(n - 1);
    ShiftOrder(c, Shift(1, n), e - m);
    ShiftOrder(c, Shift(1, n - 1), e - m);
    ShiftShift(1, n, e - m);
    ShiftShift(1, n - 1, e - m);
    if n + e <= w {
      ShiftUp(1, n + e - m, w - m);
    } else {
      ShiftUp(1, w - m, n - 1 + e - m);
    }
  }

  lemma FitsIff(x: Number, digits: string, precision: nat, scale: nat)
    requires scale <= precision && Trimmed(digits) && x.c == DecVal(digits)
    ensures Fits(x, precision, scale) <==> -x.e <= scale && |digits| + x.e <= precision - scale
  {
    NotAMultipleOfTen(digits);
    ExactIff(x, scale);
    BelowIff(digits, x.e, precision - scale);
  }

  lemma {:induction false} ZeroShifts(k: nat)
    ensures Shift(0, k) == 0
  {
    ZeroShift(0, k);
  }

  lemma ZeroFits(x: Number, precision: nat, scale: nat)
    requires x.c == 0 && scale <= precision
    ensures Fits(x, precision, scale)
  {
    var s := 0 - scale;
    ZeroShifts(x.e - Floor(x.e, s));
    ZeroShifts(s - Floor(x.e, s));
    assert Counts(x, scale, 0);
    var w := precision - scale;
    ZeroShifts(x.e - Floor(x.e, w));
    ZeroShift(1, w - Floor(x.e, w));
  }

  /** Fitting depends on the number alone. */
  lemma FitsSame(x: Number, y: Number, precision: nat, scale: nat)
    requires scale <= precision && Same(x, y) && Fits(x, precision, scale)
    ensures Fits(y, precision, scale)
  {
    var n: nat :| Counts(x, scale, n);
    SameSizeTransitive(x, y, n, 0 - scale);
    assert Counts(y, scale, n);
    SmallerSame(x, y, precision - scale);
  }

  lemma SameSizeTransitive(x: Number, y: Number, n: nat, e: int)
    requires SameSize(x.c, x.e, y.c, y.e) && SameSize(x.c, x.e, n, e)
    ensures SameSize(y.c, y.e, n, e)
  {
    var f := Floor(Floor(x.e, y.e), e);
    SameAt(x.c, x.e, y.c, y.e, f);
    SameAt(x.c, x.e, n, e, f);
    SameAt(y.c, y.e, n, e, f);
  }

  lemma SmallerSame(x: Number, y: Number, w: int)
    requires SameSize(x.c, x.e, y.c, y.e) && Smaller(x.c, x.e, 1, w)
    ensures Smaller(y.c, y.e, 1, w)
  {
    var f := Floor(Floor(x.e, y.e), w);
    SameAt(x.c, x.e, y.c, y.e, f);
    SmallerAt(x.c, x.e, 1, w, f);
    SmallerAt(y.c, y.e, 1, w, f);
  }

  lemma SmallerAt(c: nat, d: int, b: nat, e: int, f: int)
    requires f <= d && f <= e
    ensures Smaller(c, d, b, e) <==> Shift(c, d - f) < Shift(b, e - f)
  {
    var m := Floor(d, e);
    ShiftShift(c, d - m, m - f);
    ShiftShift(b, e - m, m - f);
    ShiftOrder(Shift(c, d - m), Shift(b, e - m), m - f);
  }

  /** Text has the number its digits denote, with the point where it stands: the last digit before the point may as
      well be the first behind it, if the exponent is one more; and without a fraction it is the digits, times ten to
      the exponent. */
  lemma {:induction false} PointMoves(negative: bool, integer: string, d: nat, fraction: string, exponent: int)
    requires AllDigits(integer) && AllDigits(fraction) && d < 10
    ensures var c := ["0123456789"[d]];
            WellFormed(Text(Parts(negative, integer + c, fraction, exponent))) &&
            WellFormed(Text(Parts(negative, integer, c + fraction, exponent + 1))) &&
            Denotes(Text(Parts(negative, integer + c, fraction, exponent))) ==
            Denotes(Text(Parts(negative, integer, c + fraction, exponent + 1)))
    ensures integer != [] ==>
            Denotes(Text(Parts(negative, integer, "", exponent))) == Number(negative, DecVal(integer), exponent)
  {
    var c := ["0123456789"[d]];
    assert c[0] as int == '0' as int + d;
    assert (integer + c) + fraction == integer + (c + fraction);
    assert integer + "" == integer;
  }

  // --- the check ------------------------------------------------------------------------------------

  /** What the check reads: the digits without leading zeros, none for zero. */
  datatype Reading = Reading(negative: bool, digits: string, exponent: int)

  predicate Reads(v: Value, r: Reading)
    requires WellFormed(v) && !v.Other?
  {
    AllDigits(r.digits) && (r.digits != [] ==> r.digits[0] != '0') &&
    Denotes(v) == Number(r.negative, DecVal(r.digits), r.exponent)
  }

  /** The numbers the reference reads from text. */
  predicate WithinLimits(x: Number) {
    x.e >= -1_999_999_999_999_999_997 &&
    if x.c == 0 then x.e <= 999_999_999_999_999_999 else Smaller(x.c, x.e, 1, 1_000_000_000_000_000_000)
  }

  /** The limits of the reference, by the number: an exponent below its least, or a magnitude of 10^(10^18) or more; a
      zero is refused for its exponent alone. */
  lemma {:induction false} LimitsIff(parts: Parts)
    requires WellFormed(Text(parts))
    ensures PastLimits(parts) <==> !WithinLimits(Denotes(Text(parts)))
  {
    var x := Denotes(Text(parts));
    var digits := DropLeading(parts.integer + parts.fraction);
    CountsAgree(parts);
    DropLeadingValue(parts.integer + parts.fraction);
    if digits != [] {
      LeadingDigitCounts(digits);
      BelowIff(digits, x.e, 1_000_000_000_000_000_000);
    }
  }

  /** Whether the check reads the value at all. */
  predicate Readable(v: Value) { !v.Other? && !(v.Text? && PastLimits(v.parts)) }

  method Read(v: Value) returns (r: Outcome<Reading>)
    requires WellFormed(v)
    ensures r.Accepted? <==> Readable(v)
    ensures r.Accepted? ==> Reads(v, r.value)
  {
    match v
    case Integer(n) =>
      var magnitude := Magnitude(n);
      DecValToDec(magnitude);
      ToDecCanonical(magnitude);
      r := Accepted(Reading(n < 0, if magnitude != 0 then ToDec(magnitude) else "", 0));
    case Decimal(negative, coefficient, scale) =>
      ZeroNumeral(coefficient);
      r := Accepted(Reading(negative, if coefficient != "0" then coefficient else "", -scale));
    case Text(parts) =>
      if PastLimits(parts) {
        return Refused;
      }
      var digits := parts.integer + parts.fraction;
      DropLeadingValue(digits);
      r := Accepted(Reading(parts.negative, DropLeading(digits), parts.exponent - |parts.fraction|));
    case Other =>
      r := Refused;
  }

  lemma ZeroNumeral(s: string)
    requires Canonical(s)
    ensures s != "0" ==> s[0] != '0'
    ensures s == "0" ==> DecVal(s) == 0
  {
    if s == "0" {
      assert s[..0] == [];
    }
  }

  /** The form in which a number leaves the check: written with the field's scale, no leading zeros, and zero without
      a sign. */
  predicate AtScale(x: Number, scale: nat, out: Value) {
    out.Decimal? && out.scale == scale && Canonical(out.coefficient) && Same(x, Denotes(out)) &&
    (x.c == 0 ==> !out.negative)
  }

  /** decimal(p,s) takes a value exactly when it is a number the field holds, past no limit of the reference; an integer
      stays itself, and anything else comes out at the field's scale. */
  method Admit(precision: nat, scale: nat, v: Value) returns (r: Outcome<Value>)
    requires 1 <= precision && scale <= precision && WellFormed(v)
    ensures r.Accepted? <==> Readable(v) && Fits(Denotes(v), precision, scale)
    ensures r.Accepted? <==> v != Other && (v.Text? ==> WithinLimits(Denotes(v))) && Fits(Denotes(v), precision, scale)
    ensures r.Accepted? && v.Integer? ==> r.value == v
    ensures r.Accepted? && !v.Integer? ==> AtScale(Denotes(v), scale, r.value) && |r.value.coefficient| <= precision
  {
    if v.Text? {
      LimitsIff(v.parts);
    }
    var read := Read(v);
    if read.Refused? {
      return Refused;
    }
    var negative, digits, exponent := read.value.negative, read.value.digits, read.value.exponent;
    var whole := precision - scale;
    ghost var x := Denotes(v);
    if digits != [] {
      var significant := DropTrailing(digits);
      TrimReading(x, digits, precision, scale);
      exponent := exponent + (|digits| - |significant|);
      digits := significant;
      if -exponent > scale {
        return Refused;
      }
      if |digits| + exponent > whole {
        return Refused;
      }
    } else {
      ZeroFits(x, precision, scale);
    }
    if v.Integer? {
      return Accepted(v);
    }
    if digits == [] {
      ZeroAtScale(x, scale);
      return Accepted(Decimal(false, "0", scale));
    }
    Padded(x, Number(negative, DecVal(digits), exponent), digits, precision, scale);
    return Accepted(Decimal(negative, digits + Zeros(exponent + scale), scale));
  }

  lemma ZeroAtScale(x: Number, scale: nat)
    requires x.c == 0
    ensures AtScale(x, scale, Decimal(false, "0", scale))
  {
    assert "0"[..0] == [];
    var s := 0 - scale;
    ZeroShifts(x.e - Floor(x.e, s));
    ZeroShifts(s - Floor(x.e, s));
  }

  /** Without its trailing zeros it is the same number, and whether it fits can be read off. */
  lemma TrimReading(x: Number, digits: string, precision: nat, scale: nat)
    requires AllDigits(digits) && digits != [] && digits[0] != '0' && x.c == DecVal(digits) && scale <= precision
    ensures var kept := DropTrailing(digits);
            var e := x.e + (|digits| - |kept|);
            Trimmed(kept) && Same(x, Number(x.negative, DecVal(kept), e)) &&
            (Fits(x, precision, scale) <==> -e <= scale && |kept| + e <= precision - scale)
  {
    var kept := DropTrailing(digits);
    var k := |digits| - |kept|;
    DropTrailingValue(digits);
    var y := Number(x.negative, DecVal(kept), x.e + k);
    assert Same(x, y);
    SameSymmetric(x, y);
    FitsIff(y, kept, precision, scale);
    if Fits(x, precision, scale) {
      FitsSame(x, y, precision, scale);
    }
    if Fits(y, precision, scale) {
      FitsSame(y, x, precision, scale);
    }
  }

  lemma Padded(x: Number, y: Number, digits: string, precision: nat, scale: nat)
    requires Trimmed(digits) && y.c == DecVal(digits) && Same(x, y) && x.negative == y.negative
    requires -y.e <= scale <= precision && |digits| + y.e <= precision - scale
    ensures var out := Decimal(y.negative, digits + Zeros(y.e + scale), scale);
            AtScale(x, scale, out) && |out.coefficient| <= precision
  {
    var k := y.e + scale;
    var out := Decimal(y.negative, digits + Zeros(k), scale);
    AppendZeros(digits, k);
    assert Same(y, Denotes(out));
    SameTransitive(x, y, Denotes(out));
    NotAMultipleOfTen(digits);
    SameZero(x, y);
  }

  // --- text -----------------------------------------------------------------------------------------

  /** The text without white space at either end. What counts as white space is the caller's: a Unicode property. */
  function Spaceless(text: string, space: char -> bool): string { TrimmedEnd(TrimmedStart(text, space), space) }

  function TrimmedStart(text: string, space: char -> bool): string {
    if text != [] && space(text[0]) then TrimmedStart(text[1..], space) else text
  }

  function TrimmedEnd(text: string, space: char -> bool): string {
    if text != [] && space(text[|text| - 1]) then TrimmedEnd(text[..|text| - 1], space) else text
  }

  predicate AllSpace(s: string, space: char -> bool) { forall i :: 0 <= i < |s| ==> space(s[i]) }

  /** The text is this with white space around it, and this has none at either end. */
  predicate Bare(text: string, before: string, mid: string, after: string, space: char -> bool) {
    text == before + mid + after && AllSpace(before, space) && AllSpace(after, space) &&
    (mid != [] ==> !space(mid[0]) && !space(mid[|mid| - 1]))
  }

  lemma {:induction false} StartTrimmed(before: string, rest: string, space: char -> bool)
    requires AllSpace(before, space) && (rest == [] || !space(rest[0]))
    ensures TrimmedStart(before + rest, space) == rest
  {
    if before == [] {
      assert before + rest == rest;
    } else {
      assert (before + rest)[1..] == before[1..] + rest;
      StartTrimmed(before[1..], rest, space);
    }
  }

  lemma {:induction false} EndTrimmed(rest: string, after: string, space: char -> bool)
    requires AllSpace(after, space) && (rest == [] || !space(rest[|rest| - 1]))
    ensures TrimmedEnd(rest + after, space) == rest
  {
    if after == [] {
      assert rest + after == rest;
    } else {
      var n := |after| - 1;
      assert (rest + after)[..|rest| + n] == rest + after[..n];
      EndTrimmed(rest, after[..n], space);
    }
  }

  /** Trimming takes the white space at either end and nothing else. */
  lemma {:induction false} TrimmingIs(text: string, before: string, mid: string, after: string, space: char -> bool)
    requires Bare(text, before, mid, after, space)
    ensures Spaceless(text, space) == mid
  {
    if mid == [] {
      assert text == (before + after) + [];
      StartTrimmed(before + after, [], space);
    } else {
      assert text == before + (mid + after);
      StartTrimmed(before, mid + after, space);
      EndTrimmed(mid, after, space);
    }
  }

  lemma {:induction false} StartSplit(text: string, space: char -> bool) returns (before: string)
    ensures text == before + TrimmedStart(text, space) && AllSpace(before, space)
    ensures TrimmedStart(text, space) != [] ==> !space(TrimmedStart(text, space)[0])
  {
    before := [];
    if text != [] && space(text[0]) {
      var more := StartSplit(text[1..], space);
      before := [text[0]] + more;
    }
  }

  lemma {:induction false} EndSplit(text: string, space: char -> bool) returns (after: string)
    ensures text == TrimmedEnd(text, space) + after && AllSpace(after, space)
    ensures var mid := TrimmedEnd(text, space); mid != [] ==> !space(mid[|mid| - 1]) && mid[0] == text[0]
  {
    after := [];
    if text != [] && space(text[|text| - 1]) {
      var less := EndSplit(text[..|text| - 1], space);
      after := less + [text[|text| - 1]];
    }
  }

  lemma IsBare(text: string, space: char -> bool) returns (before: string, after: string)
    ensures Bare(text, before, Spaceless(text, space), after, space)
  {
    before := StartSplit(text, space);
    after := EndSplit(TrimmedStart(text, space), space);
  }

  /** Text is admitted exactly when, without the white space around it, it spells a decimal past no limit of the
      reference that the field holds; it comes out as that number at the field's scale. */
  method AdmitText(precision: nat, scale: nat, text: string, space: char -> bool) returns (r: Outcome<Value>)
    requires 1 <= precision && scale <= precision
    ensures r.Accepted? <==>
      exists parts :: IsDecimal(Spaceless(text, space), parts) && TextFits(parts, precision, scale)
    ensures r.Accepted? ==>
      exists parts :: IsDecimal(Spaceless(text, space), parts) && TextFits(parts, precision, scale) &&
                      AtScale(Denotes(Text(parts)), scale, r.value) && |r.value.coefficient| <= precision
    ensures exists before, after :: Bare(text, before, Spaceless(text, space), after, space)
  {
    var trimmed := Spaceless(text, space);
    ghost var before, after := IsBare(text, space);
    var parts := DecimalParts(trimmed);
    if parts.Refused? {
      return Refused;
    }
    DecimalWellFormed(trimmed, parts.value);
    forall other | IsDecimal(trimmed, other)
      ensures other == parts.value
    {
      SplitIff(trimmed, other);
    }
    r := Admit(precision, scale, Text(parts.value));
  }

  ghost predicate TextFits(parts: Parts, precision: nat, scale: nat)
    requires scale <= precision
  {
    WellFormed(Text(parts)) && WithinLimits(Denotes(Text(parts))) && Fits(Denotes(Text(parts)), precision, scale)
  }

  lemma DecimalWellFormed(t: string, parts: Parts)
    requires IsDecimal(t, parts)
    ensures WellFormed(Text(parts))
  {
  }

  // --- one number, one form -------------------------------------------------------------------------

  /** Equal numbers come out identical. */
  lemma OneForm(x: Number, y: Number, scale: nat, a: Value, b: Value)
    requires Same(x, y) && AtScale(x, scale, a) && AtScale(y, scale, b)
    ensures a == b
  {
    SameSymmetric(x, Denotes(a));
    SameTransitive(Denotes(a), x, y);
    SameTransitive(Denotes(a), y, Denotes(b));
    ToDecDecVal(a.coefficient);
    ToDecDecVal(b.coefficient);
    SameZero(x, y);
    SameZero(x, Denotes(a));
  }

  /** What comes out is admitted again, unchanged: it is already the form of its number. */
  lemma AdmittedIsFixed(x: Number, precision: nat, scale: nat, out: Value)
    requires scale <= precision && AtScale(x, scale, out) && Fits(x, precision, scale)
    ensures WellFormed(out) && Readable(out) && Fits(Denotes(out), precision, scale) &&
            AtScale(Denotes(out), scale, out)
  {
    FitsSame(x, Denotes(out), precision, scale);
    SameZero(x, Denotes(out));
  }
}
