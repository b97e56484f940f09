/** Decimal text taken apart (cpp/src/value.cpp:35-72), and the grammar it is taken apart by. */
module DecimalSyntax {
  import opened Collections
  import opened Outcomes
  import opened DecimalText
  import opened JsonNumbers

  /** Sign, digits on either side of the point, and the exponent, clamped. */
  datatype Parts = Parts(negative: bool, integer: string, fraction: string, exponent: int)

  const EXPONENT_CLAMP: int := 4_000_000_000_000_000_000

  function Clamped(e: int): int {
    if e > EXPONENT_CLAMP then EXPONENT_CLAMP else if e < -EXPONENT_CLAMP then -EXPONENT_CLAMP else e
  }

  // --- the grammar ----------------------------------------------------------------------------------

  /** A sign or none, digits with at most one point somewhere among them and at least one digit, and an exponent spelt
      as in JSON or none. */
  predicate Spells(t: string, sign: string, integer: string, dot: bool, fraction: string, exp: string) {
    t == sign + (integer + (Fraction(dot, fraction) + exp)) && (sign == "" || sign == "+" || sign == "-") &&
    AllDigits(integer) && AllDigits(fraction) && (dot || fraction == []) && integer + fraction != [] && IsExp(exp)
  }

  function Fraction(dot: bool, fraction: string): string { if dot then "." + fraction else [] }

  /** The number an exponent spells, 0 for none. */
  function ExponentOf(exp: string): int
    requires IsExp(exp)
  {
    if exp == [] then 0
    else if exp[1] == '-' then 0 - DecVal(exp[2..])
    else if exp[1] == '+' then DecVal(exp[2..])
    else DecVal(exp[1..])
  }

  ghost predicate IsDecimal(t: string, parts: Parts) {
    exists sign, dot, exp :: SpelledAs(t, parts, sign, dot, exp)
  }

  predicate SpelledAs(t: string, parts: Parts, sign: string, dot: bool, exp: string) {
    Spells(t, sign, parts.integer, dot, parts.fraction, exp) && parts.negative == (sign == "-") &&
    parts.exponent == Clamped(ExponentOf(exp))
  }

  // --- by what is left to read ----------------------------------------------------------------------

  predicate Starts(t: string, c: char) { t != [] && t[0] == c }

  function SignLength(t: string): nat { if Starts(t, '+') || Starts(t, '-') then 1 else 0 }

  /** The digits after the point, none without one. */
  function FractionText(v: string): string { if Starts(v, '.') then v[1..1 + Digits(v[1..])] else [] }

  /** What follows them. */
  function AfterFraction(v: string): string { if Starts(v, '.') then v[1 + Digits(v[1..])..] else v }

  /** The parts, once the sign and the integer digits are read. */
  function PartsFrom(negative: bool, integer: string, fraction: string, exp: string): Outcome<Parts> {
    if (integer == [] && fraction == []) || !IsExp(exp) then Refused
    else Accepted(Parts(negative, integer, fraction, Clamped(ExponentOf(exp))))
  }

  function Split(t: string): Outcome<Parts> {
    var u := t[SignLength(t)..];
    var v := u[Digits(u)..];
    PartsFrom(Starts(t, '-'), u[..Digits(u)], FractionText(v), AfterFraction(v))
  }

  lemma FractionBack(v: string)
    ensures v == Fraction(Starts(v, '.'), FractionText(v)) + AfterFraction(v) && AllDigits(FractionText(v))
  {
    if Starts(v, '.') {
      var n := Digits(v[1..]);
      assert v[1..1 + n] == v[1..][..n];
      DotBack(v, n);
    }
  }

  lemma DotBack(v: string, n: nat)
    requires Starts(v, '.') && n < |v|
    ensures v == "." + v[1..1 + n] + v[1 + n..]
  {
  }

  lemma DigitsBack(u: string)
    ensures u == u[..Digits(u)] + u[Digits(u)..] && AllDigits(u[..Digits(u)])
  {
  }

  lemma SignBack(t: string)
    ensures var sign := t[..SignLength(t)];
            t == sign + t[SignLength(t)..] && (sign == "" || sign == "+" || sign == "-") &&
            (Starts(t, '-') <==> sign == "-")
  {
  }

  lemma {:induction false} SplitIsDecimal(t: string, parts: Parts)
    requires Split(t) == Accepted(parts)
    ensures IsDecimal(t, parts)
  {
    var u := t[SignLength(t)..];
    var v := u[Digits(u)..];
    assert PartsFrom(Starts(t, '-'), u[..Digits(u)], FractionText(v), AfterFraction(v)) == Accepted(parts);
    SignBack(t);
    FractionBack(v);
    DigitsBack(u);
    Back(t, parts, t[..SignLength(t)], u, u[..Digits(u)], v, Starts(v, '.'), FractionText(v), AfterFraction(v));
  }

  lemma Back(t: string, parts: Parts, sign: string, u: string, integer: string, v: string, dot: bool, fraction: string,
             exp: string)
    requires t == sign + u && u == integer + v && v == Fraction(dot, fraction) + exp
    requires sign == "" || sign == "+" || sign == "-"
    requires AllDigits(integer) && AllDigits(fraction) && (dot || fraction == [])
    requires PartsFrom(sign == "-", integer, fraction, exp) == Accepted(parts)
    ensures IsDecimal(t, parts)
  {
    assert SpelledAs(t, parts, sign, dot, exp);
  }

  lemma ExpHead(exp: string)
    requires IsExp(exp)
    ensures exp == [] || (!IsDigit(exp[0]) && exp[0] != '.' && exp[0] != '+' && exp[0] != '-')
  {
  }

  lemma FractionForward(dot: bool, fraction: string, exp: string)
    requires AllDigits(fraction) && (dot || fraction == []) && IsExp(exp)
    ensures var v := Fraction(dot, fraction) + exp;
            FractionText(v) == fraction && AfterFraction(v) == exp &&
            (v == [] || (!IsDigit(v[0]) && v[0] != '+' && v[0] != '-'))
  {
    ExpHead(exp);
    var v := Fraction(dot, fraction) + exp;
    if dot {
      assert v[1..] == fraction + exp;
      DigitsOf(fraction, exp);
      CutConcat(fraction, exp);
      assert v[1..1 + |fraction|] == v[1..][..|fraction|];
      assert v[1 + |fraction|..] == v[1..][|fraction|..];
    } else {
      assert v == exp;
    }
  }

  lemma SignForward(sign: string, u: string)
    requires (sign == "" || sign == "+" || sign == "-") && !Starts(u, '+') && !Starts(u, '-')
    ensures SignLength(sign + u) == |sign| && (Starts(sign + u, '-') <==> sign == "-")
  {
    assert sign == [] ==> sign + u == u;
  }

  lemma DigitsForward(integer: string, v: string)
    requires AllDigits(integer) && (v == [] || (!IsDigit(v[0]) && v[0] != '+' && v[0] != '-'))
    ensures var u := integer + v;
            !Starts(u, '+') && !Starts(u, '-') &&
            Digits(u) == |integer| && u[..|integer|] == integer && u[|integer|..] == v
  {
    var u := integer + v;
    assert integer != [] ==> u[0] == integer[0];
    assert integer == [] ==> u == v;
    DigitsOf(integer, v);
    CutConcat(integer, v);
  }

  lemma DecimalIsSplit(t: string, parts: Parts)
    requires IsDecimal(t, parts)
    ensures Split(t) == Accepted(parts)
  {
    var sign, dot, exp :| SpelledAs(t, parts, sign, dot, exp);
    var v := Fraction(dot, parts.fraction) + exp;
    var u := parts.integer + v;
    FractionForward(dot, parts.fraction, exp);
    DigitsForward(parts.integer, v);
    SignForward(sign, u);
    CutConcat(sign, u);
    assert t[SignLength(t)..] == u;
  }

  /** Taking text apart by what is left to read gives exactly what the grammar says. */
  lemma SplitIff(t: string, parts: Parts)
    ensures Split(t) == Accepted(parts) <==> IsDecimal(t, parts)
  {
    if IsDecimal(t, parts) {
      DecimalIsSplit(t, parts);
    }
    if Split(t) == Accepted(parts) {
      SplitIsDecimal(t, parts);
    }
  }

  // --- decimal_parts --------------------------------------------------------------------------------

  /** The digits of a written exponent (cpp/src/value.cpp:61-66): their value up to the clamp, never past 64 bits. */
  method ReadExponent(digits: string) returns (exponent: nat)
    requires AllDigits(digits)
    ensures exponent == Clamped(DecVal(digits))
  {
    exponent := 0;
    assert digits[..0] == [];
    for i := 0 to |digits|
      invariant AllDigits(digits[..i]) && exponent == Clamped(DecVal(digits[..i]))
      invariant exponent < 0x8000_0000_0000_0000
    {
      assert digits[..i + 1][..i] == digits[..i];
      exponent := if exponent > (EXPONENT_CLAMP - 9) / 10 then EXPONENT_CLAMP
                  else exponent * 10 + DigitValue(digits[i]);
    }
    assert digits[..|digits|] == digits;
  }

  /** The exponent that ends a text, refused when something else is there. */
  method ReadExp(exp: string) returns (r: Outcome<int>)
    ensures r.Accepted? <==> IsExp(exp)
    ensures r.Accepted? ==> r.value == Clamped(ExponentOf(exp))
  {
    if exp == [] {
      return Accepted(0);
    }
    if exp[0] != 'e' && exp[0] != 'E' {
      return Refused;
    }
    var i, negative := 1, false;
    if i < |exp| && (exp[i] == '+' || exp[i] == '-') {
      negative := exp[i] == '-';
      i := i + 1;
    }
    var start := i;
    i := SkipDigits(exp, i);
    AllDigitsIff(exp[start..]);
    if i == start || i != |exp| {
      return Refused;
    }
    var exponent := ReadExponent(exp[start..]);
    var e: int := exponent;
    return Accepted(if negative then -e else e);
  }

  /** The digits after a point, if one is there, and the position past them. */
  method ReadFraction(text: string, i: nat) returns (fraction: string, next: nat)
    requires i <= |text|
    ensures i <= next <= |text|
    ensures fraction == FractionText(text[i..]) && text[next..] == AfterFraction(text[i..])
  {
    if i == |text| || text[i] != '.' {
      return [], i;
    }
    ghost var v := text[i..];
    assert v[1..] == text[i + 1..];
    next := SkipDigits(text, i + 1);
    fraction := text[i + 1..next];
    assert fraction == v[1..1 + Digits(v[1..])];
  }

  /** decimal_parts: refused exactly when the text is no decimal. */
  method DecimalParts(text: string) returns (r: Outcome<Parts>)
    ensures r == Split(text)
    ensures r.Refused? ==> forall parts :: !IsDecimal(text, parts)
    ensures r.Accepted? ==> IsDecimal(text, r.value)
  {
    var i, negative := 0, false;
    if i < |text| && (text[i] == '+' || text[i] == '-') {
      negative := text[i] == '-';
      i := i + 1;
    }
    ghost var u := text[i..];
    var start := i;
    i := SkipDigits(text, i);
    var integer := text[start..i];
    ghost var v := text[i..];
    assert integer == u[..Digits(u)] && v == u[Digits(u)..];
    var fraction;
    fraction, i := ReadFraction(text, i);
    assert Split(text) == PartsFrom(negative, integer, fraction, text[i..]);
    SplitDecides(text);
    if integer == [] && fraction == [] {
      return Refused;
    }
    var exponent := ReadExp(text[i..]);
    if exponent.Refused? {
      return Refused;
    }
    return Accepted(Parts(negative, integer, fraction, exponent.value));
  }

  lemma SplitDecides(t: string)
    ensures Split(t).Refused? ==> forall parts :: !IsDecimal(t, parts)
    ensures Split(t).Accepted? ==> IsDecimal(t, Split(t).value)
  {
    forall parts
      ensures Split(t) == Accepted(parts) <==> IsDecimal(t, parts)
    {
      SplitIff(t, parts);
    }
  }
}
