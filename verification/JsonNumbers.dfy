/** The numbers of section 6 of RFC 8259, and that the scan takes exactly those (cpp/src/json.cpp:26-52). */
module JsonNumbers {
  import opened Collections
  import opened DecimalText
  import opened Json

  predicate IsMinus(s: string) { s == "" || s == "-" }

  predicate IsInt(s: string) { s != [] && AllDigits(s) && (s[0] == '0' ==> s == "0") }

  predicate IsFrac(s: string) { s == [] || (|s| >= 2 && s[0] == '.' && AllDigits(s[1..])) }

  predicate IsExp(s: string) {
    s == [] ||
    (|s| >= 2 && (s[0] == 'e' || s[0] == 'E') &&
     if s[1] == '+' || s[1] == '-' then |s| >= 3 && AllDigits(s[2..]) else AllDigits(s[1..]))
  }

  /** number = [ minus ] int [ frac ] [ exp ] */
  ghost predicate IsNumber(t: string) {
    exists minus, whole, frac, exp :: Spelled(t, minus, whole, frac, exp)
  }

  predicate Spelled(t: string, minus: string, whole: string, frac: string, exp: string) {
    t == minus + (whole + (frac + exp)) && IsMinus(minus) && IsInt(whole) && IsFrac(frac) && IsExp(exp)
  }

  lemma ExpIff(t: string)
    ensures IsExponent(t) <==> IsExp(t)
  {
    if t != [] && (t[0] == 'e' || t[0] == 'E') {
      var u := t[1..];
      if u != [] && (u[0] == '+' || u[0] == '-') {
        assert t[2..] == u[1..];
        AllDigitsIff(u[1..]);
      } else {
        AllDigitsIff(u);
      }
    }
  }

  lemma TailOf(frac: string, exp: string)
    requires IsFrac(frac) && IsExp(exp)
    ensures IsTail(frac + exp)
  {
    ExpIff(exp);
    if frac == [] {
      assert frac + exp == exp;
    } else {
      var t, digits := frac + exp, frac[1..];
      assert t[1..] == digits + exp;
      DigitsOf(digits, exp);
      CutConcat(digits, exp);
    }
  }

  lemma TailSplit(t: string) returns (frac: string, exp: string)
    requires IsTail(t)
    ensures t == frac + exp && IsFrac(frac) && IsExp(exp)
  {
    if t != [] && t[0] == '.' {
      var u := t[1..];
      var n := Digits(u);
      frac, exp := "." + u[..n], u[n..];
      assert frac[1..] == u[..n];
    } else {
      frac, exp := [], t;
    }
    ExpIff(exp);
  }

  lemma UnsignedOf(whole: string, tail: string)
    requires IsInt(whole) && IsTail(tail) && (tail == [] || !IsDigit(tail[0]))
    ensures IsUnsigned(whole + tail)
  {
    DigitsOf(whole, tail);
    CutConcat(whole, tail);
  }

  lemma UnsignedSplit(t: string) returns (whole: string, tail: string)
    requires IsUnsigned(t)
    ensures t == whole + tail && IsInt(whole) && IsTail(tail)
  {
    var n := if t[0] == '0' then 1 else Digits(t);
    whole, tail := t[..n], t[n..];
  }

  /** The scan takes exactly the numbers of the grammar. */
  lemma ScanIsGrammar(t: string)
    ensures IsJsonNumber(t) <==> IsNumber(t)
  {
    if IsJsonNumber(t) {
      ScannedIsSpelled(t);
    }
    if IsNumber(t) {
      var minus, whole, frac, exp :| Spelled(t, minus, whole, frac, exp);
      SpelledIsScanned(t, minus, whole, frac, exp);
    }
  }

  /** A number is an integer exactly when it has neither a fraction nor an exponent. */
  lemma IntegerHasNoFraction(t: string, minus: string, whole: string, frac: string, exp: string)
    requires Spelled(t, minus, whole, frac, exp)
    ensures IntegerLexeme(t) <==> frac == "" && exp == ""
  {
    var n := |minus| + |whole|;
    assert t == (minus + whole) + (frac + exp);
    if frac != "" {
      assert t[n] == '.';
    } else if exp != "" {
      assert t[n] == exp[0];
    }
  }

  lemma ScannedIsSpelled(t: string)
    requires IsJsonNumber(t)
    ensures IsNumber(t)
  {
    var minus := if t != [] && t[0] == '-' then "-" else "";
    var u := t[|minus|..];
    var whole, tail := UnsignedSplit(u);
    var frac, exp := TailSplit(tail);
    assert Spelled(t, minus, whole, frac, exp);
  }

  lemma SpelledIsScanned(t: string, minus: string, whole: string, frac: string, exp: string)
    requires Spelled(t, minus, whole, frac, exp)
    ensures IsJsonNumber(t)
  {
    TailOf(frac, exp);
    UnsignedOf(whole, frac + exp);
    CutConcat(minus, whole + (frac + exp));
  }
}
