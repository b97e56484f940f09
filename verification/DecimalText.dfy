/** Decimal numerals: the value of a digit string and the shortest string of a value. */
module DecimalText {

  predicate IsDigit(c: char) { '0' <= c <= '9' }

  predicate AllDigits(s: string) { forall i :: 0 <= i < |s| ==> IsDigit(s[i]) }

  function DigitValue(c: char): (d: nat)
    requires IsDigit(c)
    ensures d < 10
  {
    c as int - '0' as int
  }

  function DigitChar(d: nat): (c: char)
    requires d < 10
    ensures IsDigit(c) && DigitValue(c) == d
  {
    ('0' as int + d) as char
  }

  lemma DigitOfValue(c: char)
    requires IsDigit(c)
    ensures DigitChar(DigitValue(c)) == c
  {
  }

  function Pow10(n: nat): (p: nat)
    ensures p >= 1
  {
    if n == 0 then 1 else 10 * Pow10(n - 1)
  }

  /** The number a digit string denotes, most significant digit first; 0 for the empty string. */
  function DecVal(s: string): nat
    requires AllDigits(s)
  {
    if s == [] then 0 else 10 * DecVal(s[..|s| - 1]) + DigitValue(s[|s| - 1])
  }

  /** One more digit is ten times the number and the digit. */
  lemma {:induction false} OneMoreDigit(s: string, d: nat)
    requires AllDigits(s) && d < 10
    ensures AllDigits(s + ["0123456789"[d]]) && DecVal(s + ["0123456789"[d]]) == DecVal(s) * 10 + d
    ensures DecVal("") == 0
  {
    var c := "0123456789"[d];
    assert c as int == '0' as int + d;
    assert (s + [c])[..|s|] == s;
  }

  /** std::to_string of an unsigned number. */
  function ToDec(n: nat): (s: string)
    ensures s != [] && AllDigits(s)
  {
    if n < 10 then [DigitChar(n)] else ToDec(n / 10) + [DigitChar(n % 10)]
  }

  /** The last k digits of n, zeros included. */
  function LastDigits(n: nat, k: nat): (s: string)
    ensures |s| == k && AllDigits(s)
  {
    if k == 0 then "" else LastDigits(n / 10, k - 1) + [DigitChar(n % 10)]
  }

  function Zeros(n: nat): (s: string)
    ensures |s| == n && AllDigits(s)
    ensures forall i :: 0 <= i < n ==> s[i] == '0'
  {
    seq(n, _ => '0')
  }

  lemma {:induction false} DecValConcat(a: string, b: string)
    requires AllDigits(a) && AllDigits(b)
    ensures AllDigits(a + b)
    ensures DecVal(a + b) == DecVal(a) * Pow10(|b|) + DecVal(b)
  {
    if b == [] {
      assert a + b == a;
    } else {
      var m := |b| - 1;
      DecValConcat(a, b[..m]);
      assert (a + b)[..|a + b| - 1] == a + b[..m];
      OneDigitMore(DecVal(a), Pow10(m), DecVal(b[..m]), DigitValue(b[m]));
    }
  }

  lemma OneDigitMore(a: nat, p: nat, b: nat, d: nat)
    ensures 10 * (a * p + b) + d == a * (10 * p) + (10 * b + d)
  {
  }

  lemma {:induction false} DecValZeros(n: nat)
    ensures DecVal(Zeros(n)) == 0
  {
    if n > 0 {
      assert Zeros(n)[..n - 1] == Zeros(n - 1);
      DecValZeros(n - 1);
    }
  }

  lemma {:induction false} DecValBound(s: string)
    requires AllDigits(s)
    ensures DecVal(s) < Pow10(|s|)
  {
    if s != [] {
      DecValBound(s[..|s| - 1]);
    }
  }

  /** The numeral of n denotes n. */
  lemma {:induction false} DecValToDec(n: nat)
    ensures DecVal(ToDec(n)) == n
  {
    var s := ToDec(n);
    if n >= 10 {
      DecValToDec(n / 10);
      assert s[..|s| - 1] == ToDec(n / 10);
    } else {
      assert s[..|s| - 1] == [];
    }
  }

  /** A numeral without leading zeros: one digit, or a first digit that is not 0. */
  predicate Canonical(s: string) {
    s != [] && AllDigits(s) && (|s| == 1 || s[0] != '0')
  }

  lemma {:induction false} ToDecCanonical(n: nat)
    ensures Canonical(ToDec(n)) && (n > 0 ==> ToDec(n)[0] != '0')
  {
    if n >= 10 {
      ToDecCanonical(n / 10);
    }
  }

  /** A canonical numeral is the numeral of its value: ToDec and DecVal are inverse on canonical numerals. */
  lemma {:induction false} ToDecDecVal(s: string)
    requires Canonical(s)
    ensures ToDec(DecVal(s)) == s
  {
    var m := |s| - 1;
    DigitOfValue(s[m]);
    if m == 0 {
      assert s[..m] == [];
      assert s == [s[0]];
    } else {
      ToDecDecVal(s[..m]);
      LeadingDigitCounts(s[..m]);
      ToDecMore(DecVal(s[..m]), DigitValue(s[m]));
      assert s == s[..m] + [s[m]];
    }
  }

  lemma {:induction false} ToDecMore(q: nat, d: nat)
    requires q > 0 && d < 10
    ensures ToDec(10 * q + d) == ToDec(q) + [DigitChar(d)]
  {
    assert (10 * q + d) / 10 == q && (10 * q + d) % 10 == d;
  }

  lemma {:induction false} LeadingDigitCounts(s: string)
    requires s != [] && AllDigits(s) && s[0] != '0'
    ensures DecVal(s) >= Pow10(|s| - 1)
  {
    if |s| == 1 {
      assert s[..0] == [];
    } else {
      LeadingDigitCounts(s[..|s| - 1]);
    }
  }

  /** The digits without leading zeros, at least one kept. */
  function Stripped(s: string): (r: string)
    requires s != [] && AllDigits(s)
    ensures Canonical(r) && |r| <= |s|
    decreases |s|
  {
    if |s| > 1 && s[0] == '0' then Stripped(s[1..]) else s
  }

  lemma {:induction false} StrippedValue(s: string)
    requires s != [] && AllDigits(s)
    ensures DecVal(Stripped(s)) == DecVal(s)
    decreases |s|
  {
    if |s| > 1 && s[0] == '0' {
      StrippedValue(s[1..]);
      DecValConcat(s[..1], s[1..]);
      assert s == s[..1] + s[1..];
      assert s[..1][..0] == [];
    }
  }

  /** Reading any digit string and writing it again drops its leading zeros and nothing else. */
  lemma ToDecOfDigits(s: string)
    requires s != [] && AllDigits(s)
    ensures ToDec(DecVal(s)) == Stripped(s)
  {
    StrippedValue(s);
    ToDecDecVal(Stripped(s));
  }

  lemma {:induction false} ToDecSplit(q: nat, c: nat, k: nat)
    requires q > 0 && c < Pow10(k)
    ensures ToDec(q * Pow10(k) + c) == ToDec(q) + LastDigits(c, k)
  {
    if k == 0 {
      assert ToDec(q) + "" == ToDec(q);
    } else {
      ToDecSplit(q, c / 10, k - 1);
      SplitDigit(q, Pow10(k - 1), c);
      assert ToDec(q) + LastDigits(c, k) == ToDec(q) + LastDigits(c / 10, k - 1) + [DigitChar(c % 10)];
    }
  }

  lemma SplitDigit(q: nat, p: nat, c: nat)
    requires q > 0 && p > 0
    ensures var n := q * (10 * p) + c;
            n >= 10 && n / 10 == q * p + c / 10 && n % 10 == c % 10
  {
    assert q * (10 * p) == 10 * (q * p);
    assert q * p >= 1;
  }

  /** The last k digits of a number below 10^k are its numeral after enough zeros. */
  lemma {:induction false} LastDigitsPad(c: nat, k: nat)
    requires k > 0 && c < Pow10(k)
    ensures |ToDec(c)| <= k && LastDigits(c, k) == Zeros(k - |ToDec(c)|) + ToDec(c)
  {
    if c < 10 {
      LastDigitsOfSmall(k - 1);
      assert LastDigits(c, k) == Zeros(k - 1) + [DigitChar(c)];
    } else {
      assert k > 1;
      LastDigitsPad(c / 10, k - 1);
    }
  }

  lemma {:induction false} LastDigitsOfSmall(k: nat)
    ensures LastDigits(0, k) == Zeros(k)
  {
    if k > 0 {
      LastDigitsOfSmall(k - 1);
    }
  }

  // --- digits at the head of a text -----------------------------------------------------------------

  /** How many digits a text begins with. */
  function Digits(t: string): (n: nat)
    ensures n <= |t| && forall i :: 0 <= i < n ==> IsDigit(t[i])
    ensures n < |t| ==> !IsDigit(t[n])
  {
    if t != [] && IsDigit(t[0]) then 1 + Digits(t[1..]) else 0
  }

  lemma {:induction false} DigitsOf(digits: string, rest: string)
    requires AllDigits(digits) && (rest == [] || !IsDigit(rest[0]))
    ensures Digits(digits + rest) == |digits|
  {
    if digits == [] {
      assert digits + rest == rest;
    } else {
      assert (digits + rest)[1..] == digits[1..] + rest;
      DigitsOf(digits[1..], rest);
    }
  }

  lemma AllDigitsIff(s: string)
    ensures Digits(s) == |s| <==> AllDigits(s)
  {
    if AllDigits(s) {
      DigitsOf(s, []);
      assert s + [] == s;
    }
  }

  /** The loop that skips them. */
  method SkipDigits(text: string, start: nat) returns (i: nat)
    requires start <= |text|
    ensures i == start + Digits(text[start..])
  {
    i := start;
    while i < |text| && '0' <= text[i] <= '9'
      invariant start <= i <= |text| && start + Digits(text[start..]) == i + Digits(text[i..])
    {
      assert text[i..][1..] == text[i + 1..];
      i := i + 1;
    }
  }
}
