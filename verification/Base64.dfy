/** Base64 both ways (cpp/src/encoding.cpp:31-138; sections 3.5 and 4 of RFC 4648): the strict decoder, the decoder that
    takes what Python's does, and the encoder. What a text stands for is a relation between numbers: a quantum's letters
    are the base-64 digits of the number whose base-256 digits are its bytes. Shifts and masks of the source are
    divisions and remainders by powers of two, and an "or" of bits that do not overlap is a sum. */
module Base64 {
  import opened Outcomes

  type Byte = x: int | 0 <= x < 256
  type Six = x: int | 0 <= x < 64

  // --- the alphabet ---------------------------------------------------------------------------------

  /** sextet: the value of a character, or -1. */
  function Sextet(c: char): (v: int)
    ensures -1 <= v < 64
  {
    if 'A' <= c <= 'Z' then c as int - 'A' as int
    else if 'a' <= c <= 'z' then c as int - 'a' as int + 26
    else if '0' <= c <= '9' then c as int - '0' as int + 52
    else if c == '+' then 62
    else if c == '/' then 63
    else -1
  }

  /** kAlphabet, by its ranges. */
  function Letter(v: Six): (c: char)
    ensures Sextet(c) == v
  {
    if v < 26 then ('A' as int + v) as char
    else if v < 52 then ('a' as int + (v - 26)) as char
    else if v < 62 then ('0' as int + (v - 52)) as char
    else if v == 62 then '+'
    else '/'
  }

  lemma SextetInjective(c: char, d: char)
    requires Sextet(c) == Sextet(d) >= 0
    ensures c == d
  {
  }

  lemma UpperLetter(v: Six)
    ensures v < 26 ==> "ABCDEFGHIJKLMNOPQRSTUVWXYZ"[v] as int == 'A' as int + v
  {
  }

  lemma LowerLetter(v: Six)
    ensures 26 <= v < 52 ==> "abcdefghijklmnopqrstuvwxyz"[v - 26] as int == 'a' as int + (v - 26)
  {
  }

  lemma DigitLetter(v: Six)
    ensures 52 <= v < 62 ==> "0123456789+/"[v - 52] as int == '0' as int + (v - 52)
  {
  }

  /** The 64 letters, in the order of their values. */
  lemma Alphabet(v: Six, c: char)
    ensures Sextet(c) == v <==>
            c == if v < 26 then "ABCDEFGHIJKLMNOPQRSTUVWXYZ"[v]
                 else if v < 52 then "abcdefghijklmnopqrstuvwxyz"[v - 26]
                 else "0123456789+/"[v - 52]
  {
    UpperLetter(v);
    LowerLetter(v);
    DigitLetter(v);
  }

  predicate IsLetter(c: char) { Sextet(c) >= 0 }

  // --- quanta ---------------------------------------------------------------------------------------

  /** Four sextets are three bytes. */
  predicate Quantum4(v: Six, w: Six, x: Six, y: Six, a: Byte, b: Byte, c: Byte) {
    v * 262144 + w * 4096 + x * 64 + y == a * 65536 + b * 256 + c
  }

  /** Three sextets are two bytes and two bits over. */
  predicate Quantum3(v: Six, w: Six, x: Six, a: Byte, b: Byte, over: int) {
    v * 4096 + w * 64 + x == a * 1024 + b * 4 + over && 0 <= over < 4
  }

  /** Two sextets are one byte and four bits over. */
  predicate Quantum2(v: Six, w: Six, a: Byte, over: int) {
    v * 64 + w == a * 16 + over && 0 <= over < 16
  }

  lemma BytesUnique(a: Byte, b: Byte, c: Byte, d: Byte, e: Byte, f: Byte)
    requires a * 65536 + b * 256 + c == d * 65536 + e * 256 + f
    ensures a == d && b == e && c == f
  {
  }

  lemma SixesUnique(v: Six, w: Six, x: Six, y: Six, v': Six, w': Six, x': Six, y': Six)
    requires v * 262144 + w * 4096 + x * 64 + y == v' * 262144 + w' * 4096 + x' * 64 + y'
    ensures v == v' && w == w' && x == x' && y == y'
  {
  }

  lemma Quantum3Unique(v: Six, w: Six, x: Six, a: Byte, b: Byte, o: int, d: Byte, e: Byte, p: int)
    requires Quantum3(v, w, x, a, b, o) && Quantum3(v, w, x, d, e, p)
    ensures a == d && b == e && o == p
  {
  }

  lemma Quantum2Unique(v: Six, w: Six, a: Byte, o: int, d: Byte, p: int)
    requires Quantum2(v, w, a, o) && Quantum2(v, w, d, p)
    ensures a == d && o == p
  {
  }

  // --- what a text stands for -----------------------------------------------------------------------

  /** The first quantum of a text: its letters, and how many there are before the padding. */
  predicate Letters(t: string, n: nat) {
    n <= |t| && forall k :: 0 <= k < n ==> IsLetter(t[k])
  }

  predicate Full(t: string, bytes: seq<Byte>) {
    |t| >= 4 && Letters(t, 4) && |bytes| >= 3 &&
    Quantum4(Sextet(t[0]), Sextet(t[1]), Sextet(t[2]), Sextet(t[3]), bytes[0], bytes[1], bytes[2])
  }

  predicate PaddedOnce(t: string, bytes: seq<Byte>, over: int) {
    |t| == 4 && Letters(t, 3) && t[3] == '=' && |bytes| == 2 &&
    Quantum3(Sextet(t[0]), Sextet(t[1]), Sextet(t[2]), bytes[0], bytes[1], over)
  }

  predicate PaddedTwice(t: string, bytes: seq<Byte>, over: int) {
    |t| == 4 && Letters(t, 2) && t[2] == '=' && t[3] == '=' && |bytes| == 1 &&
    Quantum2(Sextet(t[0]), Sextet(t[1]), bytes[0], over)
  }

  /** The text is the base64 of the bytes: whole quanta, then at most one padded quantum whose spare bits are 0. */
  predicate Encodes(bytes: seq<Byte>, t: string) {
    if t == [] then bytes == []
    else
      (Full(t, bytes) && Encodes(bytes[3..], t[4..])) || PaddedOnce(t, bytes, 0) || PaddedTwice(t, bytes, 0)
  }

  predicate AllPads(t: string) { forall k :: 0 <= k < |t| ==> t[k] == '=' }

  /** What Python's decoder makes of a text: the spare bits may be set, and any padding may follow whole quanta. */
  ghost predicate Reads(bytes: seq<Byte>, t: string, started: bool) {
    if t == [] || (started && AllPads(t)) then bytes == []
    else
      (Full(t, bytes) && Reads(bytes[3..], t[4..], true)) ||
      (exists over :: PaddedOnce(t, bytes, over)) || (exists over :: PaddedTwice(t, bytes, over))
  }

  lemma FullUnique(t: string, a: seq<Byte>, b: seq<Byte>)
    requires Full(t, a) && Full(t, b)
    ensures a[0] == b[0] && a[1] == b[1] && a[2] == b[2]
  {
    BytesUnique(a[0], a[1], a[2], b[0], b[1], b[2]);
  }

  lemma SameBytes(a: seq<Byte>, b: seq<Byte>)
    requires |a| >= 3 && |b| >= 3 && a[0] == b[0] && a[1] == b[1] && a[2] == b[2] && a[3..] == b[3..]
    ensures a == b
  {
    assert a == [a[0], a[1], a[2]] + a[3..] && b == [b[0], b[1], b[2]] + b[3..];
  }

  /** A text that begins with four letters is the base64 of their bytes and then of the rest. */
  lemma FullEncodes(bytes: seq<Byte>, t: string)
    requires Letters(t, 4)
    ensures Encodes(bytes, t) <==> Full(t, bytes) && Encodes(bytes[3..], t[4..])
  {
    assert IsLetter(t[3]);
  }

  /** A text is the base64 of one sequence of bytes at most. */
  lemma {:induction false} OneValue(a: seq<Byte>, b: seq<Byte>, t: string)
    requires Encodes(a, t) && Encodes(b, t)
    ensures a == b
  {
    if t != [] {
      if Letters(t, 4) {
        FullEncodes(a, t);
        FullEncodes(b, t);
        FullUnique(t, a, b);
        OneValue(a[3..], b[3..], t[4..]);
        SameBytes(a, b);
      } else if PaddedOnce(t, a, 0) && PaddedOnce(t, b, 0) {
        Quantum3Unique(Sextet(t[0]), Sextet(t[1]), Sextet(t[2]), a[0], a[1], 0, b[0], b[1], 0);
      } else if PaddedTwice(t, a, 0) && PaddedTwice(t, b, 0) {
        Quantum2Unique(Sextet(t[0]), Sextet(t[1]), a[0], 0, b[0], 0);
      }
    }
  }

  lemma SamePrefix(s: string, t: string, n: nat)
    requires n <= |s| && n <= |t| && forall k :: 0 <= k < n ==> s[k] == t[k]
    requires s[n..] == t[n..]
    ensures s == t
  {
    assert s == s[..n] + s[n..] && t == t[..n] + t[n..];
    assert s[..n] == t[..n];
  }

  lemma FullText(s: string, t: string, bytes: seq<Byte>)
    requires Full(s, bytes) && Full(t, bytes)
    ensures s[0] == t[0] && s[1] == t[1] && s[2] == t[2] && s[3] == t[3]
  {
    SixesUnique(Sextet(s[0]), Sextet(s[1]), Sextet(s[2]), Sextet(s[3]),
                Sextet(t[0]), Sextet(t[1]), Sextet(t[2]), Sextet(t[3]));
    SextetInjective(s[0], t[0]);
    SextetInjective(s[1], t[1]);
    SextetInjective(s[2], t[2]);
    SextetInjective(s[3], t[3]);
  }

  lemma PaddedText(s: string, t: string, bytes: seq<Byte>)
    requires || (PaddedOnce(s, bytes, 0) && PaddedOnce(t, bytes, 0))
             || (PaddedTwice(s, bytes, 0) && PaddedTwice(t, bytes, 0))
    ensures s == t
  {
    if PaddedOnce(s, bytes, 0) && PaddedOnce(t, bytes, 0) {
      SixesUnique(0, Sextet(s[0]), Sextet(s[1]), Sextet(s[2]), 0, Sextet(t[0]), Sextet(t[1]), Sextet(t[2]));
      SextetInjective(s[2], t[2]);
    } else {
      SixesUnique(0, 0, Sextet(s[0]), Sextet(s[1]), 0, 0, Sextet(t[0]), Sextet(t[1]));
    }
    SextetInjective(s[0], t[0]);
    SextetInjective(s[1], t[1]);
    SamePrefix(s, t, 4);
  }

  lemma {:induction false} EncodedLength(bytes: seq<Byte>, t: string) returns (quanta: nat)
    requires Encodes(bytes, t)
    ensures |t| == 4 * quanta
  {
    if t == [] {
      quanta := 0;
    } else if Full(t, bytes) && Encodes(bytes[3..], t[4..]) {
      quanta := EncodedLength(bytes[3..], t[4..]);
      quanta := quanta + 1;
    } else {
      quanta := 1;
    }
  }

  /** Bytes have one text at most. */
  lemma {:induction false} OneText(bytes: seq<Byte>, s: string, t: string)
    requires Encodes(bytes, s) && Encodes(bytes, t)
    ensures s == t
  {
    if s != [] && t != [] {
      if |bytes| >= 3 {
        FullText(s, t, bytes);
        OneText(bytes[3..], s[4..], t[4..]);
        SamePrefix(s, t, 4);
      } else {
        PaddedText(s, t, bytes);
      }
    }
  }

  /** Whatever the strict decoder takes, Python's takes too, with the same bytes. */
  lemma {:induction false} EncodedIsRead(bytes: seq<Byte>, t: string, started: bool)
    requires Encodes(bytes, t)
    ensures Reads(bytes, t, started)
  {
    if t != [] {
      assert IsLetter(t[0]) && !AllPads(t);
      if Full(t, bytes) && Encodes(bytes[3..], t[4..]) {
        EncodedIsRead(bytes[3..], t[4..], true);
      }
    }
  }

  lemma FullReads(bytes: seq<Byte>, t: string, started: bool)
    requires Letters(t, 4)
    ensures Reads(bytes, t, started) <==> Full(t, bytes) && Reads(bytes[3..], t[4..], true)
  {
    assert IsLetter(t[3]);
  }

  /** Python's decoder makes one thing of a text at most. */
  lemma {:induction false} OneReading(a: seq<Byte>, b: seq<Byte>, t: string, started: bool)
    requires Reads(a, t, started) && Reads(b, t, started)
    ensures a == b
  {
    if t == [] || (started && AllPads(t)) {
    } else if Letters(t, 4) {
      FullReads(a, t, started);
      FullReads(b, t, started);
      FullUnique(t, a, b);
      OneReading(a[3..], b[3..], t[4..], true);
      SameBytes(a, b);
    } else if o, p :| PaddedOnce(t, a, o) && PaddedOnce(t, b, p) {
      Quantum3Unique(Sextet(t[0]), Sextet(t[1]), Sextet(t[2]), a[0], a[1], o, b[0], b[1], p);
    } else if o, p :| PaddedTwice(t, a, o) && PaddedTwice(t, b, p) {
      Quantum2Unique(Sextet(t[0]), Sextet(t[1]), a[0], o, b[0], p);
    }
  }

  lemma ShiftTwice(n: nat)
    ensures n / 64 / 64 == n / 4096 && n / 64 / 4096 == n / 262144 && n / 4096 / 64 == n / 262144
  {
  }

  lemma Digits(n: nat)
    ensures n == n / 64 * 64 + n % 64
  {
  }

  // --- one step of each computation -----------------------------------------------------------------

  /** A 24-bit group as bytes: group >> 16, group >> 8 and group, each & 0xFF. */
  method GroupBytes(group: nat) returns (a: Byte, b: Byte, c: Byte)
    requires group < 0x100_0000
    ensures group == a * 65536 + b * 256 + c
  {
    a, b, c := group / 65536 % 256, group / 256 % 256, group % 256;
  }

  /** A 24-bit group as sextets: group >> 18, >> 12, >> 6 and group, each & 0x3F. */
  method GroupSixes(group: nat) returns (v: Six, w: Six, x: Six, y: Six)
    requires group < 0x100_0000
    ensures group == v * 262144 + w * 4096 + x * 64 + y
  {
    v, w, x, y := group / 262144 % 64, group / 4096 % 64, group / 64 % 64, group % 64;
    ShiftTwice(group);
    ShiftTwice(group / 64);
    Digits(group);
    Digits(group / 64);
    Digits(group / 4096);
  }

  // --- base64_decode --------------------------------------------------------------------------------

  /** What the decoder should answer: the bytes of which the text is the base64, if there are any. */
  ghost predicate IsDecoding(t: string, r: Outcome<seq<Byte>>) {
    match r
    case Accepted(bytes) => Encodes(bytes, t)
    case Refused => forall bytes :: !Encodes(bytes, t)
  }

  /** The bytes read so far, then the answer for the rest. */
  function After(done: seq<Byte>, r: Outcome<seq<Byte>>): Outcome<seq<Byte>> {
    match r
    case Accepted(bytes) => Accepted(done + bytes)
    case Refused => Refused
  }

  lemma AfterQuantum(t: string, a: Byte, b: Byte, c: Byte, r: Outcome<seq<Byte>>)
    requires Full(t, [a, b, c]) && IsDecoding(t[4..], r)
    ensures IsDecoding(t, After([a, b, c], r))
  {
    match r
    case Accepted(bytes) =>
      var all := [a, b, c] + bytes;
      assert all[0] == a && all[1] == b && all[2] == c && all[3..] == bytes;
    case Refused =>
      forall bytes
        ensures !Encodes(bytes, t)
      {
        FullEncodes(bytes, t);
      }
  }

  lemma AfterAfter(x: seq<Byte>, y: seq<Byte>, r: Outcome<seq<Byte>>)
    ensures After(x, After(y, r)) == After(x + y, r)
  {
    if r.Accepted? {
      assert x + (y + r.value) == (x + y) + r.value;
    }
  }

  /** A quantum as the decoder reads it: letters, then padding, which only the last quantum has, in its last two
      places. */
  predicate Shape(t: string, n: nat) {
    |t| >= 4 && 2 <= n <= 4 && Letters(t, n) && (forall k :: n <= k < 4 ==> t[k] == '=') && (n < 4 ==> |t| == 4)
  }

  /** The letters of the first quantum, or a refusal. */
  method ReadQuantum(t: string) returns (n: nat, values: seq<Six>, ok: bool)
    requires |t| >= 4
    ensures ok <==> exists m: nat :: Shape(t, m)
    ensures ok ==> Shape(t, n) && |values| == 4
    ensures ok ==> forall k :: 0 <= k < 4 ==> values[k] == if k < n then Sextet(t[k]) else 0
  {
    values, n := [], 4;
    var j := 0;
    while j < 4
      invariant 0 <= j <= 4 && |values| == j && n <= 4 && (n < 4 ==> 2 <= n < j && |t| == 4)
      invariant Letters(t, if n < j then n else j)
      invariant forall k :: n <= k < j ==> t[k] == '='
      invariant forall k :: 0 <= k < j ==> values[k] == if k < n then Sextet(t[k]) else 0
    {
      var c := t[j];
      if c == '=' {
        if !(|t| == 4) || j < 2 {
          NoShape(t, j, n);
          return n, values, false;
        }
        if n == 4 {
          n := j;
        }
        values := values + [0];
      } else {
        if n < 4 {
          NoShape(t, j, n);
          return n, values, false;
        }
        if Sextet(c) < 0 {
          NoShape(t, j, n);
          return n, values, false;
        }
        values := values + [Sextet(c)];
      }
      j := j + 1;
    }
    assert Shape(t, n);
    return n, values, true;
  }

  lemma NotShape(t: string, j: nat, n: nat, m: nat)
    requires |t| >= 4 && j < 4 && n <= 4
    requires (t[j] == '=' && (|t| != 4 || j < 2)) || (t[j] != '=' && (Sextet(t[j]) < 0 || (n < j && t[n] == '=')))
    ensures !Shape(t, m)
  {
    assert Sextet('=') < 0;
    assert n < j ==> n < 4;
  }

  lemma NoShape(t: string, j: nat, n: nat)
    requires |t| >= 4 && j < 4 && n <= 4
    requires (t[j] == '=' && (|t| != 4 || j < 2)) || (t[j] != '=' && (Sextet(t[j]) < 0 || (n < j && t[n] == '=')))
    ensures !exists m: nat :: Shape(t, m)
  {
    forall m: nat
      ensures !Shape(t, m)
    {
      NotShape(t, j, n, m);
    }
  }

  lemma EncodedHasShape(bytes: seq<Byte>, t: string)
    requires Encodes(bytes, t) && t != []
    ensures exists m: nat :: Shape(t, m)
  {
    if Full(t, bytes) {
      assert Shape(t, 4);
    } else if PaddedOnce(t, bytes, 0) {
      assert Shape(t, 3);
    } else {
      assert Shape(t, 2);
    }
  }

  /** Answering for the rest of the text is all there is left to do. */
  ghost predicate Pending(text: string, i: nat, done: seq<Byte>) {
    i <= |text| && forall r :: IsDecoding(text[i..], r) ==> IsDecoding(text, After(done, r))
  }

  lemma PendingQuantum(text: string, i: nat, done: seq<Byte>, a: Byte, b: Byte, c: Byte)
    requires Pending(text, i, done) && Full(text[i..], [a, b, c])
    ensures Pending(text, i + 4, done + [a, b, c])
  {
    assert text[i..][4..] == text[i + 4..];
    forall r | IsDecoding(text[i + 4..], r)
      ensures IsDecoding(text, After(done + [a, b, c], r))
    {
      AfterQuantum(text[i..], a, b, c, r);
      AfterAfter(done, [a, b, c], r);
    }
  }

  lemma PendingLast(text: string, i: nat, done: seq<Byte>, last: seq<Byte>)
    requires Pending(text, i, done) && |text| == i + 4 && Encodes(last, text[i..])
    ensures Pending(text, i + 4, done + last)
  {
    assert text[i + 4..] == [];
    assert IsDecoding(text[i..], Accepted(last));
    forall r | IsDecoding(text[i + 4..], r)
      ensures IsDecoding(text, After(done + last, r))
    {
      assert Encodes([], text[i + 4..]);
      assert (done + last) + [] == done + last;
    }
  }

  lemma PendingRefused(text: string, i: nat, done: seq<Byte>)
    requires Pending(text, i, done) && forall bytes :: !Encodes(bytes, text[i..])
    ensures IsDecoding(text, Refused)
  {
    assert IsDecoding(text[i..], Refused);
  }

  /** What the low bits of a padded quantum decide. */
  lemma LowBits(v: Six, w: Six, x: Six, a: Byte, b: Byte, c: Byte, d: Byte, e: Byte)
    requires v * 262144 + w * 4096 + x * 64 == a * 65536 + b * 256 + c
    ensures x == 0 ==> (Quantum2(v, w, d, 0) <==> d == a && b == 0 && c == 0)
    ensures Quantum3(v, w, x, d, e, 0) <==> d == a && e == b && c == 0
  {
    if Quantum3(v, w, x, d, e, 0) {
      BytesUnique(a, b, c, d, e, 0);
    }
    if x == 0 && Quantum2(v, w, d, 0) {
      BytesUnique(a, b, c, d, 0, 0);
    }
  }

  /** A padded quantum is taken exactly when the bits the padding drops are 0. */
  lemma PaddedQuantum(t: string, n: nat, x: Six, a: Byte, b: Byte, c: Byte, bytes: seq<Byte>)
    requires Shape(t, n) && n < 4 && x == if n == 3 then Sextet(t[2]) else 0
    requires Sextet(t[0]) * 262144 + Sextet(t[1]) * 4096 + x * 64 == a * 65536 + b * 256 + c
    ensures Encodes(bytes, t) <==> c == 0 && if n == 2 then b == 0 && bytes == [a] else bytes == [a, b]
  {
    LowBits(Sextet(t[0]), Sextet(t[1]), x, a, b, c, if |bytes| > 0 then bytes[0] else 0,
            if |bytes| > 1 then bytes[1] else 0);
    assert t[3] == '=' && !IsLetter(t[3]);
  }

  lemma OddLength(text: string)
    requires |text| % 4 != 0
    ensures IsDecoding(text, Refused)
  {
    forall bytes
      ensures !Encodes(bytes, text)
    {
      if Encodes(bytes, text) {
        var quanta := EncodedLength(bytes, text);
      }
    }
  }

  lemma PendingAll(text: string)
    ensures Pending(text, 0, [])
  {
    assert text[0..] == text;
    forall r | IsDecoding(text[0..], r)
      ensures IsDecoding(text, After([], r))
    {
      if r.Accepted? {
        assert [] + r.value == r.value;
      }
    }
  }

  lemma PendingNothing(text: string, out: seq<Byte>)
    requires Pending(text, |text|, out)
    ensures IsDecoding(text, Accepted(out))
  {
    assert text[|text|..] == [];
    assert Encodes([], text[|text|..]);
    assert IsDecoding(text[|text|..], Accepted([]));
    assert out + [] == out;
  }

  /** base64_decode: the bytes of which the text is the base64, refused when there are none. */
  method Decode(text: string) returns (r: Outcome<seq<Byte>>)
    ensures IsDecoding(text, r)
  {
    if |text| % 4 != 0 {
      OddLength(text);
      return Refused;
    }
    var out: seq<Byte> := [];
    var i := 0;
    PendingAll(text);
    while i < |text|
      invariant i % 4 == 0 && Pending(text, i, out)
      decreases |text| - i
    {
      var last: seq<Byte>;
      var ok: bool;
      last, ok := DecodeQuantum(text[i..], text, i, out);
      if !ok {
        return Refused;
      }
      out := out + last;
      i := i + 4;
    }
    PendingNothing(text, out);
    return Accepted(out);
  }

  /** One turn of the loop. */
  method DecodeQuantum(t: string, ghost text: string, ghost i: nat, ghost out: seq<Byte>)
    returns (bytes: seq<Byte>, ok: bool)
    requires Pending(text, i, out) && t == text[i..] && |t| >= 4
    ensures ok ==> Pending(text, i + 4, out + bytes)
    ensures !ok ==> IsDecoding(text, Refused)
  {
    var n: nat, values: seq<Six>;
    n, values, ok := ReadQuantum(t);
    if !ok {
      forall b
        ensures !Encodes(b, t)
      {
        if Encodes(b, t) {
          EncodedHasShape(b, t);
        }
      }
      PendingRefused(text, i, out);
      return [], false;
    }
    var v: int, w: int, x: int, y: int := values[0], values[1], values[2], values[3];
    var group := v * 262144 + w * 4096 + x * 64 + y;
    var a, b, c := GroupBytes(group);
    if n == 4 {
      PendingQuantum(text, i, out, a, b, c);
      return [a, b, c], true;
    }
    bytes := if n == 2 then [a] else [a, b];
    forall other
      ensures Encodes(other, t) <==> c == 0 && (if n == 2 then b == 0 && other == [a] else other == [a, b])
    {
      PaddedQuantum(t, n, values[2], a, b, c, other);
    }
    // group & 0xFFFF, group & 0xFF
    if (n == 2 && (b != 0 || c != 0)) || (n == 3 && c != 0) {
      PendingRefused(text, i, out);
      return bytes, false;
    }
    PendingLast(text, i, out, bytes);
  }

  /** Decoding an encoding gives back the bytes, and encoding what was decoded gives back the text. */
  lemma RoundTrip(bytes: seq<Byte>, text: string, r: Outcome<seq<Byte>>)
    requires IsDecoding(text, r)
    ensures Encodes(bytes, text) <==> r == Accepted(bytes)
  {
    if Encodes(bytes, text) {
      OneValue(bytes, r.value, text);
    }
  }

  // --- base64_encode --------------------------------------------------------------------------------

  /** Whatever text the rest has, the whole has what is written and then that. */
  ghost predicate Written(bytes: seq<Byte>, i: nat, out: string) {
    i <= |bytes| && forall t :: Encodes(bytes[i..], t) ==> Encodes(bytes, out + t)
  }

  lemma WrittenAll(bytes: seq<Byte>)
    ensures Written(bytes, 0, [])
  {
    assert bytes[0..] == bytes;
    forall t | Encodes(bytes[0..], t)
      ensures Encodes(bytes, [] + t)
    {
      assert [] + t == t;
    }
  }

  lemma WrittenQuantum(bytes: seq<Byte>, i: nat, out: string, quad: string)
    requires Written(bytes, i, out) && i + 3 <= |bytes| && |quad| == 4 && Full(quad, bytes[i..i + 3])
    ensures Written(bytes, i + 3, out + quad)
  {
    assert bytes[i..][3..] == bytes[i + 3..];
    forall t | Encodes(bytes[i + 3..], t)
      ensures Encodes(bytes, (out + quad) + t)
    {
      var u := quad + t;
      assert u[4..] == t && forall k :: 0 <= k < 4 ==> u[k] == quad[k];
      assert Full(u, bytes[i..]);
      assert Encodes(bytes[i..], u);
      assert (out + quad) + t == out + u;
    }
  }

  lemma WrittenLast(bytes: seq<Byte>, i: nat, out: string, quad: string)
    requires Written(bytes, i, out) && Encodes(bytes[i..], quad)
    ensures Encodes(bytes, out + quad)
  {
  }

  /** base64_encode */
  method Encode(bytes: seq<Byte>) returns (out: string)
    ensures Encodes(bytes, out)
  {
    out := [];
    var i := 0;
    WrittenAll(bytes);
    while i + 3 <= |bytes|
      invariant Written(bytes, i, out)
    {
      var quad := EncodeThree(bytes[i], bytes[i + 1], bytes[i + 2]);
      assert bytes[i..i + 3] == [bytes[i], bytes[i + 1], bytes[i + 2]];
      WrittenQuantum(bytes, i, out, quad);
      out := out + quad;
      i := i + 3;
    }
    var quad := EncodeRest(bytes[i..]);
    WrittenLast(bytes, i, out, quad);
    out := out + quad;
  }

  method EncodeThree(a: Byte, b: Byte, c: Byte) returns (quad: string)
    ensures |quad| == 4 && Full(quad, [a, b, c])
  {
    var x: int, y: int, z: int := a, b, c;
    var v, w, u, t := GroupSixes(x * 65536 + y * 256 + z);
    quad := [Letter(v), Letter(w), Letter(u), Letter(t)];
  }

  /** What is left over: nothing, or a padded quantum. */
  method EncodeRest(rest: seq<Byte>) returns (quad: string)
    requires |rest| < 3
    ensures Encodes(rest, quad)
  {
    if rest == [] {
      return [];
    }
    var group: int := rest[0];
    group := group * 65536;
    var second: int := 0;
    if |rest| == 2 {
      second := rest[1];
      group := group + second * 256;
    }
    var v, w, x, y := GroupSixes(group);
    SpareBits(v, w, x, y, rest[0], second);
    if |rest| == 2 {
      return [Letter(v), Letter(w), Letter(x), '='];
    }
    return [Letter(v), Letter(w), '=', '='];
  }

  lemma SpareBits(v: Six, w: Six, x: Six, y: Six, a: Byte, b: Byte)
    requires v * 262144 + w * 4096 + x * 64 + y == a * 65536 + b * 256
    ensures Quantum3(v, w, x, a, b, 0)
    ensures b == 0 ==> Quantum2(v, w, a, 0)
  {
  }

  // --- base64_decode_as_python ----------------------------------------------------------------------

  /** What Python's decoder should answer for the rest of a text. */
  ghost predicate IsReading(t: string, started: bool, r: Outcome<seq<Byte>>) {
    match r
    case Accepted(bytes) => Reads(bytes, t, started)
    case Refused => forall bytes :: !Reads(bytes, t, started)
  }

  ghost predicate ToRead(text: string, q: nat, done: seq<Byte>) {
    q <= |text| && forall r :: IsReading(text[q..], q > 0, r) ==> IsReading(text, false, After(done, r))
  }

  lemma ToReadAll(text: string)
    ensures ToRead(text, 0, [])
  {
    assert text[0..] == text;
    forall r | IsReading(text[0..], false, r)
      ensures IsReading(text, false, After([], r))
    {
      if r.Accepted? {
        assert [] + r.value == r.value;
      }
    }
  }

  lemma ReadQuantumThen(t: string, started: bool, a: Byte, b: Byte, c: Byte, r: Outcome<seq<Byte>>)
    requires Full(t, [a, b, c]) && IsReading(t[4..], true, r)
    ensures IsReading(t, started, After([a, b, c], r))
  {
    match r
    case Accepted(bytes) =>
      var all := [a, b, c] + bytes;
      assert all[0] == a && all[1] == b && all[2] == c && all[3..] == bytes;
      FullReads(all, t, started);
    case Refused =>
      forall bytes
        ensures !Reads(bytes, t, started)
      {
        FullReads(bytes, t, started);
      }
  }

  lemma ToReadQuantum(text: string, q: nat, done: seq<Byte>, a: Byte, b: Byte, c: Byte)
    requires ToRead(text, q, done) && Full(text[q..], [a, b, c])
    ensures ToRead(text, q + 4, done + [a, b, c])
  {
    assert text[q..][4..] == text[q + 4..];
    forall r | IsReading(text[q + 4..], true, r)
      ensures IsReading(text, false, After(done + [a, b, c], r))
    {
      ReadQuantumThen(text[q..], q > 0, a, b, c, r);
      AfterAfter(done, [a, b, c], r);
    }
  }

  lemma ToReadAnswer(text: string, q: nat, done: seq<Byte>, r: Outcome<seq<Byte>>)
    requires ToRead(text, q, done) && IsReading(text[q..], q > 0, r)
    ensures IsReading(text, false, After(done, r))
  {
  }

  /** The letters of an unfinished quantum, and what has come out of them. */
  predicate Partial(t: string, left: int, some: seq<Byte>) {
    Letters(t, |t|) &&
    if |t| == 0 then some == []
    else if |t| == 1 then some == [] && left == Sextet(t[0])
    else if |t| == 2 then |some| == 1 && Quantum2(Sextet(t[0]), Sextet(t[1]), some[0], left)
    else |t| == 3 && |some| == 2 && Quantum3(Sextet(t[0]), Sextet(t[1]), Sextet(t[2]), some[0], some[1], left)
  }

  /** left << 2 | bits >> 4, and the four bits that are left. */
  method Take2(left: int, bits: Six) returns (byte: Byte, over: int)
    requires 0 <= left < 64
    ensures left * 64 + bits == byte * 16 + over && 0 <= over < 16
  {
    var b: int := bits;
    byte, over := (left * 4 + b / 16) % 256, b % 16;
  }

  /** left << 4 | bits >> 2, and the two bits that are left. */
  method Take3(left: int, bits: Six) returns (byte: Byte, over: int)
    requires 0 <= left < 16
    ensures left * 64 + bits == byte * 4 + over && 0 <= over < 4
  {
    var b: int := bits;
    byte, over := (left * 16 + b / 4) % 256, b % 4;
  }

  /** left << 6 | bits */
  method Take4(left: int, bits: Six) returns (byte: Byte)
    requires 0 <= left < 4
    ensures left * 64 + bits == byte
  {
    byte := (left * 64 + bits) % 256;
  }

  /** One more letter. */
  method TakeLetter(ghost t: string, left: int, ghost some: seq<Byte>, c: char, quantum: nat)
    returns (over: int, byte: seq<Byte>)
    requires Partial(t, left, some) && IsLetter(c) && quantum == |t| <= 3
    ensures quantum < 3 ==> Partial(t + [c], over, some + byte)
    ensures quantum == 3 ==> |some + byte| == 3 && Full(t + [c], some + byte)
  {
    var bits := Sextet(c);
    if quantum == 0 {
      return bits, [];
    } else if quantum == 1 {
      var b: Byte;
      b, over := Take2(left, bits);
      return over, [b];
    } else if quantum == 2 {
      var b: Byte;
      b, over := Take3(left, bits);
      return over, [b];
    } else {
      var b := Take4(left, bits);
      return 0, [b];
    }
  }

  /** n letters, fewer than a quantum, then padding up to k. */
  predicate UpTo(t: string, n: nat, k: nat) {
    n <= 3 && n <= k <= |t| && Letters(t, n) && forall j :: n <= j < k ==> t[j] == '='
  }

  ghost predicate Unreadable(t: string, started: bool) { forall bytes :: !Reads(bytes, t, started) }

  /** A character that is neither a letter in its place nor padding. */
  lemma Misplaced(t: string, started: bool, n: nat, k: nat)
    requires UpTo(t, n, k) && k < |t| && t[k] != '=' && (n < k || !IsLetter(t[k]))
    ensures Unreadable(t, started)
  {
    assert !IsLetter(t[n]);
  }

  lemma PaddingAlone(t: string)
    requires t != [] && t[0] == '='
    ensures Unreadable(t, false)
  {
    assert !IsLetter(t[0]);
  }

  /** Something follows a padded quantum. */
  lemma TooLong(t: string, started: bool, n: nat)
    requires UpTo(t, n, 4) && n >= 2 && |t| > 4
    ensures Unreadable(t, started)
  {
    assert !IsLetter(t[n]) && IsLetter(t[0]);
  }

  /** The text ends in the middle of a quantum. */
  lemma TooShort(t: string, started: bool, n: nat)
    requires UpTo(t, n, |t|) && n >= 1 && (n >= 2 ==> |t| < 4)
    ensures Unreadable(t, started)
  {
    assert IsLetter(t[0]);
    assert n < |t| ==> t[n] == '=';
  }

  lemma PaddedReads(t: string, started: bool, n: nat, left: int, some: seq<Byte>)
    requires UpTo(t, n, 4) && n >= 2 && |t| == 4 && Partial(t[..n], left, some)
    ensures Reads(some, t, started)
  {
    assert IsLetter(t[0]);
    assert forall k :: 0 <= k < n ==> t[..n][k] == t[k];
    assert if n == 2 then PaddedTwice(t, some, left) else PaddedOnce(t, some, left);
  }

  /** Where the loop is: whole quanta up to q, n letters of the next, and then padding up to i. */
  ghost predicate Midway(text: string, i: nat, q: nat, n: nat, done: seq<Byte>, some: seq<Byte>, left: int) {
    q <= i <= |text| && ToRead(text, q, done) && UpTo(text[q..], n, i - q) && Partial(text[q..][..n], left, some)
  }

  lemma MidwayLetter(text: string, i: nat, q: nat, n: nat, done: seq<Byte>, some: seq<Byte>, left: int, over: int,
                     more: seq<Byte>)
    requires Midway(text, i, q, n, done, some, left) && i == q + n < |text| && IsLetter(text[i])
    requires n < 3 ==> Partial(text[q..][..n] + [text[i]], over, more)
    requires n == 3 ==> |more| == 3 && Full(text[q..][..n] + [text[i]], more)
    ensures n < 3 ==> Midway(text, i + 1, q, n + 1, done, more, over)
    ensures n == 3 ==> Midway(text, i + 1, i + 1, 0, done + more, [], 0)
  {
    var t := text[q..];
    assert t[..n] + [text[i]] == t[..n + 1];
    if n == 3 {
      assert more == [more[0], more[1], more[2]];
      assert forall k :: 0 <= k < 4 ==> t[k] == t[..4][k];
      assert Full(t, more);
      ToReadQuantum(text, q, done, more[0], more[1], more[2]);
    }
  }

  lemma MidwayRefused(text: string, q: nat, done: seq<Byte>)
    requires ToRead(text, q, done) && Unreadable(text[q..], q > 0)
    ensures IsReading(text, false, Refused)
  {
    ToReadAnswer(text, q, done, Refused);
  }

  /** What the loop keeps: padding has begun, but not first, and a quantum that may be padded is not yet complete. */
  ghost predicate Looping(text: string, i: nat, q: nat, n: nat, done: seq<Byte>, some: seq<Byte>, left: int,
                          padding: bool, pads: int) {
    Midway(text, i, q, n, done, some, left) && (padding <==> q + n < i) && (padding ==> q + n > 0) &&
    pads == (if n >= 2 then i - q - n else 0) && (n >= 2 ==> n + pads < 4)
  }

  lemma LoopStarts(text: string)
    ensures Looping(text, 0, 0, 0, [], [], 0, false, 0)
  {
    ToReadAll(text);
  }

  lemma LoopPads(text: string, i: nat, q: nat, n: nat, done: seq<Byte>, some: seq<Byte>, left: int, padding: bool,
                 pads: int)
    requires Looping(text, i, q, n, done, some, left, padding, pads) && 0 < i < |text| && text[i] == '='
    requires n >= 2 ==> n + pads + 1 < 4
    ensures Looping(text, i + 1, q, n, done, some, left, true, if n >= 2 then pads + 1 else pads)
  {
    assert text[q..][i - q] == '=';
  }

  lemma LoopMisplaced(text: string, i: nat, q: nat, n: nat, done: seq<Byte>, some: seq<Byte>, left: int, padding: bool,
                      pads: int)
    requires Looping(text, i, q, n, done, some, left, padding, pads) && i < |text| && text[i] != '='
    requires !IsLetter(text[i]) || padding
    ensures IsReading(text, false, Refused)
  {
    assert text[q..][i - q] == text[i];
    Misplaced(text[q..], q > 0, n, i - q);
    MidwayRefused(text, q, done);
  }

  lemma LoopEnds(text: string, q: nat, n: nat, done: seq<Byte>, some: seq<Byte>, left: int, padding: bool, pads: int)
    requires Looping(text, |text|, q, n, done, some, left, padding, pads)
    ensures IsReading(text, false, if n != 0 then Refused else Accepted(done + some))
  {
    if n != 0 {
      TooShort(text[q..], q > 0, n);
      MidwayRefused(text, q, done);
    } else {
      assert Reads([], text[q..], q > 0);
      ToReadAnswer(text, q, done, Accepted([]));
    }
  }

  /** Once the padding is full, reading is over. */
  lemma LoopCompletes(text: string, i: nat, q: nat, n: nat, done: seq<Byte>, some: seq<Byte>, left: int, padding: bool,
                      pads: int)
    requires Looping(text, i, q, n, done, some, left, padding, pads) && i < |text| && text[i] == '='
    requires n >= 2 && n + pads + 1 >= 4
    ensures IsReading(text, false, if i + 1 < |text| then Refused else Accepted(done + some))
  {
    assert text[q..][i - q] == '=';
    assert UpTo(text[q..], n, 4);
    if i + 1 < |text| {
      TooLong(text[q..], q > 0, n);
      MidwayRefused(text, q, done);
    } else {
      PaddedReads(text[q..], q > 0, n, left, some);
      ToReadAnswer(text, q, done, Accepted(some));
    }
  }

  lemma LoopLetter(text: string, i: nat, q: nat, n: nat, done: seq<Byte>, some: seq<Byte>, left: int, over: int,
                   more: seq<Byte>)
    requires Looping(text, i, q, n, done, some, left, false, 0) && i < |text| && IsLetter(text[i])
    requires n < 3 ==> Partial(text[q..][..n] + [text[i]], over, more)
    requires n == 3 ==> |more| == 3 && Full(text[q..][..n] + [text[i]], more)
    ensures n < 3 ==> Looping(text, i + 1, q, n + 1, done, more, over, false, 0)
    ensures n == 3 ==> Looping(text, i + 1, i + 1, 0, done + more, [], 0, false, 0)
  {
    MidwayLetter(text, i, q, n, done, some, left, over, more);
  }

  /** One turn of the loop, at a letter. */
  method ReadLetter(text: string, i: nat, ghost q: nat, quantum: nat, ghost done: seq<Byte>, ghost some: seq<Byte>,
                    left: int, out: seq<Byte>)
    returns (quantum': nat, left': int, out': seq<Byte>, ghost q': nat, ghost done': seq<Byte>, ghost some': seq<Byte>)
    requires Looping(text, i, q, quantum, done, some, left, false, 0) && i < |text| && IsLetter(text[i])
    requires out == done + some
    ensures Looping(text, i + 1, q', quantum', done', some', left', false, 0) && out' == done' + some'
  {
    var over: int, byte: seq<Byte>;
    over, byte := TakeLetter(text[q..][..quantum], left, some, text[i], quantum);
    LoopLetter(text, i, q, quantum, done, some, left, over, some + byte);
    out' := out + byte;
    if quantum < 3 {
      q', done', some' := q, done, some + byte;
      quantum', left' := quantum + 1, over;
    } else {
      q', done', some' := i + 1, done + (some + byte), [];
      quantum', left' := 0, 0;
    }
  }

  /** base64_decode_as_python: refused exactly when there is nothing to read the text as. */
  method DecodeAsPython(text: string) returns (r: Outcome<seq<Byte>>)
    ensures IsReading(text, false, r)
  {
    var out: seq<Byte> := [];
    var quantum, left, pads, padding := 0, 0, 0, false;
    ghost var q, done, some: seq<Byte> := 0, [], [];
    LoopStarts(text);
    var i := 0;
    while i < |text|
      invariant i <= |text| && out == done + some && Looping(text, i, q, quantum, done, some, left, padding, pads)
      decreases |text| - i
    {
      var c := text[i];
      if c == '=' {
        if i == 0 {
          PaddingAlone(text);
          return Refused;
        }
        if quantum >= 2 && quantum + pads + 1 >= 4 {
          LoopCompletes(text, i, q, quantum, done, some, left, padding, pads);
          return if i + 1 < |text| then Refused else Accepted(out);
        }
        LoopPads(text, i, q, quantum, done, some, left, padding, pads);
        padding := true;
        pads := if quantum >= 2 then pads + 1 else pads;
      } else {
        if Sextet(c) < 0 || padding {
          LoopMisplaced(text, i, q, quantum, done, some, left, padding, pads);
          return Refused;
        }
        quantum, left, out, q, done, some := ReadLetter(text, i, q, quantum, done, some, left, out);
      }
      i := i + 1;
    }
    LoopEnds(text, q, quantum, done, some, left, padding, pads);
    return if quantum != 0 then Refused else Accepted(out);
  }

  /** Python's decoder answers with the same bytes whatever the strict one takes. */
  lemma PythonAgrees(text: string, strict: Outcome<seq<Byte>>, python: Outcome<seq<Byte>>)
    requires IsDecoding(text, strict) && IsReading(text, false, python) && strict.Accepted?
    ensures python == strict
  {
    EncodedIsRead(strict.value, text, false);
    if python.Accepted? {
      OneReading(strict.value, python.value, text, false);
    }
  }
}
