/**
 Decimal text as Rust writes and reads it: `{}`, `{:0w}` and `str::parse::<i64>`, together
 with the byte order of strings.
*/
module Decimal {
  import opened Wrappers

  const I64_MIN := -0x8000_0000_0000_0000
  const I64_MAX := 0x7fff_ffff_ffff_ffff

  predicate IsI64(n: int) {
    I64_MIN <= n <= I64_MAX
  }

  predicate IsDigit(c: char) {
    '0' <= c <= '9'
  }

  predicate AllDigits(s: string) {
    forall i :: 0 <= i < |s| ==> IsDigit(s[i])
  }

  function Digit(d: nat): char
    requires d < 10
  {
    ('0' as int + d) as char
  }

  function DigitValue(c: char): nat
    requires IsDigit(c)
  {
    c as int - '0' as int
  }

  /** The decimal digits of a natural number, without leading zeros. */
  function Digits(n: nat): (s: string)
    ensures s != [] && AllDigits(s)
  {
    if n < 10 then [Digit(n)] else Digits(n / 10) + [Digit(n % 10)]
  }

  function Zeros(k: int): string {
    if k <= 0 then [] else "0" + Zeros(k - 1)
  }

  /** `{}` of an integer. */
  function Display(n: int): string {
    if n < 0 then "-" + Digits(-n) else Digits(n)
  }

  /** `{:0width}` of an integer: the zeros go between the sign and the digits. */
  function Padded(n: int, width: nat): string {
    if n < 0 then "-" + Pad(-n, width - 1) else Pad(n, width)
  }

  function Pad(n: nat, width: int): string {
    Zeros(width - |Digits(n)|) + Digits(n)
  }

  /** The number a digit string denotes, leading zeros allowed. */
  function Value(s: string): nat
    requires AllDigits(s)
  {
    if s == [] then 0 else 10 * Value(s[..|s| - 1]) + DigitValue(s[|s| - 1])
  }

  function InRange(n: int): Option<int> {
    if IsI64(n) then Some(n) else None
  }

  /** `str::parse::<i64>`: an optional sign, at least one digit, no overflow. */
  function ParseI64(s: string): Option<int> {
    if s == "" then None
    else if s[0] == '-' then ParseUnsigned(s[1..], true)
    else if s[0] == '+' then ParseUnsigned(s[1..], false)
    else ParseUnsigned(s, false)
  }

  function ParseUnsigned(s: string, negative: bool): Option<int> {
    if s != "" && AllDigits(s) then InRange(if negative then 0 - Value(s) else Value(s)) else None
  }

  // ----- values of digit strings

  lemma {:induction false} ValueDigits(n: nat)
    ensures Value(Digits(n)) == n
  {
    if n >= 10 {
      var s := Digits(n);
      assert s[..|s| - 1] == Digits(n / 10);
      ValueDigits(n / 10);
    }
  }

  lemma {:induction false} ValueZeros(k: int, s: string)
    requires AllDigits(s)
    ensures AllDigits(Zeros(k) + s) && Value(Zeros(k) + s) == Value(s)
  {
    if k <= 0 {
      assert Zeros(k) + s == s;
    } else {
      ValueZeros(k - 1, s);
      ValueLeadingZero(Zeros(k - 1) + s);
      assert Zeros(k) + s == "0" + (Zeros(k - 1) + s);
    }
  }

  lemma {:induction false} ValueLeadingZero(s: string)
    requires AllDigits(s)
    ensures AllDigits("0" + s) && Value("0" + s) == Value(s)
  {
    var z := "0" + s;
    forall i | 0 <= i < |z| ensures IsDigit(z[i]) {}
    if s == [] {
      assert z[..|z| - 1] == [];
    } else {
      ValueLeadingZero(s[..|s| - 1]);
      assert z[..|z| - 1] == "0" + s[..|s| - 1];
    }
  }

  lemma ParseDigits(s: string)
    requires s != "" && AllDigits(s)
    ensures ParseI64(s) == InRange(Value(s))
  {
    assert IsDigit(s[0]);
  }

  lemma ParseMinus(s: string)
    requires s != "" && AllDigits(s)
    ensures ParseI64("-" + s) == InRange(0 - Value(s))
  {
    var t := "-" + s;
    assert t[0] == '-' && t[1..] == s;
  }

  /** Digits with or without a sign in front, and a value that fits. */
  predicate Denotes(s: string, n: int) {
    && IsI64(n) && s != ""
    && (if s[0] == '-' || s[0] == '+' then
          |s| > 1 && AllDigits(s[1..]) && n == (if s[0] == '-' then 0 - Value(s[1..]) else Value(s[1..]))
        else AllDigits(s) && n == Value(s))
  }

  /** A text parses to a number exactly when it denotes it. */
  lemma ParsesIff(s: string, n: int)
    ensures ParseI64(s) == Some(n) <==> Denotes(s, n)
  {}

  lemma ValuePad(n: nat, width: int)
    ensures Pad(n, width) != "" && AllDigits(Pad(n, width)) && Value(Pad(n, width)) == n
  {
    ValueDigits(n);
    ValueZeros(width - |Digits(n)|, Digits(n));
  }

  lemma ParseSigned(s: string, m: nat)
    requires s != "" && AllDigits(s) && Value(s) == m && IsI64(0 - m)
    ensures ParseI64("-" + s) == Some(0 - m)
  {
    ParseMinus(s);
  }

  /** Printing at any width and parsing gives the number back: every i64, either sign. */
  lemma ParsePadded(n: int, width: nat)
    requires IsI64(n)
    ensures ParseI64(Padded(n, width)) == Some(n)
  {
    if n < 0 {
      ValuePad(-n, width - 1);
      ParseSigned(Pad(-n, width - 1), -n);
    } else {
      ValuePad(n, width);
      ParseDigits(Pad(n, width));
    }
  }

  lemma PaddedInjective(a: int, b: int, width: nat)
    requires IsI64(a) && IsI64(b) && Padded(a, width) == Padded(b, width)
    ensures a == b
  {
    ParsePadded(a, width);
    ParsePadded(b, width);
  }

  lemma DisplayIsPadded(n: int)
    ensures Display(n) == Padded(n, 0)
  {
    var d := Digits(if n < 0 then -n else n);
    assert Zeros(0 - |d|) == [] && Zeros(0 - 1 - |d|) == [];
  }

  lemma {:induction false} AllDigitsZeros(k: int)
    ensures AllDigits(Zeros(k)) && |Zeros(k)| == if k <= 0 then 0 else k
  {
    if k > 0 {
      AllDigitsZeros(k - 1);
    }
  }

  lemma PaddedIsDigits(n: nat, width: nat)
    ensures AllDigits(Padded(n, width))
  {
    AllDigitsZeros(width - |Digits(n)|);
  }

  /** A printed number holds no character but digits and the minus sign. */
  lemma PaddedCharacters(n: int, width: nat)
    ensures Padded(n, width) != []
    ensures forall i :: 0 <= i < |Padded(n, width)| ==> IsDigit(Padded(n, width)[i]) || Padded(n, width)[i] == '-'
  {
    AllDigitsZeros(width - |Digits(if n < 0 then -n else n)|);
    AllDigitsZeros(width - 1 - |Digits(if n < 0 then -n else n)|);
  }

  // ----- widths

  function Pow10(k: nat): nat {
    if k == 0 then 1 else 10 * Pow10(k - 1)
  }

  lemma {:induction false} DigitsWidth(n: nat, width: nat)
    requires width > 0 && n < Pow10(width)
    ensures |Digits(n)| <= width
  {
    if n >= 10 {
      DigitsWidth(n / 10, width - 1);
    }
  }

  /** A natural number below 10^width takes exactly `width` characters under `{:0width}`. */
  lemma PaddedWidth(n: nat, width: nat)
    requires width > 0 && n < Pow10(width)
    ensures |Padded(n, width)| == width && AllDigits(Padded(n, width)) && Value(Padded(n, width)) == n
  {
    DigitsWidth(n, width);
    AllDigitsZeros(width - |Digits(n)|);
    ValuePad(n, width);
  }

  lemma {:induction false} PowersArePositive(k: nat)
    ensures Pow10(k) >= 1
  {
    if k > 0 {
      PowersArePositive(k - 1);
    }
  }

  lemma {:induction false} DigitsAreWide(n: nat, width: nat)
    requires width > 0 && n >= Pow10(width - 1)
    ensures |Digits(n)| >= width
  {
    if width > 1 {
      assert Pow10(width - 1) == 10 * Pow10(width - 2);
      PowersArePositive(width - 2);
      DigitsAreWide(n / 10, width - 1);
    }
  }

  lemma PaddedIsWide(n: nat, width: nat)
    ensures |Padded(n, width)| >= width
  {
    AllDigitsZeros(width - |Digits(n)|);
  }

  lemma {:induction false} DigitsGrow(m: nat, n: nat)
    requires m <= n
    ensures |Digits(m)| <= |Digits(n)|
  {
    if m >= 10 {
      DigitsGrow(m / 10, n / 10);
    }
  }

  /** A number without its last `k` digits. */
  function Shortened(n: nat, k: nat): nat {
    if k == 0 then n else Shortened(n / 10, k - 1)
  }

  lemma {:induction false} SplitDigits(n: nat, k: nat) returns (q: string)
    requires k < |Digits(n)|
    ensures Digits(n) == Digits(Shortened(n, k)) + q && |q| == k && AllDigits(q)
  {
    if k == 0 {
      q := "";
    } else {
      var r := SplitDigits(n / 10, k - 1);
      q := r + [Digit(n % 10)];
    }
  }

  lemma FourDigitsAtLeast(n: nat)
    requires n >= 1000
    ensures |Digits(n)| >= 4
  {
    assert Pow10(3) == 1000 by { assert Pow10(1) == 10 && Pow10(2) == 100; }
    DigitsAreWide(n, 4);
  }

  lemma FourDigitYear(n: nat)
    requires 1000 <= n < 10000
    ensures |Digits(n)| == 4
  {
    assert Pow10(4) == 10000 by { assert Pow10(1) == 10 && Pow10(2) == 100 && Pow10(3) == 1000; }
    FourDigitsAtLeast(n);
    DigitsWidth(n, 4);
  }

  lemma TenThousand()
    ensures |Digits(10000)| == 5 && Shortened(10000, 1) == 1000
  {
    FourDigitYear(1000);
    assert Digits(10000) == Digits(1000) + [Digit(0)];
    assert Shortened(10000, 1) == Shortened(1000, 0);
  }

  // ----- the order of strings

  /** `a < b` for two strings: at the first difference the smaller character, or a proper prefix. */
  predicate Less(a: string, b: string) {
    if b == "" then false
    else if a == "" then true
    else a[0] < b[0] || (a[0] == b[0] && Less(a[1..], b[1..]))
  }

  lemma {:induction false} LessCommonPrefix(p: string, a: string, b: string)
    ensures Less(p + a, p + b) <==> Less(a, b)
  {
    if p == "" {
      assert p + a == a && p + b == b;
    } else {
      LessCommonPrefix(p[1..], a, b);
      assert (p + a)[1..] == p[1..] + a && (p + b)[1..] == p[1..] + b;
    }
  }

  /** Two strings of one length that differ decide the order, whatever follows them. */
  lemma {:induction false} LessDecided(a: string, b: string, x: string, y: string)
    requires |a| == |b| && Less(a, b)
    ensures Less(a + x, b + y)
  {
    if a[0] == b[0] {
      LessDecided(a[1..], b[1..], x, y);
    }
    assert (a + x)[1..] == a[1..] + x && (b + y)[1..] == b[1..] + y;
  }

  lemma {:induction false} LessAsymmetric(a: string, b: string)
    requires Less(a, b)
    ensures !Less(b, a)
  {
    if a != "" && a[0] == b[0] {
      LessAsymmetric(a[1..], b[1..]);
    }
  }

  lemma TimesTen(d: int, p: int, v: int)
    ensures 10 * (d * p + v) == d * (10 * p) + 10 * v
  {}

  lemma {:induction false} ValueFront(s: string)
    requires AllDigits(s) && s != []
    ensures Value(s) == DigitValue(s[0]) * Pow10(|s| - 1) + Value(s[1..])
  {
    if |s| > 1 {
      var f := s[..|s| - 1];
      ValueFront(f);
      assert s[1..][..|s| - 2] == f[1..] && s[1..][|s| - 2] == s[|s| - 1];
      TimesTen(DigitValue(s[0]), Pow10(|s| - 2), Value(f[1..]));
    } else {
      assert s[..0] == [] && s[1..] == [];
    }
  }

  lemma {:induction false} ValueBound(s: string)
    requires AllDigits(s)
    ensures Value(s) < Pow10(|s|)
  {
    if s != [] {
      ValueBound(s[..|s| - 1]);
    }
  }

  lemma LeadingDigitOrder(x: nat, y: nat, u: nat, v: nat, p: nat)
    requires u < p && v < p
    ensures x * p + u < y * p + v <==> x < y || (x == y && u < v)
  {
    if x < y {
      assert (x + 1) * p <= y * p;
    } else if y < x {
      assert (y + 1) * p <= x * p;
    }
  }

  /** Digit strings of one length compare as their numbers do. */
  lemma {:induction false} DigitsOrder(a: string, b: string)
    requires |a| == |b| && AllDigits(a) && AllDigits(b)
    ensures Less(a, b) <==> Value(a) < Value(b)
  {
    if a != [] {
      DigitsOrder(a[1..], b[1..]);
      ValueFront(a);
      ValueFront(b);
      ValueBound(a[1..]);
      ValueBound(b[1..]);
      LeadingDigitOrder(DigitValue(a[0]), DigitValue(b[0]), Value(a[1..]), Value(b[1..]), Pow10(|a| - 1));
    }
  }

  lemma {:induction false} LessIsTotal(a: string, b: string)
    ensures Less(a, b) || Less(b, a) || a == b
    ensures !Less(a, a)
  {
    if a != "" {
      LessIsTotal(a[1..], if b != "" then b[1..] else "");
      assert a == [a[0]] + a[1..] && (b != "" ==> b == [b[0]] + b[1..]);
    }
  }

  lemma {:induction false} LessIsTransitive(a: string, b: string, c: string)
    requires Less(a, b) && Less(b, c)
    ensures Less(a, c)
  {
    if a != "" && a[0] == b[0] == c[0] {
      LessIsTransitive(a[1..], b[1..], c[1..]);
    }
  }
}
