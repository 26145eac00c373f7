/** Bytes, the ASCII codes the programs test for, and positional numerals. */
module Bytes {
  type Byte = b: int | 0 <= b < 256
  type Bytes = seq<Byte>

  const HT: Byte := 9
  const LF: Byte := 10
  const CR: Byte := 13
  const SP: Byte := 32
  const PERCENT: Byte := 37
  const PLUS: Byte := 43
  const DOT: Byte := 46
  const SLASH: Byte := 47
  const ZERO: Byte := 48
  const COLON: Byte := 58

  /** The byte of a character of a string literal; '?' stands for what is not a single byte. */
  function Code(c: char): Byte {
    if c as int < 256 then c as int else 63
  }

  function Ascii(s: string): (r: Bytes)
    ensures |r| == |s|
  {
    seq(|s|, i requires 0 <= i < |s| => Code(s[i]))
  }

  /** The position of the first `c`, or the length. */
  function FirstOf(s: Bytes, c: Byte): (i: nat)
    ensures i <= |s|
    ensures forall k | 0 <= k < i :: s[k] != c
    ensures i < |s| ==> s[i] == c
  {
    if s == [] || s[0] == c then 0 else 1 + FirstOf(s[1..], c)
  }

  lemma FirstIs(s: Bytes, c: Byte, i: nat)
    requires i < |s| && s[i] == c && forall k | 0 <= k < i :: s[k] != c
    ensures FirstOf(s, c) == i
  {
  }

  lemma FirstInAppend(a: Bytes, b: Bytes, c: Byte)
    requires b != [] && b[0] == c && forall k | 0 <= k < |a| :: a[k] != c
    ensures FirstOf(a + b, c) == |a| && (a + b)[..|a|] == a && (a + b)[|a|..] == b
  {
    FirstIs(a + b, c, |a|);
  }

  lemma Associative(a: Bytes, b: Bytes, c: Bytes)
    ensures a + b + c == a + (b + c)
  {
  }

  predicate IsDigit(c: int) {
    48 <= c <= 57
  }

  predicate IsHexDigit(c: int) {
    48 <= c <= 57 || 65 <= c <= 70 || 97 <= c <= 102
  }

  /** The value of a digit; hexadecimal digits in either case. */
  function DigitValue(c: Byte): int {
    if 97 <= c <= 102 then c - 87 else if 65 <= c <= 70 then c - 55 else c - 48
  }

  /** The digit with the given value; hexadecimal digits in lower case. */
  function DigitChar(v: nat): (c: Byte)
    requires v < 16
    ensures IsHexDigit(c) && DigitValue(c) == v
    ensures v < 10 ==> IsDigit(c)
  {
    if v < 10 then 48 + v else 87 + v
  }

  /** All of `ds` are digits of the base. */
  predicate DigitsOf(base: nat, ds: Bytes) {
    forall i | 0 <= i < |ds| :: IsHexDigit(ds[i]) && DigitValue(ds[i]) < base
  }

  /** The number a digit string denotes, read left to right. */
  function Value(base: nat, ds: Bytes): int {
    if ds == [] then 0 else Value(base, ds[..|ds| - 1]) * base + DigitValue(ds[|ds| - 1])
  }

  /** The shortest numeral of `n`. */
  function Numeral(base: nat, n: nat): (ds: Bytes)
    requires 2 <= base <= 16
    ensures ds != []
  {
    if n < base then [DigitChar(n)]
    else
      QuotientIsSmaller(base, n);
      Numeral(base, n / base) + [DigitChar(n % base)]
  }

  lemma QuotientIsSmaller(base: nat, n: nat)
    requires 2 <= base <= n
    ensures 0 < n / base < n
    ensures 0 <= n % base < base
    ensures n == n / base * base + n % base
  {
  }

  lemma DivisionIsUnique(base: nat, q: nat, r: nat)
    requires 0 <= r < base
    ensures (q * base + r) / base == q && (q * base + r) % base == r
  {
    var n := q * base + r;
    assert (q - n / base) * base == n % base - r;
    MultipleIsFar(q - n / base, base);
  }

  lemma MultipleIsFar(k: int, base: nat)
    ensures k >= 1 ==> k * base >= base
    ensures k <= -1 ==> k * base + base <= 0
  {
  }

  /** Appending a digit to a positive number lengthens its numeral by one. */
  lemma NumeralGrows(base: nat, v: nat, d: nat)
    requires 2 <= base <= 16 && 0 < v && d < base
    ensures v * base + d >= base
    ensures |Numeral(base, v * base + d)| == |Numeral(base, v)| + 1
  {
    assert v * base >= base;
    DivisionIsUnique(base, v, d);
  }

  /** A numeral denotes its number and is written in digits of the base. */
  lemma {:induction false} ValueOfNumeral(base: nat, n: nat)
    requires 2 <= base <= 16
    ensures DigitsOf(base, Numeral(base, n)) && Value(base, Numeral(base, n)) == n
    decreases n
  {
    var ds := Numeral(base, n);
    if n < base {
      assert ds[..0] == [];
    } else {
      QuotientIsSmaller(base, n);
      ValueOfNumeral(base, n / base);
      assert ds[..|ds| - 1] == Numeral(base, n / base);
    }
  }

  lemma {:induction false} ValueIsNatural(base: nat, ds: Bytes)
    requires DigitsOf(base, ds)
    ensures Value(base, ds) >= 0
  {
    if ds != [] {
      ValueIsNatural(base, ds[..|ds| - 1]);
      assert Value(base, ds[..|ds| - 1]) * base >= 0;
    }
  }

  function Power(base: nat, k: nat): nat {
    if k == 0 then 1 else base * Power(base, k - 1)
  }

  lemma BelowNextPower(base: nat, v: nat, d: nat, p: nat)
    requires v < p && d < base
    ensures v * base + d < base * p
  {
    var k := p - v - 1;
    assert base * (v + 1 + k) == v * base + base + base * k;
    assert base * k >= 0;
  }

  /** A digit string of length k denotes a number below the k-th power of its base. */
  lemma {:induction false} ValueBelowPower(base: nat, ds: Bytes)
    requires DigitsOf(base, ds)
    ensures 0 <= Value(base, ds) < Power(base, |ds|)
  {
    ValueIsNatural(base, ds);
    if ds != [] {
      var init := ds[..|ds| - 1];
      ValueBelowPower(base, init);
      BelowNextPower(base, Value(base, init), DigitValue(ds[|ds| - 1]), Power(base, |init|));
    }
  }

  /** A digit string has no superfluous leading zero. */
  predicate Minimal(ds: Bytes) {
    |ds| == 1 || (|ds| > 1 && ds[0] != ZERO)
  }

  /** No digit string of the same value is shorter than the numeral; only one with a leading zero is longer. */
  lemma {:induction false} NumeralIsShortest(base: nat, ds: Bytes)
    requires 2 <= base <= 16 && ds != [] && DigitsOf(base, ds)
    ensures Value(base, ds) >= 0
    ensures |Numeral(base, Value(base, ds))| <= |ds|
    ensures |Numeral(base, Value(base, ds))| == |ds| <==> Minimal(ds)
    ensures ds[0] != ZERO ==> Value(base, ds) > 0
  {
    var init, d := ds[..|ds| - 1], DigitValue(ds[|ds| - 1]);
    if |ds| == 1 {
      assert init == [];
    } else {
      NumeralIsShortest(base, init);
      assert init[0] == ds[0];
      if Value(base, init) == 0 {
        assert Value(base, ds) == d;
      } else {
        NumeralGrows(base, Value(base, init), d);
      }
    }
  }
}
