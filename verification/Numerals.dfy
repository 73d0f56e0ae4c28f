/** Decimal and hexadecimal numerals: what the conversion routines print, and how to read it back. */
module Numerals {
  import opened Arithmetic

  function DigitChar(d: nat, upper: bool): char
    requires d < 16
  {
    if d < 10 then '0' + (d as char) else (if upper then 'A' else 'a') + ((d - 10) as char)
  }

  function DigitValue(c: char): nat {
    if '0' <= c <= '9' then (c - '0') as nat
    else if 'a' <= c <= 'f' then (c - 'a') as nat + 10
    else if 'A' <= c <= 'F' then (c - 'A') as nat + 10
    else 0
  }

  /** The numeral of n, most significant digit first. */
  function Numeral(n: nat, base: nat, upper: bool): (s: string)
    requires 2 <= base <= 16
    ensures |s| > 0
  {
    if n < base then [DigitChar(n, upper)] else Numeral(n / base, base, upper) + [DigitChar(n % base, upper)]
  }

  /** The same without a digit for zero: what is left to print of n. */
  function Digits(n: nat, base: nat, upper: bool): string
    requires 2 <= base <= 16
  {
    if n == 0 then "" else Numeral(n, base, upper)
  }

  function Signed(n: int): string {
    if n < 0 then "-" + Numeral(-n, 10, false) else Numeral(n, 10, false)
  }

  /** The k lowest hexadecimal digits of n, most significant first. */
  function FixedHex(n: nat, k: nat, upper: bool): (s: string)
    ensures |s| == k
  {
    if k == 0 then "" else FixedHex(n / 16, k - 1, upper) + [DigitChar(n % 16, upper)]
  }

  function Value(s: string, base: nat): nat {
    if s == "" then 0 else Value(s[..|s| - 1], base) * base + DigitValue(s[|s| - 1])
  }

  function SignedValue(s: string): int {
    if s != "" && s[0] == '-' then -(Value(s[1..], 10) as int) else Value(s, 10)
  }

  function Pow(base: nat, k: nat): nat {
    if k == 0 then 1 else base * Pow(base, k - 1)
  }

  // ---------------------------------------------------------------- round trips

  lemma DigitRoundTrip(d: nat, upper: bool)
    requires d < 16
    ensures DigitValue(DigitChar(d, upper)) == d
    ensures DigitChar(d, upper) == '0' <==> d == 0
    ensures DigitChar(d, upper) !in {'%', '\0', '-'}
  {
  }

  /** The digits in use. */
  predicate IsDigit(c: char, base: nat, upper: bool) {
    '0' <= c <= '9' || (base == 16 && if upper then 'A' <= c <= 'F' else 'a' <= c <= 'f')
  }

  lemma {:induction false} NumeralDigits(n: nat, base: nat, upper: bool)
    requires base == 10 || base == 16
    ensures forall c :: c in Numeral(n, base, upper) ==> IsDigit(c, base, upper)
  {
    if n >= base { NumeralDigits(n / base, base, upper); }
  }

  lemma {:induction false} FixedHexDigits(n: nat, k: nat, upper: bool)
    ensures forall c :: c in FixedHex(n, k, upper) ==> IsDigit(c, 16, upper)
  {
    if k > 0 { FixedHexDigits(n / 16, k - 1, upper); }
  }

  lemma ValueSnoc(s: string, c: char, base: nat)
    ensures Value(s + [c], base) == Value(s, base) * base + DigitValue(c)
  {
  }

  /** Reading a numeral gives the number back. */
  lemma {:induction false} NumeralRoundTrip(n: nat, base: nat, upper: bool)
    requires 2 <= base <= 16
    ensures Value(Numeral(n, base, upper), base) == n
  {
    if n < base {
      DigitRoundTrip(n, upper);
      assert Numeral(n, base, upper)[..0] == "";
    } else {
      NumeralRoundTrip(n / base, base, upper);
      DigitRoundTrip(n % base, upper);
      ValueSnoc(Numeral(n / base, base, upper), DigitChar(n % base, upper), base);
      DivMod(n, base);
    }
  }

  lemma DivMod(n: nat, base: nat)
    requires base > 0
    ensures n / base * base + n % base == n
  {
  }

  /** No redundant leading zero, and no character that is not a digit. */
  lemma {:induction false} NumeralShape(n: nat, base: nat, upper: bool)
    requires 2 <= base <= 16
    ensures Numeral(n, base, upper)[0] == '0' ==> n == 0
    ensures forall c :: c in Numeral(n, base, upper) ==> c != '%' && c != '\0' && c != '-'
  {
    if n < base {
      DigitRoundTrip(n, upper);
    } else {
      NumeralShape(n / base, base, upper);
      DigitRoundTrip(n % base, upper);
      QuotientPositive(n, base);
    }
  }

  lemma QuotientPositive(n: nat, base: nat)
    requires 0 < base <= n
    ensures n / base > 0
  {
  }

  /** n below base^k has at most k digits. */
  lemma {:induction false} NumeralLength(n: nat, base: nat, upper: bool, k: nat)
    requires 2 <= base <= 16 && k > 0 && n < Pow(base, k)
    ensures |Numeral(n, base, upper)| <= k
    decreases k
  {
    if n >= base {
      if k == 1 { assert Pow(base, 0) == 1; }
      QuotientBelow(n, base, Pow(base, k - 1));
      NumeralLength(n / base, base, upper, k - 1);
    }
  }

  lemma QuotientBelow(n: nat, base: nat, p: nat)
    requires base > 0 && n < base * p
    ensures n / base < p
  {
  }

  lemma SignedRoundTrip(n: int)
    ensures SignedValue(Signed(n)) == n
  {
    NumeralRoundTrip(if n < 0 then -n else n, 10, false);
    NumeralShape(if n < 0 then -n else n, 10, false);
    if n >= 0 {
      assert Numeral(n, 10, false)[0] in Numeral(n, 10, false);
    } else {
      assert Signed(n)[1..] == Numeral(-n, 10, false);
    }
  }

  /** Reading fixed-width digits gives the number back when it fits. */
  lemma {:induction false} FixedHexRoundTrip(n: nat, k: nat, upper: bool)
    requires n < Pow(16, k)
    ensures Value(FixedHex(n, k, upper), 16) == n
  {
    if k > 0 {
      FixedHexRoundTrip(n / 16, k - 1, upper);
      DigitRoundTrip(n % 16, upper);
      ValueSnoc(FixedHex(n / 16, k - 1, upper), DigitChar(n % 16, upper), 16);
    }
  }

  // ---------------------------------------------------------------- leading zeros

  /** A digit position above the number holds a zero. */
  lemma {:induction false} FixedHexLeadingZero(n: nat, k: nat, upper: bool)
    requires n < Pow(16, k)
    ensures FixedHex(n, k + 1, upper) == ['0'] + FixedHex(n, k, upper)
  {
    if k > 0 {
      FixedHexLeadingZero(n / 16, k - 1, upper);
    }
  }

  /** The position of the top digit does not. */
  lemma {:induction false} FixedHexTopDigit(n: nat, k: nat, upper: bool)
    requires Pow(16, k) <= n < Pow(16, k + 1)
    ensures FixedHex(n, k + 1, upper)[0] != '0'
  {
    if k == 0 {
      DigitRoundTrip(n % 16, upper);
    } else {
      FixedHexTopDigit(n / 16, k - 1, upper);
    }
  }

  /** Without leading zeros, fixed width is the plain numeral. */
  lemma {:induction false} FixedHexIsNumeral(n: nat, k: nat, upper: bool)
    requires n < Pow(16, k + 1) && (k == 0 || Pow(16, k) <= n)
    ensures FixedHex(n, k + 1, upper) == Numeral(n, 16, upper)
  {
    if k > 0 {
      assert Pow(16, k) >= 16 by { PowPositive(k - 1); }
      FixedHexIsNumeral(n / 16, k - 1, upper);
    }
  }

  lemma {:induction false} PowPositive(k: nat)
    ensures Pow(16, k) >= 1
  {
    if k > 0 { PowPositive(k - 1); }
  }

  lemma {:induction false} PowBounds()
    ensures Pow(10, 20) > 0x1_0000_0000_0000_0000
    ensures Pow(16, 16) == 0x1_0000_0000_0000_0000
    ensures Pow(16, 8) == 0x1_0000_0000
  {
    assert Pow(10, 5) == 100000;
    assert Pow(10, 10) == 10000000000;
    assert Pow(10, 15) == 1000000000000000;
    assert Pow(16, 4) == 0x1_0000;
    assert Pow(16, 8) == 0x1_0000_0000;
    assert Pow(16, 12) == 0x1_0000_0000_0000;
  }
}
