/** Decimal rendering of non-negative arbitrary-precision integers, as
    `BigInt.prototype.toString()` produces it, together with the reading of a
    digit string back into its value. Integers are unbounded here, so nothing
    is lost above 2^53. */
module Decimal {
  import opened Text

  predicate IsDigit(c: char) {
    '0' <= c <= '9'
  }

  predicate AllDigits(s: string) {
    forall i :: 0 <= i < |s| ==> IsDigit(s[i])
  }

  /** The form toString gives: non-empty, digits only, no leading zero
      except for "0" itself. */
  predicate Canonical(s: string) {
    |s| > 0 && AllDigits(s) && (s[0] == '0' ==> |s| == 1)
  }

  function DigitChar(d: nat): (c: char)
    requires d < 10
    ensures IsDigit(c) && DigitValue(c) == d
  {
    (('0' as int) + d) as char
  }

  function DigitValue(c: char): nat
    requires IsDigit(c)
  {
    (c as int) - ('0' as int)
  }

  function Pow10(k: nat): (p: nat)
    ensures p >= 1
  {
    if k == 0 then 1 else 10 * Pow10(k - 1)
  }

  /** `n.toString()` for a non-negative bigint n. */
  function NatToDecimal(n: nat): (s: string)
    ensures Canonical(s)
    decreases n
  {
    if n < 10 then [DigitChar(n)] else NatToDecimal(n / 10) + [DigitChar(n % 10)]
  }

  /** Rendering a number with one more low digit appends that digit. */
  lemma RenderAppendDigit(q: nat, d: nat)
    requires q >= 1 && d < 10
    ensures NatToDecimal(10 * q + d) == NatToDecimal(q) + [DigitChar(d)]
  {
    assert (10 * q + d) / 10 == q && (10 * q + d) % 10 == d;
  }

  /** The number a string of decimal digits denotes (most significant first). */
  function DecimalValue(s: string): nat
    requires AllDigits(s)
  {
    if s == [] then 0 else 10 * DecimalValue(s[..|s| - 1]) + DigitValue(s[|s| - 1])
  }

  lemma DecimalValueAppend(s: string, c: char)
    requires AllDigits(s) && IsDigit(c)
    ensures AllDigits(s + [c])
    ensures DecimalValue(s + [c]) == 10 * DecimalValue(s) + DigitValue(c)
  {
    assert (s + [c])[..|s|] == s;
  }

  /** Reading the rendering back gives the number, for every n however large. */
  lemma {:induction false} DecimalRoundTrip(n: nat)
    ensures DecimalValue(NatToDecimal(n)) == n
    decreases n
  {
    if n >= 10 {
      DecimalRoundTrip(n / 10);
      DecimalValueAppend(NatToDecimal(n / 10), DigitChar(n % 10));
    }
  }

  /** Distinct numbers render to distinct strings. */
  lemma NatToDecimalInjective(m: nat, n: nat)
    ensures NatToDecimal(m) == NatToDecimal(n) <==> m == n
  {
    if NatToDecimal(m) == NatToDecimal(n) {
      DecimalRoundTrip(m);
      DecimalRoundTrip(n);
    }
  }

  lemma {:induction false} LeadingNonZeroPositive(s: string)
    requires |s| > 0 && AllDigits(s) && s[0] != '0'
    ensures DecimalValue(s) > 0
    decreases |s|
  {
    if |s| > 1 {
      LeadingNonZeroPositive(s[..|s| - 1]);
    }
  }

  /** The other direction of the round trip: every canonical digit string is
      the rendering of the number it denotes. */
  lemma {:induction false} CanonicalIsRendering(s: string)
    requires Canonical(s)
    ensures NatToDecimal(DecimalValue(s)) == s
    decreases |s|
  {
    if |s| > 1 {
      var p := s[..|s| - 1];
      assert s == p + [s[|s| - 1]];
      LeadingNonZeroPositive(p);
      CanonicalIsRendering(p);
      var v := DecimalValue(s);
      assert v / 10 == DecimalValue(p) && v % 10 == DigitValue(s[|s| - 1]);
    }
  }

  lemma {:induction false} MulAtLeast(d: int, x: int)
    requires d > 0 && x >= 1
    ensures d * x >= d
    decreases x
  {
    if x > 1 {
      MulAtLeast(d, x - 1);
      assert d * x == d * (x - 1) + d;
    }
  }

  /** Division with remainder is unique. */
  lemma DivModUnique(n: int, d: int, a: int, b: int)
    requires d > 0 && 0 <= b < d && n == d * a + b
    ensures n / d == a && n % d == b
  {
    var q, r := n / d, n % d;
    var x := a - q;
    assert d * x == r - b by {
      assert n == d * q + r;
      assert d * a - d * q == d * x;
    }
    if x >= 1 {
      MulAtLeast(d, x);
    } else if x <= -1 {
      assert d * (-x) == -(d * x);
      MulAtLeast(d, -x);
    }
  }

  lemma ModOfShift(n: nat, m: nat)
    requires m >= 1
    ensures 10 * ((n / 10) % m) + n % 10 == n % (10 * m)
  {
    var q, r := n / 10, n % 10;
    var a, b := q / m, q % m;
    assert q == m * a + b;
    assert n == (10 * m) * a + (10 * b + r) by {
      assert n == 10 * q + r;
      assert 10 * q == 10 * (m * a) + 10 * b;
      assert 10 * (m * a) == (10 * m) * a;
    }
    DivModUnique(n, 10 * m, a, 10 * b + r);
  }

  /** The number formed by the k low decimal digits of n, peeled off one
      division by ten at a time. */
  function LowDigits(n: nat, k: nat): nat {
    if k == 0 then 0 else 10 * LowDigits(n / 10, k - 1) + n % 10
  }

  lemma {:induction false} LowDigitsIsMod(n: nat, k: nat)
    ensures LowDigits(n, k) == n % Pow10(k)
    decreases k
  {
    if k > 0 {
      LowDigitsIsMod(n / 10, k - 1);
      ModOfShift(n, Pow10(k - 1));
    }
  }

  lemma {:induction false} ZeroLowDigits(k: nat)
    ensures LowDigits(0, k) == 0
    decreases k
  {
    if k > 0 {
      ZeroLowDigits(k - 1);
    }
  }

  /** The characters of the k low digits of n's rendering, built digit by
      digit (fewer when the rendering is shorter). */
  function LowDigitChars(n: nat, k: nat): (s: string)
    ensures AllDigits(s)
    decreases k
  {
    if k == 0 then []
    else if n < 10 then [DigitChar(n)]
    else LowDigitChars(n / 10, k - 1) + [DigitChar(n % 10)]
  }

  /** Taking the last k characters of a rendering keeps its k low digits. */
  lemma {:induction false} LowDigitCharsIsSuffix(n: nat, k: nat)
    ensures LastN(NatToDecimal(n), k) == LowDigitChars(n, k)
    decreases k
  {
    if k == 0 {
      assert LastN(NatToDecimal(n), k) == [];
    } else if n < 10 {
      LastNAppend([], DigitChar(n), k);
      assert [] + [DigitChar(n)] == NatToDecimal(n);
    } else {
      var t, c := NatToDecimal(n / 10), DigitChar(n % 10);
      assert NatToDecimal(n) == t + [c];
      assert LowDigitChars(n, k) == LowDigitChars(n / 10, k - 1) + [c];
      LowDigitCharsIsSuffix(n / 10, k - 1);
      LastNAppend(t, c, k);
    }
  }

  lemma {:induction false} LowDigitCharsValue(n: nat, k: nat)
    ensures DecimalValue(LowDigitChars(n, k)) == LowDigits(n, k)
    decreases k
  {
    if k == 0 {
    } else if n < 10 {
      DivModUnique(n, 10, 0, n);
      ZeroLowDigits(k - 1);
    } else {
      LowDigitCharsValue(n / 10, k - 1);
      DecimalValueAppend(LowDigitChars(n / 10, k - 1), DigitChar(n % 10));
    }
  }

  /** The last k characters of the rendering of n denote n modulo 10^k:
      a short rendering is kept whole, a long one keeps its k low digits. */
  lemma LastDigitsValue(n: nat, k: nat)
    ensures AllDigits(LastN(NatToDecimal(n), k))
    ensures DecimalValue(LastN(NatToDecimal(n), k)) == n % Pow10(k)
  {
    LowDigitCharsIsSuffix(n, k);
    LowDigitCharsValue(n, k);
    LowDigitsIsMod(n, k);
  }

  /** The rendering of n has at most k digits exactly when n < 10^k (k >= 1;
      zero still renders as one digit). */
  lemma {:induction false} DecimalLength(n: nat, k: nat)
    requires k >= 1
    ensures |NatToDecimal(n)| <= k <==> n < Pow10(k)
    decreases n
  {
    assert Pow10(k) == 10 * Pow10(k - 1);
    if n >= 10 && k >= 2 {
      DecimalLength(n / 10, k - 1);
    }
  }
}
