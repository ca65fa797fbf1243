/**
 Java `int` semantics: 32-bit two's-complement values, the wrapping `*` and `-`
 operators, and the decimal text `Integer.toString` produces for a value.
 */
module JavaInt {
  import opened Wrappers

  const MIN: int := -0x8000_0000
  const MAX: int := 0x7fff_ffff
  const MODULUS: int := 0x1_0000_0000

  /** The values of a Java `int`. */
  type Int32 = x: int | MIN <= x <= MAX

  /** Two values are congruent when they agree in their low 32 bits. */
  ghost predicate Congruent(x: int, y: int) {
    (x - y) % MODULUS == 0
  }

  /** Reduces an exact integer to the Java `int` that has the same low 32 bits. */
  function Wrap(x: int): (r: Int32)
    ensures Congruent(r, x)
    ensures MIN <= x <= MAX ==> r == x
  {
    var d := (x - MIN) % MODULUS;
    var q := (x - MIN) / MODULUS;
    assert x - MIN == q * MODULUS + d;
    assert (d + MIN - x) == -q * MODULUS;
    LemmaMultipleMod(-q);
    d + MIN
  }

  lemma LemmaMultipleMod(k: int)
    ensures (k * MODULUS) % MODULUS == 0
  {
  }

  /** Only one Java `int` is congruent to a given integer, so `Wrap` is the
      reduction, not merely a reduction. */
  lemma {:induction false} WrapUnique(x: int, y: Int32)
    requires Congruent(y, x)
    ensures y == Wrap(x)
  {
    var w := Wrap(x);
    var qy := (y - x) / MODULUS;
    var qw := (w - x) / MODULUS;
    assert y - x == qy * MODULUS;
    assert w - x == qw * MODULUS;
    assert y - w == (qy - qw) * MODULUS;
    if qy - qw >= 1 {
      assert false;
    } else if qy - qw <= -1 {
      assert false;
    }
  }

  /** Java `a * b` on two `int`s. */
  function MulInt(a: Int32, b: Int32): (r: Int32)
    ensures Congruent(r, a * b)
    ensures MIN <= a * b <= MAX ==> r == a * b
  {
    Wrap(a * b)
  }

  /** Java `a - b` on two `int`s. */
  function SubInt(a: Int32, b: Int32): (r: Int32)
    ensures Congruent(r, a - b)
    ensures MIN <= a - b <= MAX ==> r == a - b
  {
    Wrap(a - b)
  }

  /** Subtracting a value from itself never overflows. */
  lemma SubSelf(a: Int32)
    ensures SubInt(a, a) == 0
  {
  }

  /** Overflow wraps silently instead of failing. */
  lemma OverflowExamples()
    ensures MulInt(0x1_0000, 0x1_0000) == 0
    ensures MulInt(MIN, -1) == MIN
    ensures MulInt(MAX, 2) == -2
    ensures SubInt(MIN, 1) == MAX
    ensures SubInt(0, MIN) == MIN
  {
  }

  // ---------------------------------------------------------------------------
  // Decimal rendering (Integer.toString) and its reader

  predicate IsDigit(c: char) {
    '0' <= c <= '9'
  }

  function DigitChar(d: nat): (c: char)
    requires d < 10
    ensures IsDigit(c)
  {
    "0123456789"[d]
  }

  function DigitValue(c: char): (d: nat)
    requires IsDigit(c)
    ensures d < 10
  {
    (c as int - '0' as int) as nat
  }

  lemma DigitRoundTrip(d: nat)
    requires d < 10
    ensures DigitValue(DigitChar(d)) == d
  {
  }

  predicate AllDigits(s: string) {
    forall i :: 0 <= i < |s| ==> IsDigit(s[i])
  }

  /** The shortest decimal digit string of a natural number (no leading zeros). */
  function Digits(n: nat): (s: string)
    ensures |s| > 0 && AllDigits(s)
    decreases n
  {
    if n < 10 then [DigitChar(n)] else Digits(n / 10) + [DigitChar(n % 10)]
  }

  /** The number a non-empty digit string denotes. */
  function DigitsValue(s: string): nat
    requires AllDigits(s)
    decreases |s|
  {
    if |s| == 0 then 0
    else DigitsValue(s[..|s| - 1]) * 10 + DigitValue(s[|s| - 1])
  }

  lemma {:induction false} DigitsRoundTrip(n: nat)
    ensures DigitsValue(Digits(n)) == n
    decreases n
  {
    var s := Digits(n);
    if n < 10 {
      DigitRoundTrip(n);
    } else {
      assert s[..|s| - 1] == Digits(n / 10);
      DigitsRoundTrip(n / 10);
      DigitRoundTrip(n % 10);
    }
  }

  /** The text Java's `Integer.toString` gives for a value: a minus sign for
      negative values, then the digits of the magnitude. */
  function Decimal(x: int): (s: string)
    ensures |s| > 0
    ensures s[0] == '-' <==> x < 0
    ensures forall i :: 0 <= i < |s| ==> IsDigit(s[i]) || s[i] == '-'
  {
    if x < 0 then "-" + Digits(-x) else Digits(x)
  }

  /** Reads back a decimal numeral as `Decimal` writes it. */
  function ParseDecimal(s: string): (r: Option<int>)
    ensures r.Some? ==> |s| > 0
  {
    if |s| > 1 && s[0] == '-' && AllDigits(s[1..]) then Some(0 - DigitsValue(s[1..]) as int)
    else if |s| > 0 && AllDigits(s) then Some(DigitsValue(s))
    else None
  }

  /** Reading the rendering of a value gives back that value. */
  lemma {:induction false} DecimalRoundTrip(x: int)
    ensures ParseDecimal(Decimal(x)) == Some(x)
  {
    var s := Decimal(x);
    if x < 0 {
      var d := Digits(-x);
      assert s == "-" + d;
      assert s[1..] == d;
      DigitsRoundTrip(-x);
    } else {
      assert s == Digits(x);
      assert IsDigit(s[0]);
      DigitsRoundTrip(x);
    }
  }

  /** Distinct values render differently. */
  /** The digit string has no leading zero: it is "0" only for zero and
      otherwise starts with a non-zero digit. */
  lemma {:induction false} DigitsCanonical(n: nat)
    ensures n == 0 ==> Digits(n) == "0"
    ensures n > 0 ==> Digits(n)[0] != '0'
    decreases n
  {
    if n >= 10 {
      DigitsCanonical(n / 10);
      assert Digits(n)[0] == Digits(n / 10)[0];
    }
  }

  /** `Decimal` writes the canonical numeral: "0" for zero, no leading zero
      otherwise, and no "-0". With `DecimalRoundTrip` this fixes the text. */
  lemma {:induction false} DecimalCanonical(x: int)
    ensures x == 0 ==> Decimal(x) == "0"
    ensures x > 0 ==> Decimal(x)[0] != '0'
    ensures x < 0 ==> |Decimal(x)| > 1 && Decimal(x)[1] != '0'
  {
    if x < 0 {
      DigitsCanonical(-x);
      assert Decimal(x)[1] == Digits(-x)[0];
    } else {
      DigitsCanonical(x);
    }
  }

  lemma DecimalInjective(x: int, y: int)
    requires Decimal(x) == Decimal(y)
    ensures x == y
  {
    DecimalRoundTrip(x);
    DecimalRoundTrip(y);
  }

  lemma DecimalExamples()
    ensures Decimal(0) == "0"
    ensures Decimal(30) == "30"
    ensures Decimal(-11) == "-11"
  {
  }
}
