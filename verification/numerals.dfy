/** Decimal numerals: the digit strings Python's `int()` accepts in this model and
    the zero-padded rendering of the format specifier `04d`. */
module Numerals {
  import opened Strings

  predicate IsDigit(c: char) {
    '0' <= c <= '9'
  }

  predicate AllDigits(s: string) {
    forall i :: 0 <= i < |s| ==> IsDigit(s[i])
  }

  /** A non-empty run of ASCII digits (leading zeros allowed, as `int("02")` is). */
  predicate IsNumeral(s: string) {
    |s| > 0 && AllDigits(s)
  }

  /** A numeral holds no character other than digits. */
  lemma NumeralExcludes(s: string, c: char)
    requires IsNumeral(s) && !IsDigit(c)
    ensures c !in s
  {
  }

  function DigitValue(c: char): (d: nat)
    requires IsDigit(c)
    ensures d < 10
  {
    c as int - '0' as int
  }

  function DigitChar(d: nat): (c: char)
    requires d < 10
    ensures IsDigit(c) && DigitValue(c) == d
  {
    ('0' as int + d) as char
  }

  function Pow10(k: nat): (p: nat)
    ensures p >= 1
  {
    if k == 0 then 1 else 10 * Pow10(k - 1)
  }

  /** The number a digit string denotes, most significant digit first. */
  function Value(s: string): nat
    requires AllDigits(s)
    decreases |s|
  {
    if |s| == 0 then 0 else Value(s[..|s| - 1]) * 10 + DigitValue(s[|s| - 1])
  }

  /** The shortest decimal numeral of `n`, as Python's `str(n)` prints it. */
  function Decimal(n: nat): (s: string)
    ensures IsNumeral(s) && Value(s) == n
    ensures s[0] == '0' ==> s == "0"
    decreases n
  {
    if n < 10 then [DigitChar(n)]
    else
      var s := Decimal(n / 10) + [DigitChar(n % 10)];
      assert s[..|s| - 1] == Decimal(n / 10);
      s
  }

  /** `s` with `'0'` prepended until it is at least `width` long. */
  function ZeroPad(s: string, width: nat): (r: string)
    ensures |r| == if |s| >= width then |s| else width
    ensures r[|r| - |s|..] == s
    ensures forall i :: 0 <= i < |r| - |s| ==> r[i] == '0'
    decreases width
  {
    if |s| >= width then s else ['0'] + ZeroPad(s, width - 1)
  }

  /** Python's `f"{n:0{width}d}"`: the decimal numeral of `n`, zero-padded on the
      left to `width` characters and never truncated. */
  function Format(n: nat, width: nat): (r: string)
    ensures IsNumeral(r) && Value(r) == n
    ensures width >= 1 && n < Pow10(width) ==> |r| == width
  {
    var d := Decimal(n);
    var r := ZeroPad(d, width);
    assert r == r[..|r| - |d|] + d;
    ValueLeadingZeros(r[..|r| - |d|], d);
    if width >= 1 && n < Pow10(width) then DecimalLength(n, width); r else r
  }

  /** Reading a numeral from its most significant digit. */
  lemma {:induction false} ValueFront(s: string)
    requires |s| > 0 && AllDigits(s)
    ensures Value(s) == DigitValue(s[0]) * Pow10(|s| - 1) + Value(s[1..])
    decreases |s|
  {
    if |s| > 1 {
      var init := s[..|s| - 1];
      ValueFront(init);
      assert init[1..] == s[1..][..|s| - 2];
      assert init[0] == s[0];
      calc {
        Value(s);
        Value(init) * 10 + DigitValue(s[|s| - 1]);
        (DigitValue(s[0]) * Pow10(|s| - 2) + Value(init[1..])) * 10 + DigitValue(s[|s| - 1]);
        DigitValue(s[0]) * (Pow10(|s| - 2) * 10) + (Value(init[1..]) * 10 + DigitValue(s[|s| - 1]));
        DigitValue(s[0]) * Pow10(|s| - 1) + Value(s[1..]);
      }
    }
  }

  /** A numeral of k digits denotes less than 10^k. */
  lemma {:induction false} ValueBound(s: string)
    requires AllDigits(s)
    ensures Value(s) < Pow10(|s|)
    decreases |s|
  {
    if |s| > 0 {
      ValueBound(s[..|s| - 1]);
      assert Value(s) <= (Pow10(|s| - 1) - 1) * 10 + 9;
    }
  }

  /** Leading zeros do not change the value. */
  lemma {:induction false} ValueLeadingZeros(z: string, s: string)
    requires forall i :: 0 <= i < |z| ==> z[i] == '0'
    requires AllDigits(s)
    ensures AllDigits(z + s) && Value(z + s) == Value(s)
    decreases |z|
  {
    if |z| > 0 {
      ValueLeadingZeros(z[1..], s);
      assert (z + s)[1..] == z[1..] + s;
      assert (z + s)[0] == '0';
      assert AllDigits(z + s);
      ValueFront(z + s);
    } else {
      assert z + s == s;
    }
  }

  /** A number below 10^k needs at most k digits. */
  lemma {:induction false} DecimalLength(n: nat, k: nat)
    requires k >= 1 && n < Pow10(k)
    ensures |Decimal(n)| <= k
    decreases k
  {
    if n >= 10 {
      DecimalLength(n / 10, k - 1);
    }
  }

  /** Multiplication by a natural number is monotone. */
  lemma {:induction false} MulMonotone(a: nat, b: nat, p: nat)
    requires a <= b
    ensures a * p <= b * p
    decreases b - a
  {
    if a < b {
      MulMonotone(a, b - 1, p);
      assert b * p == (b - 1) * p + p;
    }
  }

  /** A smaller leading digit outweighs whatever follows it. */
  lemma LeadingDigitDominates(c: nat, d: nat, p: nat, x: nat, y: nat)
    requires c < d && x < p
    ensures c * p + x < d * p + y
  {
    MulMonotone(c + 1, d, p);
    assert (c + 1) * p == c * p + p;
  }

  /** For numerals of equal length, string order is numeric order: this is what
      makes zero padding turn `<` on strings into `<` on numbers. */
  lemma {:induction false} NumeralOrder(s: string, t: string)
    requires |s| == |t| && AllDigits(s) && AllDigits(t)
    ensures Less(s, t) <==> Value(s) < Value(t)
    decreases |s|
  {
    if |s| > 0 {
      ValueFront(s);
      ValueFront(t);
      ValueBound(s[1..]);
      ValueBound(t[1..]);
      NumeralOrder(s[1..], t[1..]);
      var p := Pow10(|s| - 1);
      var c, d := DigitValue(s[0]), DigitValue(t[0]);
      if c < d {
        LeadingDigitDominates(c, d, p, Value(s[1..]), Value(t[1..]));
      } else if d < c {
        LeadingDigitDominates(d, c, p, Value(t[1..]), Value(s[1..]));
      }
    }
  }
}
