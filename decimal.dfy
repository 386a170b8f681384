/**
 * Non-negative integers written as ASCII decimal digits: the text Python's
 * `str()` and `'%0Nd'` formatting produce, and the value of such a text.
 */
module Decimal {
  import opened Wrappers
  import opened StringOrder

  predicate IsDigit(c: char) { '0' <= c <= '9' }

  predicate AllDigits(s: string) { forall i :: 0 <= i < |s| ==> IsDigit(s[i]) }

  function DigitValue(c: char): (v: nat)
    requires IsDigit(c)
    ensures v < 10
  {
    c as int - '0' as int
  }

  function DigitChar(v: nat): (c: char)
    requires v < 10
    ensures IsDigit(c) && DigitValue(c) == v
  {
    ('0' as int + v) as char
  }

  function Pow10(n: nat): (p: nat)
    ensures p >= 1
  {
    if n == 0 then 1 else 10 * Pow10(n - 1)
  }

  /** The number a digit string denotes; it is below 10 to the power of its length. */
  function Value(s: string): (v: nat)
    requires AllDigits(s)
    ensures v < Pow10(|s|)
  {
    if |s| == 0 then 0
    else
      var v' := Value(s[..|s| - 1]);
      assert v' <= Pow10(|s| - 1) - 1;
      10 * v' + DigitValue(s[|s| - 1])
  }

  /** `'%0*d' % (width, n)` for an n that fits: exactly `width` digits denoting n. */
  function Digits(n: nat, width: nat): (s: string)
    ensures |s| == width && AllDigits(s)
    ensures n < Pow10(width) ==> Value(s) == n
  {
    if width == 0 then []
    else
      var s := Digits(n / 10, width - 1) + [DigitChar(n % 10)];
      assert s[..width - 1] == Digits(n / 10, width - 1);
      s
  }

  /** The number of digits `str(n)` prints. */
  function Width(n: nat): (w: nat)
    ensures 1 <= w && n < Pow10(w)
    ensures n >= Pow10(w - 1) || w == 1
  {
    if n < 10 then 1 else 1 + Width(n / 10)
  }

  /** `str(n)` for a non-negative int. */
  function Text(n: nat): (s: string)
    ensures |s| > 0 && AllDigits(s) && Value(s) == n
  {
    Digits(n, Width(n))
  }

  /** Reading a non-empty string of ASCII digits (leading zeros allowed) as a number. */
  function ParseNat(s: string): (r: Option<nat>)
    ensures r.Some? <==> |s| > 0 && AllDigits(s)
  {
    if |s| > 0 && AllDigits(s) then Some(Value(s)) else None
  }

  /** Printing a number and reading it back gives the number. */
  lemma ParseText(n: nat)
    ensures ParseNat(Text(n)) == Some(n)
  {
  }

  /** Two different numbers never print as the same text. */
  lemma TextInjective(m: nat, n: nat)
    requires m != n
    ensures Text(m) != Text(n)
  {
    ParseText(m);
    ParseText(n);
  }

  /** Reading a digit string and printing it back at the same width gives the string. */
  lemma {:induction false} DigitsOfValue(s: string)
    requires AllDigits(s)
    ensures Digits(Value(s), |s|) == s
  {
    if |s| > 0 {
      var init := s[..|s| - 1];
      DigitsOfValue(init);
      var v := Value(s);
      assert v / 10 == Value(init) && v % 10 == DigitValue(s[|s| - 1]);
      assert s == init + [s[|s| - 1]];
    }
  }

  /** The value of a digit string read from its leading digit. */
  lemma {:induction false} ValueFront(s: string)
    requires AllDigits(s) && |s| > 0
    ensures Value(s) == DigitValue(s[0]) * Pow10(|s| - 1) + Value(s[1..])
  {
    var n := |s|;
    if n > 1 {
      var init := s[..n - 1];
      ValueFront(init);
      assert init[1..] == s[1..n - 1] == s[1..][..n - 2];
      assert init[0] == s[0];
      ShiftDigit(DigitValue(s[0]), Pow10(n - 2), Value(s[1..n - 1]), DigitValue(s[n - 1]));
    } else {
      assert s[1..] == [];
    }
  }

  lemma ShiftDigit(d: int, q: int, r: int, l: int)
    ensures 10 * (d * q + r) + l == d * (10 * q) + (10 * r + l)
  {
  }

  /** A smaller leading digit outweighs whatever follows it. */
  lemma LeadingDigitDominates(da: nat, db: nat, p: nat, ra: nat, rb: nat)
    requires da < db && ra < p
    ensures da * p + ra < db * p + rb
  {
    assert (da + 1) * p <= db * p by {
      MulLeft(da + 1, db, p);
    }
  }

  lemma MulLeft(x: nat, y: nat, p: nat)
    requires x <= y
    ensures x * p <= y * p
  {
  }

  /**
   * For digit strings of the same length, comparing them as Python strings
   * is comparing the numbers they denote, and equal texts are equal numbers.
   */
  lemma {:induction false} LexLessIsNumericLess(a: string, b: string)
    requires |a| == |b| && AllDigits(a) && AllDigits(b)
    ensures LexLess(a, b) <==> Value(a) < Value(b)
    ensures a == b <==> Value(a) == Value(b)
    decreases |a|
  {
    if |a| > 0 {
      var p := Pow10(|a| - 1);
      ValueFront(a);
      ValueFront(b);
      LexLessIsNumericLess(a[1..], b[1..]);
      var da, db := DigitValue(a[0]), DigitValue(b[0]);
      if da < db {
        LeadingDigitDominates(da, db, p, Value(a[1..]), Value(b[1..]));
      } else if db < da {
        LeadingDigitDominates(db, da, p, Value(b[1..]), Value(a[1..]));
      } else {
        assert a[0] == b[0];
        assert a == b <==> a[1..] == b[1..] by {
          assert a == [a[0]] + a[1..] && b == [b[0]] + b[1..];
        }
      }
    }
  }
}
