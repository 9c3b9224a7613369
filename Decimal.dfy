/**
 * Decimal numerals as JavaScript produces and reads them:
 * `Number.prototype.toString` on integers, `parseInt(s, 10)` and
 * `String.prototype.padStart`.
 */
module Decimal {
  import opened Wrappers
  import Text

  predicate IsDigit(c: char) {
    '0' <= c <= '9'
  }

  predicate AllDigits(s: string) {
    forall k :: 0 <= k < |s| ==> IsDigit(s[k])
  }

  function DigitValue(c: char): nat
    requires IsDigit(c)
  {
    c as int - '0' as int
  }

  function DigitChar(d: nat): (c: char)
    requires d < 10
    ensures IsDigit(c) && DigitValue(c) == d
  {
    (d + '0' as int) as char
  }

  function Pow10(k: nat): (p: nat)
    ensures p >= 1
  {
    if k == 0 then 1 else 10 * Pow10(k - 1)
  }

  /** A leading digit times its place value, plus a smaller remainder, stays below the next place value. */
  lemma LeadingDigitBound(d: nat, p: nat, rest: nat)
    requires d <= 9 && rest < p
    ensures d * p + rest < 10 * p
  {
    assert (9 - d) * p >= 0;
    assert d * p + (9 - d) * p == 9 * p;
  }

  /** The number a string of decimal digits denotes, most significant digit first; below 10^|s|. */
  function DigitsValue(s: string): (v: nat)
    requires AllDigits(s)
    ensures v < Pow10(|s|)
  {
    if s == [] then 0
    else
      var d, p, rest := DigitValue(s[0]), Pow10(|s| - 1), DigitsValue(s[1..]);
      LeadingDigitBound(d, p, rest);
      d * p + rest
  }

  /** Appending a digit multiplies by ten and adds it. */
  lemma {:induction false} DigitsValueAppend(s: string, c: char)
    requires AllDigits(s) && IsDigit(c)
    ensures AllDigits(s + [c]) && DigitsValue(s + [c]) == 10 * DigitsValue(s) + DigitValue(c)
  {
    var t := s + [c];
    assert AllDigits(t) by {
      forall k | 0 <= k < |t| ensures IsDigit(t[k]) {
        if k < |s| { assert t[k] == s[k]; }
      }
    }
    if s == [] {
      assert t == [c] && t[1..] == [];
    } else {
      assert t[1..] == s[1..] + [c];
      DigitsValueAppend(s[1..], c);
      var d, p, rs := DigitValue(s[0]), Pow10(|s| - 1), DigitsValue(s[1..]);
      assert t[0] == s[0];
      assert Pow10(|t| - 1) == 10 * p;
      assert DigitsValue(t[1..]) == 10 * rs + DigitValue(c);
      assert DigitsValue(s) == d * p + rs;
      assert DigitsValue(t) == d * (10 * p) + (10 * rs + DigitValue(c));
      ShiftDigit(d, p, rs, DigitValue(c));
    }
  }

  lemma ShiftDigit(d: int, p: int, rs: int, c: int)
    ensures d * (10 * p) + (10 * rs + c) == 10 * (d * p + rs) + c
  {
  }

  /** Leading zeros do not change the value. */
  lemma {:induction false} DigitsValueLeadingZeros(z: string, s: string)
    requires forall k :: 0 <= k < |z| ==> z[k] == '0'
    requires AllDigits(s)
    ensures AllDigits(z + s) && DigitsValue(z + s) == DigitsValue(s)
  {
    var t := z + s;
    assert AllDigits(t) by {
      forall k | 0 <= k < |t| ensures IsDigit(t[k]) {
        if k < |z| { assert t[k] == z[k]; } else { assert t[k] == s[k - |z|]; }
      }
    }
    if z == [] {
      assert t == s;
    } else {
      assert t[1..] == z[1..] + s;
      DigitsValueLeadingZeros(z[1..], s);
      assert DigitValue(t[0]) == 0;
      assert DigitsValue(t) == 0 * Pow10(|t| - 1) + DigitsValue(t[1..]);
    }
  }

  /** `n.toString()` for a natural number: no leading zero, at least one digit. */
  function NatToDecimal(n: nat): (s: string)
    ensures |s| >= 1 && AllDigits(s)
    ensures n > 0 ==> s[0] != '0'
  {
    if n < 10 then [DigitChar(n)] else NatToDecimal(n / 10) + [DigitChar(n % 10)]
  }

  /** `n.toString()` for any integer, within the range where JavaScript prints integers in full. */
  function IntToDecimal(i: int): string {
    if i < 0 then "-" + NatToDecimal(-i) else NatToDecimal(i)
  }

  /** Reading a numeral back gives the number (toString and its inverse). */
  lemma {:induction false} NatToDecimalValue(n: nat)
    ensures DigitsValue(NatToDecimal(n)) == n
  {
    if n >= 10 {
      NatToDecimalValue(n / 10);
      DigitsValueAppend(NatToDecimal(n / 10), DigitChar(n % 10));
    }
  }

  /** A number below 10^k has at most k digits. */
  lemma {:induction false} NatToDecimalLength(n: nat, k: nat)
    requires k >= 1 && n < Pow10(k)
    ensures |NatToDecimal(n)| <= k
  {
    if n >= 10 {
      NatToDecimalLength(n / 10, k - 1);
    }
  }

  /** `s.padStart(width, fill)`: never truncates, fills on the left up to `width`. */
  function PadStart(s: string, width: nat, fill: char): (r: string)
    ensures |r| == if |s| >= width then |s| else width
    ensures r[|r| - |s|..] == s
    ensures forall k :: 0 <= k < |r| - |s| ==> r[k] == fill
  {
    if |s| >= width then s else seq(width - |s|, _ => fill) + s
  }

  /** The longest run of digits at the front of `s`. */
  function LeadingDigits(s: string): (r: string)
    ensures AllDigits(r) && Text.StartsWith(s, r)
    ensures |r| == |s| || !IsDigit(s[|r|])
  {
    if s != [] && IsDigit(s[0]) then [s[0]] + LeadingDigits(s[1..]) else []
  }

  /**
   * `parseInt(s, 10)`: skip leading white space, read an optional sign and
   * the longest run of digits; None stands for NaN (no digit at all).
   */
  function ParseInt(s: string): Option<int> {
    var t := Text.TrimStart(s);
    var negative := t != [] && t[0] == '-';
    var body := if t != [] && (t[0] == '-' || t[0] == '+') then t[1..] else t;
    var digits := LeadingDigits(body);
    if digits == [] then None
    else
      var v: int := DigitsValue(digits);
      Some(if negative then -v else v)
  }

  /** parseInt reads a plain numeral exactly. */
  lemma ParseIntDigits(s: string)
    requires s != [] && AllDigits(s)
    ensures ParseInt(s) == Some(DigitsValue(s))
  {
    assert !Text.IsSpace(s[0]);
    assert Text.TrimStart(s) == s;
    LeadingDigitsAll(s);
  }

  lemma {:induction false} LeadingDigitsAll(s: string)
    requires AllDigits(s)
    ensures LeadingDigits(s) == s
  {
    if s != [] {
      LeadingDigitsAll(s[1..]);
    }
  }
}
