/**
 Decimal digit strings: the `\d+` runs of a version string, their value as
 Python's `int()` reads them, and the decimal text of a number as `str()`
 writes it. Only the ASCII digits '0'..'9' count as digits, as for a
 byte-string pattern in Python 2's `re` without the UNICODE flag.
 */
module Digits {

  predicate IsDigit(c: char) {
    '0' <= c <= '9'
  }

  /** Every character of `s` is a digit (the empty string included). */
  predicate AllDigits(s: string) {
    forall k :: 0 <= k < |s| ==> IsDigit(s[k])
  }

  /** A run that `\d+` can match: at least one digit, and nothing else. */
  predicate IsDigitRun(s: string) {
    |s| > 0 && AllDigits(s)
  }

  function DigitValue(c: char): (v: nat)
    requires IsDigit(c)
    ensures v < 10
  {
    c as int - '0' as int
  }

  function DigitChar(d: nat): (c: char)
    requires d < 10
    ensures IsDigit(c) && DigitValue(c) == d
  {
    ('0' as int + d) as char
  }

  function Pow10(n: nat): (p: nat)
    ensures p > 0
  {
    if n == 0 then 1 else 10 * Pow10(n - 1)
  }

  lemma {:induction false} Pow10Monotone(m: nat, n: nat)
    requires m <= n
    ensures Pow10(m) <= Pow10(n)
    decreases n - m
  {
    if m < n {
      Pow10Monotone(m, n - 1);
    }
  }

  lemma {:induction false} Pow10Add(m: nat, n: nat)
    ensures Pow10(m + n) == Pow10(m) * Pow10(n)
    decreases m
  {
    if m > 0 {
      Pow10Add(m - 1, n);
      assert m - 1 + n == m + n - 1;
    }
  }

  /** The value of a digit string read in base ten, as `int()` reads it:
      leading zeros are allowed and there is no upper bound. */
  function DecimalValue(s: string): (v: nat)
    requires AllDigits(s)
    ensures v < Pow10(|s|)
    decreases |s|
  {
    if s == [] then 0
    else
      assert AllDigits(s[..|s| - 1]);
      10 * DecimalValue(s[..|s| - 1]) + DigitValue(s[|s| - 1])
  }

  /** The decimal text of `n` as `str()` writes it: no sign, no leading zero. */
  function NatToDigits(n: nat): (s: string)
    ensures IsDigitRun(s)
    ensures |s| > 1 ==> s[0] != '0'
    decreases n
  {
    if n < 10 then [DigitChar(n)]
    else NatToDigits(n / 10) + [DigitChar(n % 10)]
  }

  /** Reading back the text `str()` writes gives the number again. */
  lemma {:induction false} DecimalValueOfNatToDigits(n: nat)
    ensures DecimalValue(NatToDigits(n)) == n
    decreases n
  {
    var s := NatToDigits(n);
    if n >= 10 {
      DecimalValueOfNatToDigits(n / 10);
      assert s[..|s| - 1] == NatToDigits(n / 10);
    }
  }

  /** A leading zero does not change the value of a digit string. */
  lemma {:induction false} LeadingZeroIgnored(s: string)
    requires AllDigits(s)
    ensures AllDigits("0" + s) && DecimalValue("0" + s) == DecimalValue(s)
    decreases |s|
  {
    var z := "0" + s;
    assert AllDigits(z) by {
      forall k | 0 <= k < |z| ensures IsDigit(z[k]) {
        if k > 0 { assert z[k] == s[k - 1]; }
      }
    }
    if s != [] {
      var init := s[..|s| - 1];
      assert AllDigits(init);
      LeadingZeroIgnored(init);
      assert z[..|z| - 1] == "0" + init;
    }
  }

  /** Splits `s` after its longest run of leading digits: what a greedy
      `\d+` (or `\d*`) consumes at the start of `s`, and what it leaves. */
  function DigitSplit(s: string): (r: (string, string))
    ensures r.0 + r.1 == s
    ensures AllDigits(r.0)
    ensures r.1 == [] || !IsDigit(r.1[0])
    decreases |s|
  {
    if s != [] && IsDigit(s[0]) then
      var r := DigitSplit(s[1..]);
      assert [s[0]] + r.0 + r.1 == [s[0]] + (r.0 + r.1);
      ([s[0]] + r.0, r.1)
    else
      ([], s)
  }

  /** A run of digits in front of `t` joins the run that `DigitSplit` takes
      from `t`, and the rest is the same. */
  lemma {:induction false} DigitSplitAppend(d: string, t: string)
    requires AllDigits(d)
    ensures DigitSplit(d + t) == (d + DigitSplit(t).0, DigitSplit(t).1)
    decreases |d|
  {
    if d == [] {
      assert d + t == t && d + DigitSplit(t).0 == DigitSplit(t).0;
    } else {
      var s := d + t;
      assert s[0] == d[0] && s[1..] == d[1..] + t;
      assert AllDigits(d[1..]);
      DigitSplitAppend(d[1..], t);
      assert [d[0]] + (d[1..] + DigitSplit(t).0) == d + DigitSplit(t).0;
    }
  }

  /** So a run of digits followed by a non-digit is split off exactly. */
  lemma DigitSplitExact(d: string, t: string)
    requires AllDigits(d) && (t == [] || !IsDigit(t[0]))
    ensures DigitSplit(d + t) == (d, t)
  {
    DigitSplitAppend(d, t);
    assert d + [] == d;
  }
}
