/** Character classes and digit strings, restricted to what the row parsers
    read: ASCII decimal digits and the whitespace `int()` strips. */
module Chars {

  predicate IsDigit(c: char) {
    '0' <= c <= '9'
  }

  predicate IsAsciiLetter(c: char) {
    'a' <= c <= 'z' || 'A' <= c <= 'Z'
  }

  /** The whitespace `int()` strips from both ends of its argument: the ASCII
      characters space and tab to carriage return, and every non-ASCII
      character for which `str.isspace()` is true. The separators U+001C to
      U+001F satisfy `str.isspace()` but are ASCII, so `int()` keeps them and
      rejects the text. */
  predicate IsIntSpace(c: char) {
    || '\t' <= c <= '\r'
    || c == ' ' || c == '\U{85}' || c == '\U{a0}' || c == '\U{1680}'
    || '\U{2000}' <= c <= '\U{200a}'
    || c == '\U{2028}' || c == '\U{2029}' || c == '\U{202f}' || c == '\U{205f}' || c == '\U{3000}'
  }

  predicate AllDigits(s: string) {
    forall i | 0 <= i < |s| :: IsDigit(s[i])
  }

  function DigitValue(c: char): (d: nat)
    requires IsDigit(c)
    ensures d < 10
  {
    c as int - '0' as int
  }

  function Pow10(k: nat): (p: nat)
    ensures p >= 1
  {
    if k == 0 then 1 else 10 * Pow10(k - 1)
  }

  /** The number a string of decimal digits denotes, most significant first. */
  function DigitsValue(s: string): nat
    requires AllDigits(s)
  {
    if s == [] then 0 else DigitsValue(s[..|s| - 1]) * 10 + DigitValue(s[|s| - 1])
  }

  /** Length of the longest run of digits at the start of `s`. */
  function LeadingDigits(s: string): (n: nat)
    ensures n <= |s|
    ensures AllDigits(s[..n])
    ensures n < |s| ==> !IsDigit(s[n])
  {
    if s == [] || !IsDigit(s[0]) then 0
    else
      var k := LeadingDigits(s[1..]);
      assert s[..k + 1] == [s[0]] + s[1..][..k];
      1 + k
  }

  /** A prefix made of digits only is no longer than the leading digit run. */
  lemma {:induction false} DigitPrefixWithinRun(s: string, n: nat)
    requires n <= |s| && AllDigits(s[..n])
    ensures n <= LeadingDigits(s)
    decreases n
  {
    if n > 0 {
      assert s[..n][0] == s[0];
      var t := s[1..];
      var u := t[..n - 1];
      forall i | 0 <= i < |u| ensures IsDigit(u[i]) {
        assert u[i] == s[..n][i + 1];
      }
      DigitPrefixWithinRun(t, n - 1);
    }
  }

  lemma AllDigitsAppend(a: string, b: string)
    requires AllDigits(a) && AllDigits(b)
    ensures AllDigits(a + b)
  {
    forall i | 0 <= i < |a + b| ensures IsDigit((a + b)[i]) {
      if i < |a| { assert (a + b)[i] == a[i]; } else { assert (a + b)[i] == b[i - |a|]; }
    }
  }

  lemma AllDigitsPrefix(s: string, n: nat)
    requires AllDigits(s) && n <= |s|
    ensures AllDigits(s[..n])
  {
    forall i | 0 <= i < n ensures IsDigit(s[..n][i]) { assert s[..n][i] == s[i]; }
  }

  /** (x * p + y) * 10 + d, regrouped: the step that appends one digit. */
  lemma ShiftStep(x: nat, p: nat, y: nat, d: nat)
    ensures (x * p + y) * 10 + d == x * (p * 10) + (y * 10 + d)
  {
    calc {
      (x * p + y) * 10 + d;
      x * p * 10 + y * 10 + d;
      { assert x * p * 10 == x * (p * 10); }
      x * (p * 10) + (y * 10 + d);
    }
  }

  /** Reading digits splits at any point: the high part is shifted by the
      length of the low part. */
  lemma {:induction false} DigitsValueAppend(a: string, b: string)
    requires AllDigits(a) && AllDigits(b)
    ensures AllDigits(a + b)
    ensures DigitsValue(a + b) == DigitsValue(a) * Pow10(|b|) + DigitsValue(b)
    decreases |b|
  {
    AllDigitsAppend(a, b);
    if b != [] {
      var n := |b| - 1;
      var b', c := b[..n], b[n];
      assert (a + b)[..|a + b| - 1] == a + b';
      assert (a + b)[|a + b| - 1] == c;
      AllDigitsPrefix(b, n);
      DigitsValueAppend(a, b');
      assert DigitsValue(a + b) == DigitsValue(a + b') * 10 + DigitValue(c);
      assert DigitsValue(b) == DigitsValue(b') * 10 + DigitValue(c);
      assert Pow10(|b|) == Pow10(n) * 10;
      ShiftStep(DigitsValue(a), Pow10(n), DigitsValue(b'), DigitValue(c));
    } else {
      assert a + b == a;
    }
  }

  /** The decimal rendering of a natural number, without leading zeros
      ("0" for zero). */
  function Render(n: nat): (s: string)
    ensures |s| > 0 && AllDigits(s)
    ensures DigitsValue(s) == n
  {
    var last := ['0' + (n % 10) as char];
    assert DigitValue(last[0]) == n % 10;
    if n < 10 then last
    else
      var high := Render(n / 10);
      DigitsValueAppend(high, last);
      assert DigitsValue(last) == n % 10 by { assert last[..0] == []; }
      high + last
  }
}
