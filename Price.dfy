/** Prices as the scraper reads them from a table cell: the leading match of
    the pattern `^\d+(,\d+)?`, with the comma read as the decimal point.
    (kos_sold_in_stgt.py:46-47 for the listing, 117-118 for the sales table.) */
module Price {
  import opened Chars
  import opened Errors

  /** The closed price band a listed certificate must fall in
      (kos_sold_in_stgt.py:12-13). */
  const MIN_PRICE: nat := 2
  const MAX_PRICE: nat := 20

  /** An exact decimal: `units / 10^scale`. "12,34" is Decimal(1234, 2). */
  datatype Decimal = Decimal(units: nat, scale: nat)

  function Value(d: Decimal): real {
    d.units as real / Pow10(d.scale) as real
  }

  /** The texts that the price pattern `\d+(,\d+)?` matches in full. */
  predicate IsPriceText(t: string) {
    || (|t| > 0 && AllDigits(t))
    || exists k | 0 < k < |t| - 1 :: t[k] == ',' && AllDigits(t[..k]) && AllDigits(t[k + 1..])
  }

  /** Length of the text `re.search(r'^\d+(,\d+)?', s)` matches; 0 when it
      finds nothing. The regex is greedy, and `(,\d+)?` is taken only when a
      digit follows the comma. */
  function MatchLength(s: string): (n: nat)
    ensures n <= |s|
    ensures n > 0 <==> |s| > 0 && IsDigit(s[0])
  {
    var i := LeadingDigits(s);
    if i == 0 then 0
    else if i + 1 < |s| && s[i] == ',' && IsDigit(s[i + 1]) then i + 1 + LeadingDigits(s[i + 1..])
    else i
  }

  lemma MatchLengthMatches(s: string)
    requires MatchLength(s) > 0
    ensures MatchLength(s) <= |s| && IsPriceText(s[..MatchLength(s)])
  {
    var i, n := LeadingDigits(s), MatchLength(s);
    if n != i {
      var t := s[..n];
      var tail := LeadingDigits(s[i + 1..]);
      assert t[..i] == s[..i];
      assert t[i + 1..] == s[i + 1..][..tail];
      assert t[i] == ',';
    }
  }

  /** `re.search(r'^\d+(,\d+)?', s).group()`, or None when the search fails. */
  function PriceMatch(s: string): (r: Option<string>)
    ensures r.Some? ==> |r.value| <= |s| && r.value == s[..|r.value|] && IsPriceText(r.value)
  {
    var n := MatchLength(s);
    if n == 0 then None
    else
      MatchLengthMatches(s);
      Some(s[..n])
  }

  /** A price text with a comma at `k` has its digit run end at `k` and a
      second run after it, of at least the remaining length. */
  lemma CommaMatchBound(s: string, n: nat, k: nat)
    requires n <= |s| && 0 < k < n - 1
    requires s[k] == ',' && AllDigits(s[..n][..k]) && AllDigits(s[..n][k + 1..])
    ensures k == LeadingDigits(s) && IsDigit(s[k + 1])
    ensures n - k - 1 <= LeadingDigits(s[k + 1..])
  {
    var t := s[..n];
    assert t[..k] == s[..k];
    DigitPrefixWithinRun(s, k);
    assert s[k + 1] == t[k + 1..][0];
    var u := s[k + 1..];
    assert u[..n - k - 1] == t[k + 1..];
    DigitPrefixWithinRun(u, n - k - 1);
  }

  /** Every prefix of `s` that the pattern matches in full is no longer than
      the match `PriceMatch` reports. */
  lemma MatchBound(s: string, n: nat)
    requires n <= |s| && IsPriceText(s[..n])
    ensures 0 < n <= MatchLength(s)
  {
    var t := s[..n];
    if |t| > 0 && AllDigits(t) {
      DigitPrefixWithinRun(s, n);
    } else {
      var k :| 0 < k < |t| - 1 && t[k] == ',' && AllDigits(t[..k]) && AllDigits(t[k + 1..]);
      CommaMatchBound(s, n, k);
    }
  }

  /** The regex match is the LONGEST prefix of `s` of the shape `\d+(,\d+)?`,
      and the search fails exactly when `s` does not start with a digit. */
  lemma PriceMatchIsLongest(s: string)
    ensures PriceMatch(s).Some? <==> |s| > 0 && IsDigit(s[0])
    ensures PriceMatch(s).Some? ==>
      forall n | |PriceMatch(s).value| < n <= |s| :: !IsPriceText(s[..n])
    ensures PriceMatch(s).None? ==> forall n | 0 <= n <= |s| :: !IsPriceText(s[..n])
  {
    forall n | 0 <= n <= |s| && IsPriceText(s[..n]) ensures 0 < n <= MatchLength(s) {
      MatchBound(s, n);
    }
    if |s| > 0 && IsDigit(s[0]) {
      assert IsPriceText(s[..1]);
    }
  }

  /** A non-digit bounds the leading digit run. */
  lemma NoDigitInsideRun(t: string, k: nat)
    requires k < |t| && !IsDigit(t[k])
    ensures LeadingDigits(t) <= k
  {
  }

  /** Conversely, the longest prefix of the pattern's shape is the match. */
  lemma LongestPrefixIsTheMatch(s: string, n: nat)
    requires n <= |s| && IsPriceText(s[..n])
    requires forall m | n < m <= |s| :: !IsPriceText(s[..m])
    ensures PriceMatch(s) == Some(s[..n])
  {
    MatchBound(s, n);
    MatchLengthMatches(s);
  }

  /** In a price text the leading digit run ends either at the end or at the
      comma, which digits follow. */
  lemma CommaEndsRun(t: string)
    requires IsPriceText(t) && LeadingDigits(t) < |t|
    ensures 0 < LeadingDigits(t) < |t| - 1 && t[LeadingDigits(t)] == ','
    ensures AllDigits(t[LeadingDigits(t) + 1..])
  {
    var i := LeadingDigits(t);
    if |t| > 0 && AllDigits(t) {
      assert false;
    } else {
      var k :| 0 < k < |t| - 1 && t[k] == ',' && AllDigits(t[..k]) && AllDigits(t[k + 1..]);
      DigitPrefixWithinRun(t, k);
      NoDigitInsideRun(t, k);
      assert k == i;
    }
  }

  /** `float(t.replace(',', '.'))` without rounding: the digits of `t`, with
      as many of them after the point as follow the comma. */
  function ReadDecimal(t: string): (d: Decimal)
    requires IsPriceText(t)
    ensures d.scale < |t|
    ensures d.scale == 0 <==> AllDigits(t)
    ensures d.scale > 0 ==> t[|t| - d.scale - 1] == ',' && AllDigits(t[|t| - d.scale..])
  {
    var i := LeadingDigits(t);
    if i == |t| then
      assert t[..i] == t;
      Decimal(DigitsValue(t), 0)
    else
      CommaEndsRun(t);
      DigitsValueAppend(t[..i], t[i + 1..]);
      Decimal(DigitsValue(t[..i] + t[i + 1..]), |t| - i - 1)
  }

  /** The comma is read as a decimal point: "a,b" has the value a + b/10^|b|. */
  lemma ReadDecimalValue(a: string, b: string)
    requires |a| > 0 && AllDigits(a) && |b| > 0 && AllDigits(b)
    ensures IsPriceText(a + [','] + b)
    ensures Value(ReadDecimal(a + [','] + b))
      == DigitsValue(a) as real + DigitsValue(b) as real / Pow10(|b|) as real
  {
    var d := ReadDecimalSplit(a, b);
    ShiftedValue(d, DigitsValue(a), DigitsValue(b));
  }

  lemma ReadDecimalSplit(a: string, b: string) returns (d: Decimal)
    requires |a| > 0 && AllDigits(a) && |b| > 0 && AllDigits(b)
    ensures IsPriceText(a + [','] + b) && d == ReadDecimal(a + [','] + b)
    ensures d.units == DigitsValue(a) * Pow10(|b|) + DigitsValue(b) && d.scale == |b|
  {
    var t := a + [','] + b;
    assert t[..|a|] == a && t[|a| + 1..] == b && t[|a|] == ',';
    assert IsPriceText(t);
    DigitPrefixWithinRun(t, |a|);
    NoDigitInsideRun(t, |a|);
    assert LeadingDigits(t) == |a|;
    assert t[..|a|] + t[|a| + 1..] == a + b;
    DigitsValueAppend(a, b);
    d := ReadDecimal(t);
    assert d == Decimal(DigitsValue(a + b), |b|);
  }

  lemma ShiftedValue(d: Decimal, x: nat, y: nat)
    requires d.units == x * Pow10(d.scale) + y
    ensures Value(d) == x as real + y as real / Pow10(d.scale) as real
  {
    var k := d.scale;
    var p := Pow10(k);
    assert (x * p + y) as real == x as real * p as real + y as real;
    var q := p as real;
    assert (x as real + y as real / q) * q == x as real * q + y as real;
  }

  lemma QuotientBound(c: real, u: real, p: real)
    requires p > 0.0
    ensures c <= u / p <==> c * p <= u
    ensures u / p <= c <==> u <= c * p
  {
    assert u / p * p == u;
    if c <= u / p {
      assert c * p <= u / p * p;
    }
    if u / p <= c {
      assert u / p * p <= c * p;
    }
  }

  /** A text of digits alone is read as the whole number it spells. */
  lemma ReadDecimalWhole(a: string)
    requires |a| > 0 && AllDigits(a)
    ensures IsPriceText(a) && ReadDecimal(a) == Decimal(DigitsValue(a), 0)
  {
    assert a[..|a|] == a;
    DigitPrefixWithinRun(a, |a|);
  }

  /** The price of a cell, or the error the scraper raises for it. */
  function ParsePrice(s: string): (r: Result<Decimal>)
    ensures r.Ok? <==> |s| > 0 && IsDigit(s[0])
    ensures r.Err? ==> r.error == NoPriceMatch(s)
  {
    match PriceMatch(s)
    case None => Err(NoPriceMatch(s))
    case Some(t) => Ok(ReadDecimal(t))
  }

  /** `MIN_PRICE <= price <= MAX_PRICE`, decided on the exact decimal. */
  predicate InBand(d: Decimal) {
    MIN_PRICE * Pow10(d.scale) <= d.units <= MAX_PRICE * Pow10(d.scale)
  }

  /** The integer test InBand is the comparison of the decimal's value with
      both inclusive bounds. */
  lemma InBandIsValueInBand(d: Decimal)
    ensures InBand(d) <==> MIN_PRICE as real <= Value(d) <= MAX_PRICE as real
  {
    var p := Pow10(d.scale);
    QuotientBound(MIN_PRICE as real, d.units as real, p as real);
    QuotientBound(MAX_PRICE as real, d.units as real, p as real);
    assert (MIN_PRICE * p) as real == MIN_PRICE as real * p as real;
    assert (MAX_PRICE * p) as real == MAX_PRICE as real * p as real;
  }

  /** "12,34 €": the comma and the digits after it belong to the price, the
      currency sign does not. */
  lemma FractionExample()
    ensures ParsePrice("12,34 €") == Ok(Decimal(1234, 2))
  {
    FractionMatch();
    FractionValue();
  }

  lemma FractionMatch()
    ensures PriceMatch("12,34 €") == Some("12,34")
  {
    var s := "12,34 €";
    assert s[3..] == "34 €";
    assert LeadingDigits("34 €") == 2;
    assert s[..5] == "12,34";
  }

  lemma FractionValue()
    ensures IsPriceText("12,34") && ReadDecimal("12,34") == Decimal(1234, 2)
  {
    var d := ReadDecimalSplit("12", "34");
    assert "12" + [','] + "34" == "12,34";
  }

  /** "5": a whole number has scale zero. */
  lemma WholeExample()
    ensures ParsePrice("5") == Ok(Decimal(5, 0))
  {
    assert "5"[..1] == "5";
    ReadDecimalWhole("5");
  }

  /** "12,": a comma with no digit after it is not part of the price. */
  lemma TrailingCommaExample()
    ensures ParsePrice("12,") == Ok(Decimal(12, 0))
  {
    assert "12,"[..2] == "12";
    ReadDecimalWhole("12");
  }

  /** "€ 5": a cell that does not start with a digit has no price. */
  lemma NoDigitExample()
    ensures ParsePrice("€ 5") == Err(NoPriceMatch("€ 5"))
  {
  }

  /** The lower bound is inclusive: 2,00 is in the band. */
  lemma LowerBoundIn()
    ensures InBand(ParsePrice("2,00").value)
  {
    BandExample("2", "00", 200);
    assert "2" + [','] + "00" == "2,00";
  }

  /** Below the lower bound: 1,99 is out of the band. */
  lemma LowerBoundOut()
    ensures !InBand(ParsePrice("1,99").value)
  {
    BandExample("1", "99", 199);
    assert "1" + [','] + "99" == "1,99";
  }

  /** The upper bound is inclusive: 20,00 is in the band. */
  lemma UpperBoundIn()
    ensures InBand(ParsePrice("20,00").value)
  {
    BandExample("20", "00", 2000);
    assert "20" + [','] + "00" == "20,00";
  }

  /** Above the upper bound: 20,01 is out of the band. */
  lemma UpperBoundOut()
    ensures !InBand(ParsePrice("20,01").value)
  {
    BandExample("20", "01", 2001);
    assert "20" + [','] + "01" == "20,01";
  }

  lemma BandExample(a: string, b: string, units: nat)
    requires |a| > 0 && AllDigits(a) && |b| == 2 && AllDigits(b)
    requires DigitsValue(a) * 100 + DigitsValue(b) == units
    ensures ParsePrice(a + [','] + b) == Ok(Decimal(units, 2))
  {
    var s := a + [','] + b;
    var d := ReadDecimalSplit(a, b);
    assert s[..|s|] == s;
    LongestPrefixIsTheMatch(s, |s|);
    assert Pow10(2) == 100;
  }
}
