/** The traded volume of a sales row: `int(text.replace('.', ''))`
    (kos_sold_in_stgt.py:112). The site writes thousands with a dot
    ("1.000"); the dots are dropped and Python's `int()` reads the rest. */
module Volume {
  import opened Chars
  import opened Errors

  /** `s.replace([c], '')`: `s` with every occurrence of `c` deleted. */
  function Without(s: string, c: char): (r: string)
    ensures |r| <= |s|
    ensures forall i | 0 <= i < |r| :: r[i] != c && r[i] in s
  {
    if s == [] then []
    else
      var rest := Without(s[1..], c);
      assert forall x | x in s[1..] :: x in s;
      if s[0] == c then rest else [s[0]] + rest
  }

  /** Deleting a character commutes with concatenation. */
  lemma {:induction false} WithoutAppend(a: string, b: string, c: char)
    ensures Without(a + b, c) == Without(a, c) + Without(b, c)
    decreases |a|
  {
    if a != [] {
      assert (a + b)[1..] == a[1..] + b;
      WithoutAppend(a[1..], b, c);
    } else {
      assert a + b == b;
    }
  }

  /** Deleting a character that does not occur changes nothing. */
  lemma {:induction false} WithoutAbsent(s: string, c: char)
    requires c !in s
    ensures Without(s, c) == s
  {
    if s != [] {
      assert c !in s[1..];
      WithoutAbsent(s[1..], c);
      assert [s[0]] + s[1..] == s;
    }
  }

  /** `s` without its leading whitespace. */
  function TrimStart(s: string): (r: string)
    ensures |r| <= |s| && r == s[|s| - |r|..]
    ensures forall i | 0 <= i < |s| - |r| :: IsIntSpace(s[i])
    ensures r != [] ==> !IsIntSpace(r[0])
  {
    if s != [] && IsIntSpace(s[0]) then TrimStart(s[1..]) else s
  }

  /** `s` without its trailing whitespace. */
  function TrimEnd(s: string): (r: string)
    ensures |r| <= |s| && r == s[..|r|]
    ensures forall i | |r| <= i < |s| :: IsIntSpace(s[i])
    ensures r != [] ==> !IsIntSpace(r[|r| - 1])
  {
    if s != [] && IsIntSpace(s[|s| - 1]) then TrimEnd(s[..|s| - 1]) else s
  }

  /** The digits of a base-10 literal as `int()` accepts them: digits, with
      single underscores allowed between two digits. */
  predicate IsDigitGroups(b: string) {
    && |b| > 0 && IsDigit(b[0]) && IsDigit(b[|b| - 1])
    && (forall i | 0 <= i < |b| :: IsDigit(b[i]) || b[i] == '_')
    && (forall i | 0 <= i < |b| - 1 :: b[i] == '_' ==> b[i + 1] != '_')
  }

  /** The number spelled by accepted digit groups. */
  function GroupsValue(b: string): (n: nat)
    requires IsDigitGroups(b)
  {
    var digits := Without(b, '_');
    assert AllDigits(digits) by {
      forall i | 0 <= i < |digits| ensures IsDigit(digits[i]) {
        var k :| 0 <= k < |b| && b[k] == digits[i];
      }
    }
    DigitsValue(digits)
  }

  /** Python's `int(s)` for a `str` argument: surrounding whitespace is
      ignored, an optional sign precedes the digit groups, and anything else
      raises ValueError. */
  function PyInt(s: string): Result<int> {
    match ReadSigned(TrimEnd(TrimStart(s)))
    case Some(n) => Ok(n)
    case None => Err(InvalidInteger(s))
  }

  /** An optionally signed literal with no surrounding whitespace. */
  function ReadSigned(t: string): Option<int> {
    if |t| > 0 && t[0] == '-' && IsDigitGroups(t[1..]) then Some(-(GroupsValue(t[1..]) as int))
    else if |t| > 0 && t[0] == '+' && IsDigitGroups(t[1..]) then Some(GroupsValue(t[1..]))
    else if IsDigitGroups(t) then Some(GroupsValue(t))
    else None
  }

  /** The volume in a cell of the sales table. */
  function ParseVolume(cell: string): Result<int> {
    PyInt(Without(cell, '.'))
  }

  /** A thousands separator anywhere in the cell does not change the volume. */
  lemma DotIgnored(a: string, b: string)
    ensures ParseVolume(a + ['.'] + b) == ParseVolume(a + b)
  {
    calc {
      Without(a + ['.'] + b, '.');
      { WithoutAppend(a + ['.'], b, '.'); }
      Without(a + ['.'], '.') + Without(b, '.');
      { WithoutAppend(a, ['.'], '.'); assert Without(['.'], '.') == []; }
      Without(a, '.') + Without(b, '.');
      { WithoutAppend(a, b, '.'); }
      Without(a + b, '.');
    }
  }

  /** The decimal rendering of an integer, with a minus sign when negative. */
  function RenderInt(v: int): string {
    if v < 0 then ['-'] + Render(-v) else Render(v)
  }

  /** Reading the rendering of any integer gives that integer back. */
  lemma ParseVolumeRender(v: int)
    ensures ParseVolume(RenderInt(v)) == Ok(v)
  {
    if v < 0 {
      var s := RenderInt(v);
      assert s[1..] == Render(-v);
      NoDotInRendering(s);
      PyIntOfNegatedDigits(s);
    } else {
      var digits := Render(v);
      NoDotInRendering(digits);
      PyIntOfDigits(digits);
    }
  }

  lemma NoDotInRendering(s: string)
    requires |s| > 0 && (s[0] == '-' || IsDigit(s[0])) && AllDigits(s[1..])
    ensures Without(s, '.') == s
  {
    assert forall i | 1 <= i < |s| :: s[i] == s[1..][i - 1];
    WithoutAbsent(s, '.');
  }

  /** A run of digits is a digit group without separators. */
  lemma GroupsOfDigits(digits: string)
    requires |digits| > 0 && AllDigits(digits)
    ensures IsDigitGroups(digits) && GroupsValue(digits) == DigitsValue(digits)
  {
    NoSeparatorInDigits(digits);
    WithoutAbsent(digits, '_');
  }

  /** `int()` reads a run of digits as the number it spells. */
  lemma PyIntOfDigits(digits: string)
    requires |digits| > 0 && AllDigits(digits)
    ensures PyInt(digits) == Ok(DigitsValue(digits))
  {
    NoSeparatorInDigits(digits);
    assert TrimStart(digits) == digits;
    assert TrimEnd(digits) == digits;
    GroupsOfDigits(digits);
    assert digits[0] != '-' && digits[0] != '+';
  }

  /** `int()` reads a minus sign and a run of digits as the negated number. */
  lemma PyIntOfNegatedDigits(s: string)
    requires |s| > 1 && s[0] == '-' && AllDigits(s[1..])
    ensures PyInt(s) == Ok(-(DigitsValue(s[1..]) as int))
  {
    SignedUntrimmed(s);
    NegatedRead(s);
  }

  /** `int()` reads a plus sign and a run of digits as the number they spell. */
  lemma PyIntOfPlusDigits(s: string)
    requires |s| > 1 && s[0] == '+' && AllDigits(s[1..])
    ensures PyInt(s) == Ok(DigitsValue(s[1..]) as int)
  {
    SignedUntrimmed(s);
    PlusRead(s);
  }

  lemma SignedUntrimmed(s: string)
    requires |s| > 1 && (s[0] == '-' || s[0] == '+') && AllDigits(s[1..])
    ensures TrimEnd(TrimStart(s)) == s
  {
    NoSeparatorInDigits(s[1..]);
    assert TrimStart(s) == s;
    assert s[|s| - 1] == s[1..][|s| - 2];
  }

  lemma NegatedRead(s: string)
    requires |s| > 1 && s[0] == '-' && AllDigits(s[1..])
    ensures ReadSigned(s) == Some(-(DigitsValue(s[1..]) as int))
  {
    GroupsOfDigits(s[1..]);
  }

  lemma PlusRead(s: string)
    requires |s| > 1 && s[0] == '+' && AllDigits(s[1..])
    ensures ReadSigned(s) == Some(DigitsValue(s[1..]) as int)
  {
    GroupsOfDigits(s[1..]);
  }

  /** A cell that starts with one of the ASCII separators U+001C to U+001F is
      rejected: `int()` does not strip them, and they are neither a sign nor a
      digit. */
  lemma {:induction false} SeparatorRejected(s: string)
    requires |s| > 0 && '\U{1c}' <= s[0] <= '\U{1f}'
    ensures PyInt(s) == Err(InvalidInteger(s))
  {
    assert !IsIntSpace(s[0]);
    assert TrimStart(s) == s;
    var t := TrimEnd(s);
    assert !IsDigitGroups(t) by {
      if t != [] {
        assert t[0] == s[0];
      }
    }
    assert ReadSigned(t) == None;
  }

  lemma NoSeparatorInDigits(s: string)
    requires AllDigits(s)
    ensures '.' !in s && '_' !in s && forall i | 0 <= i < |s| :: !IsIntSpace(s[i])
  {
  }
}
