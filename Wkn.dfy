/** The identifier check in `__getSalesPages` (kos_sold_in_stgt.py:67-69):
    every WKN must be six alphanumeric characters, and the first one that is
    not stops the loop with InvalidArgumentException. */
module Wkn {
  import opened Chars
  import opened Errors

  /** `c.isalnum()`, for ASCII characters. */
  predicate IsAlnum(c: char) {
    IsDigit(c) || IsAsciiLetter(c)
  }

  /** The shape the scraper accepts: `len(id) == 6 and id.isalnum()`. */
  predicate IsWkn(id: string) {
    |id| == 6 && forall i | 0 <= i < |id| :: IsAlnum(id[i])
  }

  /** The validation loop of `__getSalesPages(*ids)`. `passed` is the prefix
      of `ids` whose members got past the check and on to the window-opening
      step; `r` is Ok when every id passed, and otherwise carries the
      exception raised for the first id that did not. */
  method GetSalesPages(ids: seq<string>) returns (passed: seq<string>, r: Result<()>)
    ensures |passed| <= |ids| && passed == ids[..|passed|]
    ensures forall k | 0 <= k < |passed| :: IsWkn(passed[k])
    ensures r.Ok? <==> |passed| == |ids|
    ensures r.Err? ==> !IsWkn(ids[|passed|]) && r.error == InvalidWkn(ids[|passed|])
  {
    passed := [];
    var i := 0;
    while i < |ids|
      invariant 0 <= i <= |ids|
      invariant passed == ids[..i]
      invariant forall k | 0 <= k < i :: IsWkn(ids[k])
    {
      var id := ids[i];
      if |id| != 6 || !(forall j | 0 <= j < |id| :: IsAlnum(id[j])) {
        return passed, Err(InvalidWkn(id));
      }
      passed := passed + [id];
      i := i + 1;
    }
    return passed, Ok(());
  }

  /** Example identifiers: a six-character alphanumeric WKN passes; a short
      one and one holding '!' do not. */
  lemma WknExamples()
    ensures IsWkn("AB12C3")
    ensures !IsWkn("AB12") && !IsWkn("AB12C!")
  {
    assert !IsAlnum("AB12C!"[5]);
  }
}
