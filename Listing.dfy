/** The listing filter of `getKOs` (kos_sold_in_stgt.py:43-52): each row of
    the most-traded table is kept when its price lies in the closed band
    [MIN_PRICE, MAX_PRICE], and then its WKN is mapped to its description.

    The filter is defined for any reader of the price cell and instantiated
    with `ParsePrice`, the reader the scraper uses; the lemmas about it hold
    for every reader, so their proofs never look inside the parser. */
module Listing {
  import opened Errors
  import opened Price

  /** The cells `getKOs` reads from one table row: the price (column 4),
      the WKN (the link label) and the description (column 3). */
  datatype ListingRow = ListingRow(priceText: string, id: string, description: string)

  type PriceReader = string -> Result<Decimal>

  /** A row that is kept: its price reads and lies in the band. */
  predicate ListedBy(row: ListingRow, readPrice: PriceReader) {
    readPrice(row.priceText).Ok? && InBand(readPrice(row.priceText).value)
  }

  /** The dictionary built from `rows`, or the error raised for the first
      row whose price cannot be read, defined row by row in table order. */
  function CertDictBy(rows: seq<ListingRow>, readPrice: PriceReader): Result<map<string, string>>
    decreases |rows|
  {
    if rows == [] then Ok(map[])
    else
      var row := rows[|rows| - 1];
      match CertDictBy(rows[..|rows| - 1], readPrice)
      case Err(e) => Err(e)
      case Ok(m) =>
        match readPrice(row.priceText)
        case Err(e) => Err(e)
        case Ok(p) => Ok(if InBand(p) then m[row.id := row.description] else m)
  }

  /** The rows `getKOs` keeps. */
  predicate Listed(row: ListingRow) {
    ListedBy(row, ParsePrice)
  }

  /** What `getKOs` returns for `rows`, or the error it raises. */
  function CertDict(rows: seq<ListingRow>): Result<map<string, string>> {
    CertDictBy(rows, ParsePrice)
  }

  /** Once a row's price fails to read, the rows after it do not matter. */
  lemma {:induction false} ErrorSticks(rows: seq<ListingRow>, readPrice: PriceReader, n: nat)
    requires n <= |rows| && CertDictBy(rows[..n], readPrice).Err?
    ensures CertDictBy(rows, readPrice) == CertDictBy(rows[..n], readPrice)
    decreases |rows| - n
  {
    if n < |rows| {
      assert rows[..n + 1][..n] == rows[..n];
      ErrorSticks(rows, readPrice, n + 1);
    } else {
      assert rows[..n] == rows;
    }
  }

  /** The loop of `getKOs` over the table rows. */
  method GetKOs(rows: seq<ListingRow>) returns (r: Result<map<string, string>>)
    ensures r == CertDict(rows)
  {
    var certDict: map<string, string> := map[];
    var i := 0;
    while i < |rows|
      invariant 0 <= i <= |rows|
      invariant CertDict(rows[..i]) == Ok(certDict)
    {
      var row := rows[i];
      assert rows[..i + 1][..i] == rows[..i];
      var certPrice := ParsePrice(row.priceText);
      if certPrice.Err? {
        ErrorSticks(rows, ParsePrice, i + 1);
        return Err(certPrice.error);
      }
      if InBand(certPrice.value) {
        certDict := certDict[row.id := row.description];
      }
      i := i + 1;
    }
    assert rows[..i] == rows;
    return Ok(certDict);
  }

  /** One more row: the error of the rows before it stands; otherwise the
      row's own price decides, and a kept row sets its WKN's entry. */
  lemma CertDictLast(rows: seq<ListingRow>, readPrice: PriceReader)
    requires rows != []
    ensures var init, row := rows[..|rows| - 1], rows[|rows| - 1];
      && (CertDictBy(rows, readPrice).Err? <==>
            CertDictBy(init, readPrice).Err? || readPrice(row.priceText).Err?)
      && (CertDictBy(init, readPrice).Err? ==> CertDictBy(rows, readPrice) == CertDictBy(init, readPrice))
      && (CertDictBy(init, readPrice).Ok? && readPrice(row.priceText).Err? ==>
            CertDictBy(rows, readPrice) == Err(readPrice(row.priceText).error))
      && (CertDictBy(rows, readPrice).Ok? ==>
            CertDictBy(rows, readPrice).value ==
              if ListedBy(row, readPrice) then CertDictBy(init, readPrice).value[row.id := row.description]
              else CertDictBy(init, readPrice).value)
  {
  }

  /** The filter fails exactly when some row's price cannot be read, and then
      with the error of the first such row. */
  lemma {:induction false} CertDictFails(rows: seq<ListingRow>, readPrice: PriceReader)
    ensures CertDictBy(rows, readPrice).Err? <==>
      exists i | 0 <= i < |rows| :: readPrice(rows[i].priceText).Err?
    ensures CertDictBy(rows, readPrice).Err? ==>
      exists i | 0 <= i < |rows| ::
        && readPrice(rows[i].priceText) == Err(CertDictBy(rows, readPrice).error)
        && forall k | 0 <= k < i :: readPrice(rows[k].priceText).Ok?
    decreases |rows|
  {
    if rows != [] {
      var n := |rows| - 1;
      var init := rows[..n];
      CertDictFails(init, readPrice);
      CertDictLast(rows, readPrice);
      assert forall i | 0 <= i < n :: init[i] == rows[i];
      if CertDictBy(init, readPrice).Err? {
        var i :| 0 <= i < n
          && readPrice(init[i].priceText) == Err(CertDictBy(init, readPrice).error)
          && forall k | 0 <= k < i :: readPrice(init[k].priceText).Ok?;
        assert readPrice(rows[i].priceText) == Err(CertDictBy(rows, readPrice).error);
      } else if CertDictBy(rows, readPrice).Err? {
        assert readPrice(rows[n].priceText) == Err(CertDictBy(rows, readPrice).error);
      }
    }
  }

  /** The keys of the dictionary are the WKNs of the kept rows. */
  lemma {:induction false} CertDictKeys(rows: seq<ListingRow>, readPrice: PriceReader, m: map<string, string>)
    requires CertDictBy(rows, readPrice) == Ok(m)
    ensures forall id :: id in m <==>
      exists i | 0 <= i < |rows| :: ListedBy(rows[i], readPrice) && rows[i].id == id
    decreases |rows|
  {
    if rows != [] {
      var n := |rows| - 1;
      var init := rows[..n];
      CertDictLast(rows, readPrice);
      CertDictKeys(init, readPrice, CertDictBy(init, readPrice).value);
      assert forall i | 0 <= i < n :: init[i] == rows[i];
    }
  }

  /** Each WKN maps to the description of the LAST kept row with that WKN:
      a later duplicate overwrites an earlier one. */
  lemma {:induction false} CertDictLastWins(rows: seq<ListingRow>, readPrice: PriceReader,
                                            m: map<string, string>, id: string)
    requires CertDictBy(rows, readPrice) == Ok(m) && id in m
    ensures exists i | 0 <= i < |rows| ::
      && ListedBy(rows[i], readPrice) && rows[i].id == id && m[id] == rows[i].description
      && forall j | i < j < |rows| :: rows[j].id == id ==> !ListedBy(rows[j], readPrice)
    decreases |rows|
  {
    var n := |rows| - 1;
    var init, row := rows[..n], rows[n];
    CertDictLast(rows, readPrice);
    var m' := CertDictBy(init, readPrice).value;
    if ListedBy(row, readPrice) && row.id == id {
      assert ListedBy(rows[n], readPrice) && rows[n].id == id && m[id] == rows[n].description;
    } else {
      CertDictLastWins(init, readPrice, m', id);
      var i :| 0 <= i < n
        && ListedBy(init[i], readPrice) && init[i].id == id && m'[id] == init[i].description
        && forall j | i < j < n :: init[j].id == id ==> !ListedBy(init[j], readPrice);
      assert forall j | i < j < n :: init[j] == rows[j];
      assert ListedBy(rows[i], readPrice) && rows[i].id == id && m[id] == rows[i].description;
    }
  }

  /** What `getKOs` promises: it returns a dictionary exactly when every
      price cell starts with a digit; its keys are the WKNs of the rows
      whose price lies in [MIN_PRICE, MAX_PRICE], each mapped to the
      description of the last such row. */
  lemma GetKOsContents(rows: seq<ListingRow>)
    ensures CertDict(rows).Ok? <==> forall i | 0 <= i < |rows| :: ParsePrice(rows[i].priceText).Ok?
    ensures CertDict(rows).Ok? ==> var m := CertDict(rows).value;
      && (forall id :: id in m <==> exists i | 0 <= i < |rows| :: Listed(rows[i]) && rows[i].id == id)
      && (forall id | id in m ::
            exists i | 0 <= i < |rows| ::
              && Listed(rows[i]) && rows[i].id == id && m[id] == rows[i].description
              && forall j | i < j < |rows| :: rows[j].id == id ==> !Listed(rows[j]))
  {
    CertDictFails(rows, ParsePrice);
    if CertDict(rows).Ok? {
      var m := CertDict(rows).value;
      CertDictKeys(rows, ParsePrice, m);
      forall id | id in m
        ensures exists i | 0 <= i < |rows| ::
          && Listed(rows[i]) && rows[i].id == id && m[id] == rows[i].description
          && forall j | i < j < |rows| :: rows[j].id == id ==> !Listed(rows[j])
      {
        CertDictLastWins(rows, ParsePrice, m, id);
      }
    }
  }
}
