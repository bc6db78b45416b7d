# boerse_stgt: the row-processing core, modelled in Dafny

The scraper in `kos_sold_in_stgt.py` reads two kinds of HTML tables from the
Stuttgart stock exchange's website and turns their rows into Python
dictionaries. This project models that row processing:

- **`getKOs`** reads the most-traded knock-out certificates. It takes the
  leading `^\d+(,\d+)?` match of each price cell and reads the comma as a
  decimal point. It keeps the rows whose price lies in the closed band
  `[MIN_PRICE, MAX_PRICE] = [2, 20]` and maps each kept WKN to its
  description. A later row with the same WKN overwrites an earlier one. A
  price cell with no match raises.
- **`__getSalesPages`** checks each WKN: it must be six alphanumeric
  characters, and the first one that is not raises.
- **`__getSales`** reads the times-and-sales table.
  - The volume cell is read with `int(text.replace('.', ''))`.
  - A zero volume skips the row.
  - Otherwise the first eight characters of the time cell are read as a time
    of day and combined with the requested date, and the price cell is read
    as for `getKOs`.
  - The sales are grouped by volume in table order.
  - Only the volumes with an odd number of sales are returned.
- **`inspectKo`** runs the WKN check and then `__getSales`.

The table rows are inputs to the model: a `ListingRow` or `SalesRow` holds
the texts of the cells the scraper reads. Every exception the row
processing raises becomes an `Err` value of `Errors.Error`:

- `InvalidArgumentException` for a bad WKN;
- `AttributeError` when the price regex finds nothing;
- `ValueError` from `int()`;
- `ValueError` from `time.fromisoformat`.

Prices are exact decimals (`Decimal(units, scale)`, worth
`units / 10^scale`). The band test is done in integer arithmetic. A lemma
ties that test to the real value.

Modules, one per file:

| module | covers |
|---|---|
| `Errors` | the error cases, `Option`, `Result` |
| `Chars` | digits, the whitespace `int()` strips, digit strings and their values |
| `Price` | the price pattern, its decimal reading and the band |
| `Volume` | `int(text.replace('.', ''))` |
| `Wkn` | the WKN check of `__getSalesPages` |
| `Listing` | `getKOs` |
| `Sales` | `__getSales` and `inspectKo` |

The loops of `getKOs`, `__getSalesPages` and `__getSales` are methods.
- The `getKOs` and `__getSales` loops are each proved equal to a
  specification function that folds over the rows. The lemmas about those
  folds hold for any reader of a row, so they do not depend on the parsers.
- The `__getSalesPages` loop states its result directly in its `ensures`:
  the prefix of ids that passed, and the first invalid id.

## Model

| member | source | states |
|---|---|---|
| Price.MatchLength | kos_sold_in_stgt.py:46 | the match is no longer than the cell, and is non-empty exactly when the cell starts with a digit |
| Price.PriceMatch | kos_sold_in_stgt.py:46 | a match, when found, is a prefix of the cell of the shape `\d+(,\d+)?` |
| Price.MatchBound | kos_sold_in_stgt.py:46 | every prefix of the cell of the pattern's shape is non-empty and no longer than the match |
| Price.PriceMatchIsLongest | kos_sold_in_stgt.py:46 | the search succeeds exactly when the cell starts with a digit; the match is the longest prefix of the pattern's shape; on failure no prefix has that shape |
| Price.LongestPrefixIsTheMatch | kos_sold_in_stgt.py:46 | conversely, the longest prefix of the pattern's shape is what the search returns |
| Price.ReadDecimal | kos_sold_in_stgt.py:47 | the scale is the number of digits after the comma: zero exactly when the match is all digits, and otherwise a comma stands just before that many trailing digits (its value: Price.ReadDecimalValue, Price.ReadDecimalWhole) |
| Price.ParsePrice | kos_sold_in_stgt.py:46-47 | reading a price cell succeeds exactly when the cell starts with a digit; otherwise it raises the no-match error for that cell (the AttributeError of `.group()` on None) |
| Price.ReadDecimalValue | kos_sold_in_stgt.py:47 | `float(t.replace(',', '.'))` of "a,b", computed exactly, is a + b / 10^len(b) |
| Price.ReadDecimalWhole | kos_sold_in_stgt.py:47 | a match with no comma is read as the whole number it spells |
| Price.InBand | kos_sold_in_stgt.py:48 | the band test `MIN_PRICE <= certPrice <= MAX_PRICE`, done in integers; Price.InBandIsValueInBand states its meaning |
| Price.InBandIsValueInBand | kos_sold_in_stgt.py:48 | the integer band test holds exactly when MIN_PRICE <= price <= MAX_PRICE, both bounds inclusive |
| Price.FractionExample | kos_sold_in_stgt.py:46-47 | "12,34 €" reads as 12.34 |
| Price.WholeExample | kos_sold_in_stgt.py:46-47 | "5" reads as 5 |
| Price.TrailingCommaExample | kos_sold_in_stgt.py:46-47 | in "12," the comma is not part of the price, which is 12 |
| Price.NoDigitExample | kos_sold_in_stgt.py:46 | "€ 5" has no match and raises |
| Price.LowerBoundIn | kos_sold_in_stgt.py:12 | 2,00 lies in the band |
| Price.LowerBoundOut | kos_sold_in_stgt.py:12 | 1,99 lies outside the band |
| Price.UpperBoundIn | kos_sold_in_stgt.py:13 | 20,00 lies in the band |
| Price.UpperBoundOut | kos_sold_in_stgt.py:13 | 20,01 lies outside the band |
| Volume.Without | kos_sold_in_stgt.py:112 | `replace('.', '')` leaves no dot, only characters of the input, and is no longer than the input |
| Volume.DotIgnored | kos_sold_in_stgt.py:112 | a thousands dot anywhere in the volume cell does not change the volume read |
| Volume.TrimStart | kos_sold_in_stgt.py:112 | `int()` drops exactly the leading whitespace, a suffix of the text being left |
| Volume.TrimEnd | kos_sold_in_stgt.py:112 | `int()` drops exactly the trailing whitespace, a prefix of the text being left |
| Volume.PyInt | kos_sold_in_stgt.py:112 | `int()` of a string; Volume.TrimStart and Volume.TrimEnd state which whitespace it ignores, Volume.PyIntOfDigits, Volume.PyIntOfNegatedDigits and Volume.PyIntOfPlusDigits what it returns for a digit run and a signed digit run, and Volume.SeparatorRejected one input it rejects |
| Volume.PyIntOfPlusDigits | kos_sold_in_stgt.py:112 | `int()` of a plus sign followed by digits is the number they spell |
| Volume.SeparatorRejected | kos_sold_in_stgt.py:112 | `int()` raises ValueError on a cell that starts with one of U+001C to U+001F, which `str.isspace()` accepts but `int()` does not strip |
| Volume.ParseVolume | kos_sold_in_stgt.py:112 | `int(cell.replace('.', ''))`; Volume.DotIgnored and Volume.ParseVolumeRender state its meaning |
| Volume.PyIntOfDigits | kos_sold_in_stgt.py:112 | `int()` of a run of digits is the number they spell |
| Volume.PyIntOfNegatedDigits | kos_sold_in_stgt.py:112 | `int()` of a minus sign followed by digits is the negated number |
| Volume.ParseVolumeRender | kos_sold_in_stgt.py:112 | the volume read from the decimal rendering of any integer is that integer |
| Wkn.IsWkn | kos_sold_in_stgt.py:68 | `len(id) == 6 and id.isalnum()`; Wkn.GetSalesPages and Wkn.WknExamples use it |
| Wkn.GetSalesPages | kos_sold_in_stgt.py:67-69 | the ids that pass are a prefix of the input, all valid WKNs; the loop ends without error exactly when every id passes, and otherwise raises for the first invalid one |
| Wkn.WknExamples | kos_sold_in_stgt.py:68 | "AB12C3" is a valid WKN; "AB12" and "AB12C!" are not |
| Listing.CertDictBy | kos_sold_in_stgt.py:43-52 | the row fold of `getKOs` for any price reader; Listing.CertDictLast, Listing.CertDictFails, Listing.CertDictKeys and Listing.CertDictLastWins state its contents |
| Listing.CertDict | kos_sold_in_stgt.py:43-52 | the row fold with the scraper's price reader; Listing.GetKOsContents states its contents |
| Listing.GetKOs | kos_sold_in_stgt.py:43-52 | the loop returns the dictionary the row fold defines, or raises as it does |
| Listing.ErrorSticks | kos_sold_in_stgt.py:46 | once a price fails to read, the rows after it do not change the outcome |
| Listing.CertDictLast | kos_sold_in_stgt.py:44-51 | one more row keeps an earlier error, raises for an unreadable price, and otherwise sets its WKN's entry exactly when its price is in the band |
| Listing.CertDictFails | kos_sold_in_stgt.py:46 | the listing raises exactly when some price cell has no match, with the error of the first such row |
| Listing.CertDictKeys | kos_sold_in_stgt.py:48-51 | the keys are exactly the WKNs of the rows whose price is in the band |
| Listing.CertDictLastWins | kos_sold_in_stgt.py:51 | each WKN maps to the description of the last in-band row with that WKN; no later in-band row has it |
| Listing.GetKOsContents | kos_sold_in_stgt.py:43-52 | the whole promise of `getKOs` for its price reader: when it succeeds, its keys, and the value kept for each key |
| Sales.TimeField | kos_sold_in_stgt.py:114 | `cell[:8]` is the first eight characters, or the whole of a shorter cell |
| Sales.ReadRow | kos_sold_in_stgt.py:112-118 | a row is skipped exactly when its volume reads as zero; a recorded row carries the volume, the requested date, the parsed time and the parsed price; it raises exactly when the volume, or for a nonzero volume the time or price, fails to read |
| Sales.ReadAll | kos_sold_in_stgt.py:111-118 | reading the rows gives at most one trade per row; Sales.ReadAllFails and Sales.ReadAllTrades state which |
| Sales.AddSale | kos_sold_in_stgt.py:119-122 | the sale is appended to its volume's list, which starts empty when the volume is new; no other list changes |
| Sales.Group | kos_sold_in_stgt.py:119-122 | `salesDict` after the loop; Sales.GroupIsFilter and Sales.GroupTotal state its contents |
| Sales.OddGroups | kos_sold_in_stgt.py:124 | the result is a sub-map whose lists all have odd length (exactly which keys: Sales.OddGroupsKeepsOddOnly) |
| Sales.SalesBy | kos_sold_in_stgt.py:110-124 | what `__getSales` returns for any reader of a row; Sales.SalesByOddVolumes and Sales.SalesByProvenance state its contents |
| Sales.Sales | kos_sold_in_stgt.py:110-124 | what `__getSales` returns with the scraper's reader; Sales.GetSalesFails, Sales.GetSalesProvenance and Sales.GetSalesRecordsNonzero state its contents |
| Sales.SalesAt | kos_sold_in_stgt.py:119-122 | the reference list of sales at one volume holds only sales traded at that volume |
| Sales.GetSales | kos_sold_in_stgt.py:110-124 | the loop and the filter return what the row fold defines, or raise as it does |
| Sales.ErrorSticks | kos_sold_in_stgt.py:112-118 | once a row raises, the rows after it do not change the outcome |
| Sales.ReadAllAppend | kos_sold_in_stgt.py:111 | reading two tables in a row: the first error wins, otherwise the trades are concatenated |
| Sales.SkippedRowIgnored | kos_sold_in_stgt.py:113 | a row that is skipped can be removed without changing what is read |
| Sales.ZeroVolumeIgnored | kos_sold_in_stgt.py:113 | a row with volume zero does not change the result, whatever its time and price cells hold |
| Sales.ReadAllFails | kos_sold_in_stgt.py:112-118 | reading raises exactly when some row raises, with the error of the first such row |
| Sales.GetSalesFails | kos_sold_in_stgt.py:112-118 | `__getSales` raises exactly when reading some row raises, with that first row's error |
| Sales.ReadAllTrades | kos_sold_in_stgt.py:111-118 | the trades read are the readings of the recorded rows, one per row, in table order |
| Sales.GroupIsFilter | kos_sold_in_stgt.py:119-122 | a volume has a list exactly when it was traded, and the list is the sales at that volume in table order |
| Sales.TotalSalesRemove | kos_sold_in_stgt.py:119-122 | the total count of grouped sales does not depend on which volume is counted first |
| Sales.TotalSalesAdd | kos_sold_in_stgt.py:119-122 | appending one sale adds one to the total |
| Sales.GroupTotal | kos_sold_in_stgt.py:119-122 | the lists hold one sale per trade read, none lost or duplicated |
| Sales.OddGroupsKeepsOddOnly | kos_sold_in_stgt.py:124 | the filter keeps a list unchanged when its length is odd and drops it when even |
| Sales.OddGroupsIdempotent | kos_sold_in_stgt.py:124 | filtering twice is filtering once |
| Sales.SalesByOddVolumes | kos_sold_in_stgt.py:119-124 | the result has a volume exactly when an odd number of trades were read at it, and then holds all of them in table order |
| Sales.SalesByProvenance | kos_sold_in_stgt.py:111-122 | every returned sale was read from a row of the table at the volume it is grouped under |
| Sales.GetSalesProvenance | kos_sold_in_stgt.py:112-122 | every returned sale comes from a row whose cells read as its volume, time and price, on the requested date |
| Sales.GroupCountsRecorded | kos_sold_in_stgt.py:113-122 | the grouped sales number exactly the rows with a nonzero volume |
| Sales.RecordedIsOkSome | kos_sold_in_stgt.py:113 | the recorded rows are exactly the rows that read as a trade |
| Sales.GetSalesRecordsNonzero | kos_sold_in_stgt.py:113 | every recorded row has a nonzero volume, and a row left out of a table that reads has volume zero |
| Sales.OddVolumesExample | kos_sold_in_stgt.py:119-124 | volume 100 traded twice and volume 50 once give only volume 50, with its one sale |
| Sales.InspectKo | kos_sold_in_stgt.py:54-61 | an invalid WKN raises before any row is read; a valid one gives the result of `__getSales` |

## Left out

- Selenium and the browser are not modelled: loading pages, clicking, sorting
  the table (lines 32-39), `find_element`, and the cookie dialog (lines 18-25).
  The rows the scraper finds are inputs.
- The window handling of `__getSalesPages` (lines 70-72) and the URL check and
  window switch of `__getSales` (lines 80-81) change only browser state.
  `Wkn.GetSalesPages` returns the ids that reach that step.
- Selenium's own exceptions are not modelled: a missing element
  (`NoSuchElementException` from `find_element`, such as lines 84-85 and 105)
  and a wait that runs out (`TimeoutException`, lines 88-89 and 102) escape
  the scraper but never become an `Err`.
- Typing the date and the start and end times into the page (lines 83-103) is
  not modelled, and neither are the sleeps and waits. `startTime` and
  `endTime` affect only which rows the site shows, so they are not parameters
  of `Sales.InspectKo`.
- The console output (lines 40, 107), the `__main__` block and
  `interesting_ko_sales.py` are not part of this model.
- Price.ReadDecimalValue: prices are exact decimals, not the binary `float`
  that `float()` returns. The band test is exact. Python compares a rounded
  value, so a cell such as "20,0000000000000001" is in band in Python but not
  here.
- Chars.IsDigit: `\d` in the price pattern and the digits `int()` accepts are
  ASCII only. Python also accepts other Unicode decimal digits.
- Wkn.IsAlnum: `str.isalnum()` is limited to ASCII letters and digits.
- Volume.PyInt: `int()`'s limit of 4300 digits is not modelled. Otherwise the
  model covers the whitespace `int()` strips, the sign and single underscores
  between digits. No lemma states what the underscores give.
- `datetime.time.fromisoformat` is a parameter `parseTime` of type
  `string -> Option<TimeOfDay>`. The model does not fix which texts it accepts.
- `datetime.datetime.combine` becomes the pair `Timestamp(date, time)`.
- Python dictionaries remember insertion order; Dafny maps do not. The order
  of the keys in the returned dictionaries is not modelled. The order of the
  sales within each list is modelled.
