/** The sales extraction of `inspectKo` / `__getSales`
    (kos_sold_in_stgt.py:54-61, 110-124): each row of the times-and-sales
    table with a nonzero volume becomes a sale record, the records are
    grouped by volume in table order, and only the volumes with an odd
    number of sales are returned.

    The row fold is defined for any reader of a row and instantiated with
    `ReadRow`, the reading the scraper does; the lemmas about the fold hold
    for every reader, so their proofs never look inside the parsers. */
module Sales {
  import opened Errors
  import opened Price
  import opened Volume
  import opened Wkn

  datatype Date = Date(year: int, month: int, day: int)

  datatype TimeOfDay = TimeOfDay(hour: int, minute: int, second: int, microsecond: int)

  /** `datetime.datetime.combine(date, time)`. */
  datatype Timestamp = Timestamp(date: Date, time: TimeOfDay)

  /** `dict(timestamp=..., price=...)`, one recorded sale. */
  datatype Sale = Sale(timestamp: Timestamp, price: Decimal)

  /** The cells `__getSales` reads from one table row: the time (column 2),
      the price (column 3) and the volume (column 4). */
  datatype SalesRow = SalesRow(timeText: string, priceText: string, volumeText: string)

  /** A row with a nonzero volume, read: its volume and its sale. */
  datatype Trade = Trade(volume: int, sale: Sale)

  /** `datetime.time.fromisoformat`: None where it raises ValueError. */
  type TimeParser = string -> Option<TimeOfDay>

  /** Reads one row: Ok(None) for a row that is skipped, Ok(Some(t)) for a
      row that records a trade, Err for a row that raises. */
  type RowReader = SalesRow -> Result<Option<Trade>>

  /** Sales grouped by volume. */
  type Groups = map<int, seq<Sale>>

  /** `cell[:8]`: the first eight characters, or all of a shorter cell. */
  function TimeField(cell: string): (r: string)
    ensures |r| == if |cell| < 8 then |cell| else 8
    ensures r == cell[..|r|]
  {
    if |cell| <= 8 then cell else cell[..8]
  }

  /** One pass of the loop body at kos_sold_in_stgt.py:112-118: the volume is
      read first; a zero volume skips the row, otherwise the time and then
      the price are read and combined with the supplied date. */
  function ReadRow(row: SalesRow, date: Date, parseTime: TimeParser): (r: Result<Option<Trade>>)
    ensures r == Ok(None) <==> ParseVolume(row.volumeText) == Ok(0)
    ensures r.Ok? && r.value.Some? ==>
      var t := r.value.value;
      && ParseVolume(row.volumeText) == Ok(t.volume) && t.volume != 0
      && t.sale.timestamp.date == date
      && parseTime(TimeField(row.timeText)) == Some(t.sale.timestamp.time)
      && ParsePrice(row.priceText) == Ok(t.sale.price)
    ensures r.Err? <==>
      || ParseVolume(row.volumeText).Err?
      || (ParseVolume(row.volumeText) != Ok(0)
          && (parseTime(TimeField(row.timeText)).None? || ParsePrice(row.priceText).Err?))
  {
    match ParseVolume(row.volumeText)
    case Err(e) => Err(e)
    case Ok(volume) =>
      if volume == 0 then Ok(None)
      else
        match parseTime(TimeField(row.timeText))
        case None => Err(InvalidTime(TimeField(row.timeText)))
        case Some(time) =>
          match ParsePrice(row.priceText)
          case Err(e) => Err(e)
          case Ok(price) => Ok(Some(Trade(volume, Sale(Timestamp(date, time), price))))
  }

  function Reader(date: Date, parseTime: TimeParser): RowReader {
    row => ReadRow(row, date, parseTime)
  }

  /** The trades of `rows` in table order, or the error of the first row
      that raises. */
  function ReadAll(rows: seq<SalesRow>, read: RowReader): (r: Result<seq<Trade>>)
    ensures r.Ok? ==> |r.value| <= |rows|
    decreases |rows|
  {
    if rows == [] then Ok([])
    else
      match ReadAll(rows[..|rows| - 1], read)
      case Err(e) => Err(e)
      case Ok(trades) =>
        match read(rows[|rows| - 1])
        case Err(e) => Err(e)
        case Ok(None) => Ok(trades)
        case Ok(Some(t)) => Ok(trades + [t])
  }

  /** The rows that record a trade, in table order. */
  function Recorded(rows: seq<SalesRow>, read: RowReader): (r: seq<SalesRow>)
    ensures forall row | row in r :: row in rows
    decreases |rows|
  {
    if rows == [] then []
    else
      var init, row := rows[..|rows| - 1], rows[|rows| - 1];
      assert forall x | x in init :: x in rows;
      Recorded(init, read) + if read(row).Ok? && read(row).value.Some? then [row] else []
  }

  /** kos_sold_in_stgt.py:119-122: the sale is appended to its volume's list,
      which is created when the volume is new; no other list changes. */
  function AddSale(groups: Groups, t: Trade): (r: Groups)
    ensures r.Keys == groups.Keys + {t.volume}
    ensures r[t.volume] == (if t.volume in groups then groups[t.volume] else []) + [t.sale]
    ensures forall v | v in groups && v != t.volume :: r[v] == groups[v]
  {
    if t.volume in groups then groups[t.volume := groups[t.volume] + [t.sale]]
    else groups[t.volume := [t.sale]]
  }

  /** `salesDict` after the loop has seen `trades`. */
  function Group(trades: seq<Trade>): Groups
    decreases |trades|
  {
    if trades == [] then map[]
    else AddSale(Group(trades[..|trades| - 1]), trades[|trades| - 1])
  }

  /** The sales of the trades at volume `v`, in order: the reference the
      grouping is checked against. */
  function SalesAt(trades: seq<Trade>, v: int): (r: seq<Sale>)
    ensures |r| <= |trades|
    ensures forall s | s in r :: Trade(v, s) in trades
    decreases |trades|
  {
    if trades == [] then []
    else
      var init, t := trades[..|trades| - 1], trades[|trades| - 1];
      assert forall x | x in init :: x in trades;
      SalesAt(init, v) + if t.volume == v then [t.sale] else []
  }

  /** kos_sold_in_stgt.py:124: the groups with an odd number of sales. */
  function OddGroups(groups: Groups): (r: Groups)
    ensures r.Keys <= groups.Keys
    ensures forall v | v in r :: |r[v]| % 2 == 1
  {
    map v | v in groups && |groups[v]| % 2 != 0 :: groups[v]
  }

  /** What `__getSales` returns for `rows` read by `read`. */
  function SalesBy(rows: seq<SalesRow>, read: RowReader): Result<Groups> {
    match ReadAll(rows, read)
    case Err(e) => Err(e)
    case Ok(trades) => Ok(OddGroups(Group(trades)))
  }

  /** What `__getSales(id, date, ...)` returns for the table `rows`. */
  function Sales(rows: seq<SalesRow>, date: Date, parseTime: TimeParser): Result<Groups> {
    SalesBy(rows, Reader(date, parseTime))
  }

  /** Once a row raises, the rows after it do not matter. */
  lemma {:induction false} ErrorSticks(rows: seq<SalesRow>, read: RowReader, n: nat)
    requires n <= |rows| && ReadAll(rows[..n], read).Err?
    ensures ReadAll(rows, read) == ReadAll(rows[..n], read)
    decreases |rows| - n
  {
    if n < |rows| {
      assert rows[..n + 1][..n] == rows[..n];
      ErrorSticks(rows, read, n + 1);
    } else {
      assert rows[..n] == rows;
    }
  }

  /** The loop of `__getSales` over the table rows and the filter that
      follows it. */
  method GetSales(rows: seq<SalesRow>, date: Date, parseTime: TimeParser) returns (r: Result<Groups>)
    ensures r == Sales(rows, date, parseTime)
  {
    ghost var read := Reader(date, parseTime);
    var salesDict: Groups := map[];
    ghost var trades: seq<Trade> := [];
    var i := 0;
    while i < |rows|
      invariant 0 <= i <= |rows|
      invariant ReadAll(rows[..i], read) == Ok(trades)
      invariant salesDict == Group(trades)
    {
      var row := rows[i];
      assert rows[..i + 1][..i] == rows[..i];
      assert read(row) == ReadRow(row, date, parseTime);
      var volume := ParseVolume(row.volumeText);
      if volume.Err? {
        ErrorSticks(rows, read, i + 1);
        return Err(volume.error);
      }
      if volume.value != 0 {
        var time := parseTime(TimeField(row.timeText));
        if time.None? {
          ErrorSticks(rows, read, i + 1);
          return Err(InvalidTime(TimeField(row.timeText)));
        }
        var price := ParsePrice(row.priceText);
        if price.Err? {
          ErrorSticks(rows, read, i + 1);
          return Err(price.error);
        }
        var sale := Sale(Timestamp(date, time.value), price.value);
        if volume.value in salesDict {
          salesDict := salesDict[volume.value := salesDict[volume.value] + [sale]];
        } else {
          salesDict := salesDict[volume.value := [sale]];
        }
        ghost var before := trades;
        trades := trades + [Trade(volume.value, sale)];
        assert trades[..|trades| - 1] == before;
      }
      i := i + 1;
    }
    assert rows[..i] == rows;
    return Ok(OddGroups(salesDict));
  }

  /** Reading concatenated tables: the first error wins, otherwise the trades
      of the second table follow those of the first. */
  lemma {:induction false} ReadAllAppend(a: seq<SalesRow>, b: seq<SalesRow>, read: RowReader)
    ensures ReadAll(a + b, read) ==
      match ReadAll(a, read)
      case Err(e) => Err(e)
      case Ok(x) =>
        match ReadAll(b, read)
        case Err(e) => Err(e)
        case Ok(y) => Ok(x + y)
    decreases |b|
  {
    if b == [] {
      assert a + b == a;
      if ReadAll(a, read).Ok? {
        assert ReadAll(a, read).value + [] == ReadAll(a, read).value;
      }
    } else {
      var b', last := b[..|b| - 1], b[|b| - 1];
      assert (a + b)[..|a + b| - 1] == a + b';
      assert (a + b)[|a + b| - 1] == last;
      ReadAllAppend(a, b', read);
      if ReadAll(a, read).Ok? && ReadAll(b', read).Ok? {
        var x, y := ReadAll(a, read).value, ReadAll(b', read).value;
        if read(last).Ok? && read(last).value.Some? {
          assert x + (y + [read(last).value.value]) == (x + y) + [read(last).value.value];
        }
      }
    }
  }

  /** A row that is skipped can be taken out of the table without changing
      what is read. */
  lemma SkippedRowIgnored(a: seq<SalesRow>, z: SalesRow, b: seq<SalesRow>, read: RowReader)
    requires read(z) == Ok(None)
    ensures ReadAll(a + [z] + b, read) == ReadAll(a + b, read)
  {
    assert [z][..0] == [];
    assert ReadAll([z], read) == Ok([]);
    ReadAllAppend(a + [z], b, read);
    ReadAllAppend(a, [z], read);
    ReadAllAppend(a, b, read);
    if ReadAll(a, read).Ok? {
      assert ReadAll(a, read).value + [] == ReadAll(a, read).value;
    }
  }

  /** Rows whose volume is zero add nothing to the result, whatever their
      time and price cells hold (kos_sold_in_stgt.py:113). */
  lemma ZeroVolumeIgnored(a: seq<SalesRow>, z: SalesRow, b: seq<SalesRow>, date: Date, parseTime: TimeParser)
    requires ParseVolume(z.volumeText) == Ok(0)
    ensures Sales(a + [z] + b, date, parseTime) == Sales(a + b, date, parseTime)
  {
    SkippedRowIgnored(a, z, b, Reader(date, parseTime));
  }

  /** Reading fails exactly when some row raises, and then with the error of
      the first row that does. */
  lemma {:induction false} ReadAllFails(rows: seq<SalesRow>, read: RowReader)
    ensures ReadAll(rows, read).Err? <==> exists i | 0 <= i < |rows| :: read(rows[i]).Err?
    ensures ReadAll(rows, read).Err? ==>
      exists i | 0 <= i < |rows| ::
        && read(rows[i]) == Err(ReadAll(rows, read).error)
        && forall k | 0 <= k < i :: read(rows[k]).Ok?
    decreases |rows|
  {
    if rows != [] {
      var n := |rows| - 1;
      var init := rows[..n];
      ReadAllFails(init, read);
      assert forall i | 0 <= i < n :: init[i] == rows[i];
      if ReadAll(init, read).Err? {
        var i :| 0 <= i < n
          && read(init[i]) == Err(ReadAll(init, read).error)
          && forall k | 0 <= k < i :: read(init[k]).Ok?;
        assert read(rows[i]) == Err(ReadAll(rows, read).error);
      } else if ReadAll(rows, read).Err? {
        assert read(rows[n]) == Err(ReadAll(rows, read).error);
      }
    }
  }

  /** The trades read are exactly the readings of the recorded rows, one per
      row and in table order. */
  lemma {:induction false} ReadAllTrades(rows: seq<SalesRow>, read: RowReader, trades: seq<Trade>)
    requires ReadAll(rows, read) == Ok(trades)
    ensures |trades| == |Recorded(rows, read)|
    ensures forall k | 0 <= k < |trades| :: read(Recorded(rows, read)[k]) == Ok(Some(trades[k]))
    decreases |rows|
  {
    if rows != [] {
      var init, row := rows[..|rows| - 1], rows[|rows| - 1];
      var before := ReadAll(init, read).value;
      ReadAllTrades(init, read, before);
      var rec := Recorded(init, read);
      if read(row).Ok? && read(row).value.Some? {
        assert Recorded(rows, read) == rec + [row];
        assert trades == before + [read(row).value.value];
      } else {
        assert Recorded(rows, read) == rec;
      }
    }
  }

  /** Grouping is stable: the list under each volume holds the sales of the
      trades at that volume, in the order they were read, and there is a
      list exactly for the volumes that were traded. */
  lemma {:induction false} GroupIsFilter(trades: seq<Trade>)
    ensures forall v :: v in Group(trades) <==> SalesAt(trades, v) != []
    ensures forall v | v in Group(trades) :: Group(trades)[v] == SalesAt(trades, v)
    decreases |trades|
  {
    if trades != [] {
      var init := trades[..|trades| - 1];
      GroupIsFilter(init);
    }
  }

  /** The solver does not derive a witness key from `groups.Keys != {}` by
      itself; this lemma gives `AnyVolume` the existence its `:|` needs. */
  lemma HasVolume(groups: Groups)
    requires groups.Keys != {}
    ensures exists v :: v in groups.Keys
  {
    if forall v :: v !in groups.Keys {
      assert false;
    }
  }

  /** Some volume that has a group. */
  ghost function AnyVolume(groups: Groups): (v: int)
    requires groups.Keys != {}
    ensures v in groups
  {
    HasVolume(groups);
    var v :| v in groups.Keys; v
  }

  /** The total number of sales held in the groups. */
  ghost function TotalSales(groups: Groups): nat
    decreases |groups|
  {
    if groups.Keys == {} then 0
    else
      var v := AnyVolume(groups);
      assert (groups - {v}).Keys == groups.Keys - {v};
      |groups[v]| + TotalSales(groups - {v})
  }

  /** TotalSales does not depend on which volume it counts first. */
  lemma {:induction false} TotalSalesRemove(groups: Groups, v: int)
    requires v in groups
    ensures TotalSales(groups) == |groups[v]| + TotalSales(groups - {v})
    decreases |groups|
  {
    assert v in groups.Keys;
    var w := AnyVolume(groups);
    if w != v {
      assert (groups - {w}).Keys == groups.Keys - {w};
      assert (groups - {v}).Keys == groups.Keys - {v};
      TotalSalesRemove(groups - {w}, v);
      TotalSalesRemove(groups - {v}, w);
      assert groups - {w} - {v} == groups - {v} - {w};
    }
  }

  /** Adding one sale adds one to the total. */
  lemma TotalSalesAdd(groups: Groups, t: Trade)
    ensures TotalSales(AddSale(groups, t)) == TotalSales(groups) + 1
  {
    var r := AddSale(groups, t);
    TotalSalesRemove(r, t.volume);
    if t.volume in groups {
      TotalSalesRemove(groups, t.volume);
      assert r - {t.volume} == groups - {t.volume};
    } else {
      assert r - {t.volume} == groups;
    }
  }

  /** The groups hold one sale per trade read: the sum of the group sizes is
      the number of trades. */
  lemma {:induction false} GroupTotal(trades: seq<Trade>)
    ensures TotalSales(Group(trades)) == |trades|
    decreases |trades|
  {
    if trades != [] {
      var init := trades[..|trades| - 1];
      GroupTotal(init);
      TotalSalesAdd(Group(init), trades[|trades| - 1]);
    }
  }

  /** The odd filter keeps a group unchanged when its size is odd and drops
      it, whole, when its size is even; the result is a sub-map. */
  lemma OddGroupsKeepsOddOnly(groups: Groups)
    ensures OddGroups(groups).Keys <= groups.Keys
    ensures forall v | v in OddGroups(groups) :: OddGroups(groups)[v] == groups[v]
    ensures forall v | v in groups :: v in OddGroups(groups) <==> |groups[v]| % 2 == 1
  {
  }

  /** Filtering twice is filtering once. */
  lemma OddGroupsIdempotent(groups: Groups)
    ensures OddGroups(OddGroups(groups)) == OddGroups(groups)
  {
  }

  /** What `__getSales` returns, for any reading of the rows: a volume is in
      the result exactly when an odd number of trades were read at it, and
      then it maps to all of them, in table order. */
  lemma SalesByOddVolumes(rows: seq<SalesRow>, read: RowReader, trades: seq<Trade>)
    requires ReadAll(rows, read) == Ok(trades)
    ensures SalesBy(rows, read).Ok?
    ensures var r := SalesBy(rows, read).value;
      && (forall v :: v in r <==> |SalesAt(trades, v)| % 2 == 1)
      && (forall v | v in r :: r[v] == SalesAt(trades, v))
  {
    GroupIsFilter(trades);
    var g := Group(trades);
    forall v ensures v in OddGroups(g) <==> |SalesAt(trades, v)| % 2 == 1 {
      if SalesAt(trades, v) == [] {
        assert v !in g;
      }
    }
  }

  /** `__getSales` raises exactly when reading some row raises, and then
      with the error of the first such row. */
  lemma GetSalesFails(rows: seq<SalesRow>, date: Date, parseTime: TimeParser)
    ensures Sales(rows, date, parseTime).Err? <==>
      exists i | 0 <= i < |rows| :: ReadRow(rows[i], date, parseTime).Err?
    ensures Sales(rows, date, parseTime).Err? ==>
      exists i | 0 <= i < |rows| ::
        && ReadRow(rows[i], date, parseTime) == Err(Sales(rows, date, parseTime).error)
        && forall k | 0 <= k < i :: ReadRow(rows[k], date, parseTime).Ok?
  {
    var read := Reader(date, parseTime);
    ReadAllFails(rows, read);
    assert forall i | 0 <= i < |rows| :: read(rows[i]) == ReadRow(rows[i], date, parseTime);
  }

  /** For any reading of the rows, every sale in the result was read from
      some row of the table at the volume it is grouped under. */
  lemma SalesByProvenance(rows: seq<SalesRow>, read: RowReader, r: Groups)
    requires SalesBy(rows, read) == Ok(r)
    ensures forall v: int, s: Sale | v in r && s in r[v] ::
      exists i | 0 <= i < |rows| :: read(rows[i]) == Ok(Some(Trade(v, s)))
  {
    var trades := ReadAll(rows, read).value;
    SalesByOddVolumes(rows, read, trades);
    ReadAllTrades(rows, read, trades);
    var rec := Recorded(rows, read);
    forall v: int, s: Sale | v in r && s in r[v]
      ensures exists i | 0 <= i < |rows| :: read(rows[i]) == Ok(Some(Trade(v, s)))
    {
      assert Trade(v, s) in trades;
      var k :| 0 <= k < |trades| && trades[k] == Trade(v, s);
      assert rec[k] in rows;
      var i :| 0 <= i < |rows| && rows[i] == rec[k];
      assert read(rows[i]) == Ok(Some(Trade(v, s)));
    }
  }

  /** Every record `__getSales` returns comes from a row of the table whose
      volume cell reads as the volume it is grouped under, whose time cell
      gives its time and whose price cell gives its price; its date is the
      supplied one. */
  lemma GetSalesProvenance(rows: seq<SalesRow>, date: Date, parseTime: TimeParser, r: Groups)
    requires Sales(rows, date, parseTime) == Ok(r)
    ensures forall v: int, s: Sale | v in r && s in r[v] ::
      && s.timestamp.date == date
      && exists i | 0 <= i < |rows| :: ReadRow(rows[i], date, parseTime) == Ok(Some(Trade(v, s)))
  {
    var read := Reader(date, parseTime);
    SalesByProvenance(rows, read, r);
    forall v: int, s: Sale | v in r && s in r[v]
      ensures s.timestamp.date == date
      ensures exists i | 0 <= i < |rows| :: ReadRow(rows[i], date, parseTime) == Ok(Some(Trade(v, s)))
    {
      var i :| 0 <= i < |rows| && read(rows[i]) == Ok(Some(Trade(v, s)));
      assert ReadRow(rows[i], date, parseTime) == Ok(Some(Trade(v, s)));
    }
  }

  /** For any reading of the rows, the groups hold one sale per row that
      records a trade. */
  lemma GroupCountsRecorded(rows: seq<SalesRow>, read: RowReader, trades: seq<Trade>)
    requires ReadAll(rows, read) == Ok(trades)
    ensures TotalSales(Group(trades)) == |Recorded(rows, read)|
  {
    ReadAllTrades(rows, read, trades);
    GroupTotal(trades);
  }

  /** The recorded rows are the rows that read as a trade. */
  lemma {:induction false} RecordedIsOkSome(rows: seq<SalesRow>, read: RowReader)
    ensures forall row | row in Recorded(rows, read) :: read(row).Ok? && read(row).value.Some?
    ensures forall i | 0 <= i < |rows| && read(rows[i]).Ok? && read(rows[i]).value.Some? ::
      rows[i] in Recorded(rows, read)
    decreases |rows|
  {
    if rows != [] {
      var init, row := rows[..|rows| - 1], rows[|rows| - 1];
      RecordedIsOkSome(init, read);
      assert forall i | 0 <= i < |init| :: init[i] == rows[i];
    }
  }

  /** `__getSales` records exactly the rows whose volume cell reads as a
      nonzero integer: a recorded row has such a volume, and a row left out
      of a table that reads without error has volume zero. */
  lemma GetSalesRecordsNonzero(rows: seq<SalesRow>, date: Date, parseTime: TimeParser)
    requires ReadAll(rows, Reader(date, parseTime)).Ok?
    ensures forall row | row in Recorded(rows, Reader(date, parseTime)) ::
      ParseVolume(row.volumeText).Ok? && ParseVolume(row.volumeText).value != 0
    ensures forall i | 0 <= i < |rows| && rows[i] !in Recorded(rows, Reader(date, parseTime)) ::
      ParseVolume(rows[i].volumeText) == Ok(0)
  {
    var read := Reader(date, parseTime);
    RecordedIsOkSome(rows, read);
    ReadAllFails(rows, read);
    forall row | row in Recorded(rows, read)
      ensures ParseVolume(row.volumeText).Ok? && ParseVolume(row.volumeText).value != 0
    {
      assert read(row) == ReadRow(row, date, parseTime);
    }
    forall i | 0 <= i < |rows| && rows[i] !in Recorded(rows, read)
      ensures ParseVolume(rows[i].volumeText) == Ok(0)
    {
      assert read(rows[i]) == ReadRow(rows[i], date, parseTime);
    }
  }

  /** End-to-end example: volume 100 traded twice and volume 50 once gives
      the single group 50 with its one sale. */
  lemma OddVolumesExample(a: SalesRow, b: SalesRow, c: SalesRow, read: RowReader, sa: Sale, sb: Sale, sc: Sale)
    requires read(a) == Ok(Some(Trade(100, sa)))
    requires read(b) == Ok(Some(Trade(100, sb)))
    requires read(c) == Ok(Some(Trade(50, sc)))
    ensures SalesBy([a, b, c], read) == Ok(map[50 := [sc]])
  {
    ReadThree(a, b, c, read, Trade(100, sa), Trade(100, sb), Trade(50, sc));
    GroupThree(sa, sb, sc);
    OddOfExample(sa, sb, sc);
  }

  lemma ReadThree(a: SalesRow, b: SalesRow, c: SalesRow, read: RowReader, t1: Trade, t2: Trade, t3: Trade)
    requires read(a) == Ok(Some(t1)) && read(b) == Ok(Some(t2)) && read(c) == Ok(Some(t3))
    ensures ReadAll([a, b, c], read) == Ok([t1, t2, t3])
  {
    assert [a][..0] == [] && [] + [t1] == [t1];
    assert ReadAll([a], read) == Ok([t1]);
    assert [a, b][..1] == [a] && [t1] + [t2] == [t1, t2];
    assert ReadAll([a, b], read) == Ok([t1, t2]);
    assert [a, b, c][..2] == [a, b] && [t1, t2] + [t3] == [t1, t2, t3];
  }

  lemma GroupThree(sa: Sale, sb: Sale, sc: Sale)
    ensures Group([Trade(100, sa), Trade(100, sb), Trade(50, sc)]) == map[100 := [sa, sb], 50 := [sc]]
  {
    var t1, t2, t3 := Trade(100, sa), Trade(100, sb), Trade(50, sc);
    assert [t1][..0] == [];
    assert Group([t1]) == map[100 := [sa]];
    assert [t1, t2][..1] == [t1] && [sa] + [sb] == [sa, sb];
    assert Group([t1, t2]) == map[100 := [sa, sb]];
    assert [t1, t2, t3][..2] == [t1, t2];
  }

  lemma OddOfExample(sa: Sale, sb: Sale, sc: Sale)
    ensures OddGroups(map[100 := [sa, sb], 50 := [sc]]) == map[50 := [sc]]
  {
    var g := map[100 := [sa, sb], 50 := [sc]];
    assert |g[100]| == 2 && |g[50]| == 1;
    assert OddGroups(g).Keys == {50};
  }

  /** `inspectKo`: the identifier is checked first, as `__getSalesPages`
      does, and only a valid one gets its sales read. */
  method InspectKo(id: string, rows: seq<SalesRow>, date: Date, parseTime: TimeParser)
    returns (r: Result<Groups>)
    ensures r == if IsWkn(id) then Sales(rows, date, parseTime) else Err(InvalidWkn(id))
  {
    var passed, pages := GetSalesPages([id]);
    if pages.Err? {
      assert |passed| == 0;
      return Err(pages.error);
    }
    assert passed[0] == id;
    r := GetSales(rows, date, parseTime);
  }
}
