// dbt/models/marts/mart_half_hourly.sql: carbon left join price on (region, period).
module HalfHourly {
  import opened Prelude
  import opened Rows
  import opened HotStore

  datatype HalfHour = HalfHour(region: int, start: int, end: int, forecast: int, actual: Option<int>, index: string,
                               incVat: Option<real>, excVat: Option<real>)

  predicate IsCarbon(row: Row) {
    row.key.RegionKey? && row.data.Carbon?
  }

  predicate IsPrice(row: Row) {
    row.key.RegionKey? && row.data.Price?
  }

  type CarbonRow = row: Row | IsCarbon(row) witness Row(RegionKey(0, 0), Carbon(1, 0, None, "low"))
  type PriceRow = row: Row | IsPrice(row) witness Row(RegionKey(1, 0), Price(1, 0.0, 0.0))

  function Joined(c: CarbonRow, p: Option<PriceRow>): HalfHour {
    HalfHour(c.key.region, c.key.start, c.data.end, c.data.forecast, c.data.actual, c.data.index,
             if p.Some? then Some(p.value.data.incVat) else None,
             if p.Some? then Some(p.value.data.excVat) else None)
  }

  // The price rows the ON clause pairs with c.
  function Matches(c: CarbonRow, prices: seq<PriceRow>): seq<PriceRow> {
    if prices == [] then []
    else Matches(c, Init(prices)) + if Last(prices).key == c.key then [Last(prices)] else []
  }

  function JoinedAll(c: CarbonRow, matches: seq<PriceRow>): (r: seq<HalfHour>)
    ensures |r| == |matches|
  {
    seq(|matches|, i requires 0 <= i < |matches| => Joined(c, Some(matches[i])))
  }

  // SQL's left join over bags: one output row per match, or one with nulls.
  function LeftJoin(carbon: seq<CarbonRow>, prices: seq<PriceRow>): seq<HalfHour> {
    if carbon == [] then []
    else
      var c := Last(carbon);
      LeftJoin(Init(carbon), prices) + JoinRow(c, prices)
  }

  function JoinRow(c: CarbonRow, prices: seq<PriceRow>): seq<HalfHour> {
    if Matches(c, prices) == [] then [Joined(c, None)] else JoinedAll(c, Matches(c, prices))
  }

  lemma JoinRowSize(c: CarbonRow, prices: seq<PriceRow>)
    ensures |JoinRow(c, prices)| >= 1
    ensures |JoinRow(c, prices)| == 1 <==> |Matches(c, prices)| <= 1
  {
  }

  // The join preserves the number of rows exactly when no carbon row has two matching prices.
  lemma {:induction false} FanOut(carbon: seq<CarbonRow>, prices: seq<PriceRow>)
    ensures |LeftJoin(carbon, prices)| >= |carbon|
    ensures |LeftJoin(carbon, prices)| == |carbon| <==> forall i :: 0 <= i < |carbon| ==> |Matches(carbon[i], prices)| <= 1
  {
    hide Matches, JoinRow;
    if carbon != [] {
      FanOut(Init(carbon), prices);
      JoinRowSize(Last(carbon), prices);
      assert forall i :: 0 <= i < |Init(carbon)| ==> carbon[i] == Init(carbon)[i];
    }
  }

  // ---- Over the raw tables, whose primary keys make them maps ----

  // rows lists the table, in some order.
  ghost predicate Lists(rows: seq<Row>, hot: Hot) {
    && (forall i, j :: 0 <= i < j < |rows| ==> rows[i].key != rows[j].key)
    && (forall i :: 0 <= i < |rows| ==> rows[i].key in hot && hot[rows[i].key].data == rows[i].data)
    && (forall k :: k in hot ==> Row(k, hot[k].data) in rows)
  }

  lemma {:induction false} MatchesOf(c: CarbonRow, prices: seq<PriceRow>)
    requires forall i, j :: 0 <= i < j < |prices| ==> prices[i].key != prices[j].key
    ensures (forall i :: 0 <= i < |prices| ==> prices[i].key != c.key) ==> Matches(c, prices) == []
    ensures forall i :: 0 <= i < |prices| && prices[i].key == c.key ==> Matches(c, prices) == [prices[i]]
  {
    if prices != [] {
      MatchesOf(c, Init(prices));
    }
  }

  // What the mart should hold for a carbon row, stated on the tables.
  ghost predicate MartRow(h: HalfHour, c: CarbonRow, prices: Hot) {
    && h.region == c.key.region && h.start == c.key.start && h.end == c.data.end
    && h.forecast == c.data.forecast && h.actual == c.data.actual && h.index == c.data.index
    && (c.key !in prices ==> h.incVat.None? && h.excVat.None?)
    && (c.key in prices && prices[c.key].data.Price? ==>
          h.incVat == Some(prices[c.key].data.incVat) && h.excVat == Some(prices[c.key].data.excVat))
  }

  // Every carbon row gives exactly one mart row, priced exactly when its key is priced.
  lemma {:induction false} OneMartRowPerCarbonRow(carbon: seq<CarbonRow>, prices: seq<PriceRow>, priceTable: Hot)
    requires Lists(prices, priceTable)
    ensures |LeftJoin(carbon, prices)| == |carbon|
    ensures forall i :: 0 <= i < |carbon| ==> MartRow(LeftJoin(carbon, prices)[i], carbon[i], priceTable)
  {
    hide MartRow, JoinRow;
    if carbon != [] {
      OneMartRowPerCarbonRow(Init(carbon), prices, priceTable);
      RowJoinsOnce(Last(carbon), prices, priceTable);
    }
  }

  lemma RowJoinsOnce(c: CarbonRow, prices: seq<PriceRow>, priceTable: Hot)
    requires Lists(prices, priceTable)
    ensures |JoinRow(c, prices)| == 1 && MartRow(JoinRow(c, prices)[0], c, priceTable)
  {
    MatchesOf(c, prices);
    if c.key in priceTable {
      var i :| 0 <= i < |prices| && prices[i] == Row(c.key, priceTable[c.key].data);
      assert Matches(c, prices) == [prices[i]];
    }
  }

  // (region_id, period_start_utc) identifies a row.
  ghost predicate UniqueKeys(mart: seq<HalfHour>) {
    forall i, j :: 0 <= i < j < |mart| ==> mart[i].region != mart[j].region || mart[i].start != mart[j].start
  }

  // The mart over any ingest history: one row per carbon key, keys unique, and no price for
  // region 0, which the price table's CHECK never admits.
  lemma MartOverHistories(carbonHistory: seq<Batch>, priceHistory: seq<Batch>, carbon: seq<CarbonRow>,
                          prices: seq<PriceRow>)
    requires Lists(carbon, IngestHistory(CarbonIntensity, carbonHistory))
    requires Lists(prices, IngestHistory(AgilePrice, priceHistory))
    ensures var mart := LeftJoin(carbon, prices);
            && |mart| == |carbon|
            && UniqueKeys(mart)
            && forall i :: 0 <= i < |mart| ==>
                 && MartRow(mart[i], carbon[i], IngestHistory(AgilePrice, priceHistory))
                 && (mart[i].region == 0 ==> mart[i].incVat.None? && mart[i].excVat.None?)
  {
    var priceTable := IngestHistory(AgilePrice, priceHistory);
    OneMartRowPerCarbonRow(carbon, prices, priceTable);
    var mart := LeftJoin(carbon, prices);
    forall i | 0 <= i < |mart|
      ensures mart[i].region == 0 ==> carbon[i].key !in priceTable
    {
      assert MartRow(mart[i], carbon[i], priceTable);
      PricedRegions(priceHistory, carbon[i].key);
    }
    forall i, j | 0 <= i < j < |mart|
      ensures mart[i].region != mart[j].region || mart[i].start != mart[j].start
    {
      assert MartRow(mart[i], carbon[i], priceTable) && MartRow(mart[j], carbon[j], priceTable);
      assert carbon[i].key != carbon[j].key;
    }
  }

  lemma PricedRegions(history: seq<Batch>, k: Key)
    ensures k in IngestHistory(AgilePrice, history) ==> k.RegionKey? && 1 <= k.region <= 14
  {
    HistoryReflectsLog(AgilePrice, history);
    assert Lookup(IngestHistory(AgilePrice, history), k) == Expected(Committed(AgilePrice, history), k);
    if LastLogged(Committed(AgilePrice, history), k).Some? {
      LoggedKeyAdmitted(Committed(AgilePrice, history), k);
    }
  }

  lemma {:induction false} LoggedKeyAdmitted(log: seq<Row>, k: Key)
    requires AllAdmissible(AgilePrice, log) && LastLogged(log, k).Some?
    ensures k.RegionKey? && 1 <= k.region <= 14
  {
    if Last(log).key == k {
      assert Admissible(AgilePrice, Last(log));
    } else {
      LoggedKeyAdmitted(Init(log), k);
    }
  }
}
