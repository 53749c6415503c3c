// gridpulse/contracts/carbon_intensity.py: validated API responses to rows, and what the
// two carbon streams do to each other once both are upserted into one table.
module Contracts {
  import opened Prelude
  import opened Rows
  import opened HotStore

  datatype NationalPeriod = NationalPeriod(start: int, end: int, forecast: int, actual: Option<int>, index: string)
  datatype Region = Region(regionid: int, forecast: int, index: string)
  datatype RegionalPeriod = RegionalPeriod(start: int, end: int, regions: seq<Region>)

  const NATIONAL_REGION_ID := 0

  // England, Scotland, Wales and GB.
  predicate IsRollup(regionid: int) {
    regionid in {15, 16, 17, 18}
  }

  function NationalRow(p: NationalPeriod): Row {
    Row(RegionKey(NATIONAL_REGION_ID, p.start), Carbon(p.end, p.forecast, p.actual, p.index))
  }

  function NationalRows(data: seq<NationalPeriod>): seq<Row> {
    seq(|data|, i requires 0 <= i < |data| => NationalRow(data[i]))
  }

  function RegionRow(p: RegionalPeriod, r: Region): Row {
    Row(RegionKey(r.regionid, p.start), Carbon(p.end, r.forecast, None, r.index))
  }

  function PeriodRows(p: RegionalPeriod, regions: seq<Region>): seq<Row> {
    if regions == [] then []
    else if IsRollup(Last(regions).regionid) then PeriodRows(p, Init(regions))
    else PeriodRows(p, Init(regions)) + [RegionRow(p, Last(regions))]
  }

  function RegionalRows(data: seq<RegionalPeriod>): seq<Row> {
    if data == [] then [] else RegionalRows(Init(data)) + PeriodRows(Last(data), Last(data).regions)
  }

  method RegionalToRows(data: seq<RegionalPeriod>) returns (rows: seq<Row>)
    ensures rows == RegionalRows(data)
  {
    rows := [];
    for i := 0 to |data|
      invariant rows == RegionalRows(data[..i])
    {
      var period := data[i];
      ghost var before := rows;
      for j := 0 to |period.regions|
        invariant rows == before + PeriodRows(period, period.regions[..j])
      {
        var region := period.regions[j];
        assert Init(period.regions[..j + 1]) == period.regions[..j];
        if IsRollup(region.regionid) {
          continue;
        }
        rows := rows + [RegionRow(period, region)];
      }
      assert period.regions[..|period.regions|] == period.regions;
      assert Init(data[..i + 1]) == data[..i];
    }
    assert data[..|data|] == data;
  }

  // ---- What the conversion keeps ----

  function Ids(regions: seq<Region>): seq<int> {
    seq(|regions|, i requires 0 <= i < |regions| => regions[i].regionid)
  }

  function RowRegions(rows: seq<Row>): seq<int>
    requires forall i :: 0 <= i < |rows| ==> rows[i].key.RegionKey?
  {
    seq(|rows|, i requires 0 <= i < |rows| => rows[i].key.region)
  }

  lemma {:induction false} PeriodRowsKeyed(p: RegionalPeriod, regions: seq<Region>)
    ensures forall i :: 0 <= i < |PeriodRows(p, regions)| ==> PeriodRows(p, regions)[i].key.RegionKey?
  {
    if regions != [] {
      PeriodRowsKeyed(p, Init(regions));
    }
  }

  // Every non-rollup entry gives exactly one row, and every rollup none.
  lemma {:induction false} PeriodRowsCount(p: RegionalPeriod, regions: seq<Region>, id: int)
    ensures forall i :: 0 <= i < |PeriodRows(p, regions)| ==> PeriodRows(p, regions)[i].key.RegionKey?
    ensures multiset(RowRegions(PeriodRows(p, regions)))[id] == if IsRollup(id) then 0 else multiset(Ids(regions))[id]
  {
    PeriodRowsKeyed(p, regions);
    if regions != [] {
      var front, last := Init(regions), Last(regions);
      PeriodRowsCount(p, front, id);
      assert Ids(regions) == Ids(front) + [last.regionid];
      if !IsRollup(last.regionid) {
        assert RowRegions(PeriodRows(p, regions)) == RowRegions(PeriodRows(p, front)) + [last.regionid];
      }
    }
  }

  // A /regional period listing ids 1..18 once each, in any order, gives regions 1..14 once each.
  lemma EighteenRegionsGiveFourteen(p: RegionalPeriod, id: int)
    requires forall n :: multiset(Ids(p.regions))[n] == if 1 <= n <= 18 then 1 else 0
    ensures forall i :: 0 <= i < |PeriodRows(p, p.regions)| ==> PeriodRows(p, p.regions)[i].key.RegionKey?
    ensures multiset(RowRegions(PeriodRows(p, p.regions)))[id] == if 1 <= id <= 14 then 1 else 0
  {
    PeriodRowsCount(p, p.regions, id);
  }

  // ---- Two streams, one table ----

  datatype Fetch =
    | National(periods: seq<NationalPeriod>, at: int)
    | Regional(data: seq<RegionalPeriod>, at: int)

  function ToBatch(f: Fetch): Batch {
    match f
    case National(periods, at) => Batch(NationalRows(periods), at)
    case Regional(data, at) => Batch(RegionalRows(data), at)
  }

  function Batches(run: seq<Fetch>): seq<Batch> {
    seq(|run|, i requires 0 <= i < |run| => ToBatch(run[i]))
  }

  function Table(run: seq<Fetch>): Hot {
    IngestHistory(CarbonIntensity, Batches(run))
  }

  // One of the two streams, its order kept.
  function Stream(run: seq<Fetch>, national: bool): seq<Fetch> {
    if run == [] then []
    else if Last(run).National? == national then Stream(Init(run), national) + [Last(run)]
    else Stream(Init(run), national)
  }

  // The response names no region 0.
  predicate NoRegionZero(f: Fetch) {
    f.Regional? ==> forall i, j :: 0 <= i < |f.data| && 0 <= j < |f.data[i].regions| ==> f.data[i].regions[j].regionid != 0
  }

  // What the two streams need of a fetch: it names no region 0, or Postgres refuses it whole.
  predicate Harmless(f: Fetch) {
    NoRegionZero(f) || !AllAdmissible(CarbonIntensity, ToBatch(f).rows)
  }

  lemma {:induction false} RegionalKeys(data: seq<RegionalPeriod>, row: Row)
    requires row in RegionalRows(data)
    ensures row.key.RegionKey? && row.data.Carbon? && row.data.actual.None?
    ensures exists i, j :: 0 <= i < |data| && 0 <= j < |data[i].regions| && !IsRollup(data[i].regions[j].regionid) &&
                           row == RegionRow(data[i], data[i].regions[j])
  {
    var front, p := Init(data), Last(data);
    if row in PeriodRows(p, p.regions) {
      var j := PeriodRowFrom(p, p.regions, row);
      assert row == RegionRow(data[|data| - 1], data[|data| - 1].regions[j]);
    } else {
      RegionalKeys(front, row);
      var i, j :| 0 <= i < |front| && 0 <= j < |front[i].regions| && !IsRollup(front[i].regions[j].regionid) &&
                  row == RegionRow(front[i], front[i].regions[j]);
      assert row == RegionRow(data[i], data[i].regions[j]);
    }
  }

  lemma {:induction false} PeriodRowFrom(p: RegionalPeriod, regions: seq<Region>, row: Row) returns (j: nat)
    requires row in PeriodRows(p, regions)
    ensures j < |regions| && !IsRollup(regions[j].regionid) && row == RegionRow(p, regions[j])
  {
    if !IsRollup(Last(regions).regionid) && row == RegionRow(p, Last(regions)) {
      j := |regions| - 1;
    } else {
      j := PeriodRowFrom(p, Init(regions), row);
    }
  }

  lemma {:induction false} ForeignTail(log: seq<Row>, k: Key)
    requires forall i :: 0 <= i < |log| ==> log[i].key != k
    ensures LastLogged(log, k).None? && LastActual(log, k).None?
  {
    if log != [] {
      ForeignTail(Init(log), k);
    }
  }

  // Which stream writes keys of region 0, and which writes the others.
  lemma StreamOwnsKey(f: Fetch, k: Key)
    requires NoRegionZero(f)
    requires f.National? != (k.RegionKey? && k.region == NATIONAL_REGION_ID)
    ensures LastLogged(ToBatch(f).rows, k).None? && LastActual(ToBatch(f).rows, k).None?
  {
    var rows := ToBatch(f).rows;
    forall i | 0 <= i < |rows|
      ensures rows[i].key != k
    {
      if f.Regional? {
        RegionalKeys(f.data, rows[i]);
      }
    }
    ForeignTail(rows, k);
  }

  lemma CommittedStep(run: seq<Fetch>, last: Fetch)
    ensures Committed(CarbonIntensity, Batches(run + [last])) ==
            if AllAdmissible(CarbonIntensity, ToBatch(last).rows)
            then Committed(CarbonIntensity, Batches(run)) + ToBatch(last).rows
            else Committed(CarbonIntensity, Batches(run))
  {
    assert Batches(run + [last]) == Batches(run) + [ToBatch(last)];
    assert Init(Batches(run + [last])) == Batches(run);
  }

  // What the log says about k depends only on the stream that owns k.
  lemma {:induction false} OwnStreamDecides(run: seq<Fetch>, k: Key, national: bool)
    requires forall i :: 0 <= i < |run| ==> Harmless(run[i])
    requires national == (k.RegionKey? && k.region == NATIONAL_REGION_ID)
    ensures var whole := Committed(CarbonIntensity, Batches(run));
            var own := Committed(CarbonIntensity, Batches(Stream(run, national)));
            LastLogged(whole, k) == LastLogged(own, k) && LastActual(whole, k) == LastActual(own, k)
  {
    hide LastLogged, LastActual, ToBatch, Committed, Batches, AllAdmissible;
    if run != [] {
      var front, last := Init(run), Last(run);
      OwnStreamDecides(front, k, national);
      assert run == front + [last];
      CommittedStep(front, last);
      if AllAdmissible(CarbonIntensity, ToBatch(last).rows) {
        ExpectedAppend(Committed(CarbonIntensity, Batches(front)), ToBatch(last).rows, k);
        if last.National? != national {
          StreamOwnsKey(last, k);
        }
      }
      if last.National? == national {
        CommittedStep(Stream(front, national), last);
        ExpectedAppend(Committed(CarbonIntensity, Batches(Stream(front, national))), ToBatch(last).rows, k);
      }
    }
  }

  // Two runs that agree on each stream leave the same table, ingested_at_utc aside,
  // however the streams are interleaved.
  lemma InterleavingDoesNotMatter(run1: seq<Fetch>, run2: seq<Fetch>)
    requires Stream(run1, true) == Stream(run2, true)
    requires Stream(run1, false) == Stream(run2, false)
    requires forall i :: 0 <= i < |run1| ==> Harmless(run1[i])
    requires forall i :: 0 <= i < |run2| ==> Harmless(run2[i])
    ensures Payload(Table(run1)) == Payload(Table(run2))
  {
    HistoryReflectsLog(CarbonIntensity, Batches(run1));
    HistoryReflectsLog(CarbonIntensity, Batches(run2));
    forall k
      ensures Lookup(Table(run1), k) == Lookup(Table(run2), k)
    {
      var national := k.RegionKey? && k.region == NATIONAL_REGION_ID;
      OwnStreamDecides(run1, k, national);
      OwnStreamDecides(run2, k, national);
    }
    SameLookupsSamePayload(Table(run1), Table(run2));
  }

  // The condition is exact: a regional response commutes with every national fetch exactly when
  // it names no region 0 or is refused.
  lemma CommutesExactlyWhen(f: Fetch)
    requires f.Regional?
    ensures (forall g: Fetch :: g.National? ==> Payload(Table([f, g])) == Payload(Table([g, f]))) <==>
            NoRegionZero(f) || !AllAdmissible(CarbonIntensity, RegionalRows(f.data))
  {
    hide Table, Payload, AllAdmissible, RegionalRows;
    if NoRegionZero(f) || !AllAdmissible(CarbonIntensity, RegionalRows(f.data)) {
      forall g: Fetch | g.National?
        ensures Payload(Table([f, g])) == Payload(Table([g, f]))
      {
        HarmlessCommutes(f, g);
      }
    } else {
      var i, j :| 0 <= i < |f.data| && 0 <= j < |f.data[i].regions| && f.data[i].regions[j].regionid == 0;
      var g := RegionZeroCollides(f, i, j);
    }
  }

  lemma HarmlessCommutes(f: Fetch, g: Fetch)
    requires f.Regional? && g.National?
    requires NoRegionZero(f) || !AllAdmissible(CarbonIntensity, RegionalRows(f.data))
    ensures Payload(Table([f, g])) == Payload(Table([g, f]))
  {
    hide Table, Payload, AllAdmissible, RegionalRows, Stream;
    PairStreams(f, g);
    assert ToBatch(f).rows == RegionalRows(f.data);
    assert Harmless(f) && Harmless(g);
    InterleavingDoesNotMatter([f, g], [g, f]);
  }

  lemma PairStreams(f: Fetch, g: Fetch)
    requires f.Regional? && g.National?
    ensures Stream([f, g], true) == Stream([g, f], true) == [g]
    ensures Stream([f, g], false) == Stream([g, f], false) == [f]
  {
    assert Init([f, g]) == [f] && Init([g, f]) == [g];
    assert Init([f]) == [] && Init([g]) == [];
    assert Stream([f], true) == [] && Stream([g], true) == [g];
    assert Stream([f], false) == [f] && Stream([g], false) == [];
  }

  lemma RegionZeroCollides(f: Fetch, i: nat, j: nat) returns (g: Fetch)
    requires f.Regional? && AllAdmissible(CarbonIntensity, RegionalRows(f.data))
    requires i < |f.data| && j < |f.data[i].regions| && f.data[i].regions[j].regionid == NATIONAL_REGION_ID
    ensures g.National?
    ensures Payload(Table([f, g])) != Payload(Table([g, f]))
  {
    var rows := RegionalRows(f.data);
    var row := RegionRow(f.data[i], f.data[i].regions[j]);
    RegionalRowKept(f.data, i, j);
    LoggedIfPresent(rows, row);
    LastLoggedKind(CarbonIntensity, rows, row.key);
    var logged := LastLogged(rows, row.key).value.forecast;
    g := National([NationalPeriod(row.key.start, row.data.end, if logged == 0 then 1 else 0, None, row.data.index)], 0);
    assert Admissible(CarbonIntensity, row);
    var own := ToBatch(g).rows;
    assert Last(own).key == row.key && own == [Last(own)];
    ForecastAfterPair(f, g, row.key);
    ForecastAfterPair(g, f, row.key);
    assert Payload(Table([f, g]))[row.key].forecast != Payload(Table([g, f]))[row.key].forecast;
  }

  // Of two accepted fetches that both log k, the later one's forecast stands.
  lemma ForecastAfterPair(f: Fetch, g: Fetch, k: Key)
    requires AllAdmissible(CarbonIntensity, ToBatch(f).rows) && AllAdmissible(CarbonIntensity, ToBatch(g).rows)
    requires LastLogged(ToBatch(g).rows, k).Some?
    ensures k in Payload(Table([f, g])) && Payload(Table([f, g]))[k].Carbon?
    ensures LastLogged(ToBatch(g).rows, k).value.Carbon?
    ensures Payload(Table([f, g]))[k].forecast == LastLogged(ToBatch(g).rows, k).value.forecast
  {
    hide ToBatch, IngestHistory;
    CommittedPair(f, g);
    HistoryReflectsLog(CarbonIntensity, Batches([f, g]));
    ExpectedAppend(ToBatch(f).rows, ToBatch(g).rows, k);
    LastLoggedKind(CarbonIntensity, ToBatch(g).rows, k);
    assert Lookup(Table([f, g]), k) == Expected(ToBatch(f).rows + ToBatch(g).rows, k);
  }

  // Column by column: the rows are those of the non-rollup entries, and no others.
  lemma RegionalRowsMean(data: seq<RegionalPeriod>, row: Row)
    ensures row in RegionalRows(data) <==>
            exists i, j :: 0 <= i < |data| && 0 <= j < |data[i].regions| &&
                           var p, r := data[i], data[i].regions[j];
                           r.regionid !in {15, 16, 17, 18} &&
                           row == Row(RegionKey(r.regionid, p.start), Carbon(p.end, r.forecast, None, r.index))
  {
    if row in RegionalRows(data) {
      RegionalKeys(data, row);
    }
    forall i, j | 0 <= i < |data| && 0 <= j < |data[i].regions| && !IsRollup(data[i].regions[j].regionid)
      ensures RegionRow(data[i], data[i].regions[j]) in RegionalRows(data)
    {
      RegionalRowKept(data, i, j);
    }
  }

  lemma CommittedPair(f: Fetch, g: Fetch)
    requires AllAdmissible(CarbonIntensity, ToBatch(f).rows) && AllAdmissible(CarbonIntensity, ToBatch(g).rows)
    ensures Committed(CarbonIntensity, Batches([f, g])) == ToBatch(f).rows + ToBatch(g).rows
  {
    assert Init(Batches([f, g])) == [ToBatch(f)];
    assert Init([ToBatch(f)]) == [];
    assert Committed(CarbonIntensity, [ToBatch(f)]) == ToBatch(f).rows;
  }

  lemma {:induction false} RegionalRowKept(data: seq<RegionalPeriod>, i: nat, j: nat)
    requires i < |data| && j < |data[i].regions| && !IsRollup(data[i].regions[j].regionid)
    ensures RegionRow(data[i], data[i].regions[j]) in RegionalRows(data)
  {
    if i < |data| - 1 {
      RegionalRowKept(Init(data), i, j);
    } else {
      PeriodRowKept(data[i], data[i].regions, j);
    }
  }

  lemma {:induction false} PeriodRowKept(p: RegionalPeriod, regions: seq<Region>, j: nat)
    requires j < |regions| && !IsRollup(regions[j].regionid)
    ensures RegionRow(p, regions[j]) in PeriodRows(p, regions)
  {
    if j < |regions| - 1 {
      PeriodRowKept(p, Init(regions), j);
    }
  }

  lemma {:induction false} LoggedIfPresent(log: seq<Row>, row: Row)
    requires row in log
    ensures LastLogged(log, row.key).Some?
  {
    if Last(log).key != row.key {
      LoggedIfPresent(Init(log), row);
    }
  }

  // The conversion keeps the order of the response too: the row of entry j of period i comes right
  // after the rows of all earlier entries.
  lemma {:induction false} RegionalRowsInOrder(data: seq<RegionalPeriod>, i: nat, j: nat)
    requires i < |data| && j < |data[i].regions| && data[i].regions[j].regionid !in {15, 16, 17, 18}
    ensures var n := |RegionalRows(data[..i])| + |PeriodRows(data[i], data[i].regions[..j])|;
            var p, r := data[i], data[i].regions[j];
            && n < |RegionalRows(data)|
            && RegionalRows(data)[n] == Row(RegionKey(r.regionid, p.start), Carbon(p.end, r.forecast, None, r.index))
  {
    if i < |data| - 1 {
      RegionalRowsInOrder(Init(data), i, j);
      assert Init(data)[..i] == data[..i];
    } else {
      assert data[..i] == Init(data);
      PeriodRowsInOrder(data[i], data[i].regions, j);
    }
  }

  lemma {:induction false} PeriodRowsInOrder(p: RegionalPeriod, regions: seq<Region>, j: nat)
    requires j < |regions| && regions[j].regionid !in {15, 16, 17, 18}
    ensures var n := |PeriodRows(p, regions[..j])|;
            && n < |PeriodRows(p, regions)|
            && PeriodRows(p, regions)[n] ==
               Row(RegionKey(regions[j].regionid, p.start), Carbon(p.end, regions[j].forecast, None, regions[j].index))
  {
    if j < |regions| - 1 {
      PeriodRowsInOrder(p, Init(regions), j);
      assert Init(regions)[..j] == regions[..j];
    } else {
      assert regions[..j] == Init(regions);
    }
  }

  // ---- What a national fetch brings in ----

  // One row per period, in order, for region 0, every column the period's own.
  lemma NationalRowsMean(data: seq<NationalPeriod>)
    ensures |NationalRows(data)| == |data|
    ensures forall i :: 0 <= i < |data| ==>
              var p := data[i];
              NationalRows(data)[i] == Row(RegionKey(0, p.start), Carbon(p.end, p.forecast, p.actual, p.index))
  {
  }

  // What Postgres accepts of a national response.
  predicate Accepted(periods: seq<NationalPeriod>) {
    forall i :: 0 <= i < |periods| ==>
      var p := periods[i];
      && p.start < p.end && p.index in {"very low", "low", "moderate", "high", "very high"}
      && -32768 <= p.forecast <= 32767 && (p.actual.Some? ==> -32768 <= p.actual.value <= 32767)
  }

  lemma AcceptedRows(periods: seq<NationalPeriod>)
    ensures AllAdmissible(CarbonIntensity, NationalRows(periods)) <==> Accepted(periods)
  {
    var rows := NationalRows(periods);
    forall i | 0 <= i < |periods|
      ensures Admissible(CarbonIntensity, rows[i]) <==>
              var p := periods[i];
              && p.start < p.end && p.index in {"very low", "low", "moderate", "high", "very high"}
              && -32768 <= p.forecast <= 32767 && (p.actual.Some? ==> -32768 <= p.actual.value <= 32767)
    {
    }
  }

  // No other key changes, and after a refused fetch none does.
  lemma NationalFetchLeaves(run: seq<Fetch>, periods: seq<NationalPeriod>, at: int, k: Key)
    requires !Accepted(periods) || forall i :: 0 <= i < |periods| ==> k != RegionKey(0, periods[i].start)
    ensures Lookup(Table(run + [National(periods, at)]), k) == Lookup(Table(run), k)
  {
    var f := National(periods, at);
    var rows := NationalRows(periods);
    AcceptedRows(periods);
    CommittedStep(run, f);
    HistoryReflectsLog(CarbonIntensity, Batches(run));
    HistoryReflectsLog(CarbonIntensity, Batches(run + [f]));
    if Accepted(periods) {
      ForeignTail(rows, k);
      ExpectedAppend(Committed(CarbonIntensity, Batches(run)), rows, k);
    }
  }

  // End to end, after any run: an accepted national fetch leaves at (0, t) the columns of its last
  // period at t and the last `actual` it has for t, else the `actual` that was there.
  lemma NationalFetchLands(run: seq<Fetch>, periods: seq<NationalPeriod>, at: int, t: int, i: nat)
    requires Accepted(periods) && i < |periods| && periods[i].start == t
    ensures var k, was, after := RegionKey(0, t), Payload(Table(run)), Payload(Table(run + [National(periods, at)]));
            && k in after && after[k].Carbon? && (k in was ==> was[k].Carbon?)
            && Table(run + [National(periods, at)])[k].ingestedAt == at
            && ((forall j :: i < j < |periods| ==> periods[j].start != t) ==>
                  after[k].end == periods[i].end && after[k].forecast == periods[i].forecast && after[k].index == periods[i].index)
            && (periods[i].actual.Some? && (forall j :: i < j < |periods| && periods[j].start == t ==> periods[j].actual.None?) ==>
                  after[k].actual == periods[i].actual)
            && ((forall j :: 0 <= j < |periods| && periods[j].start == t ==> periods[j].actual.None?) ==>
                  after[k].actual == if k in was then was[k].actual else None)
  {
    hide Table, Payload;
    var rows, log := NationalRows(periods), Committed(CarbonIntensity, Batches(run));
    var k := RegionKey(0, t);
    AcceptedRows(periods);
    LoggedIfPresent(rows, rows[i]);
    TableAfter(run, National(periods, at), k);
    if forall j :: i < j < |periods| ==> periods[j].start != t {
      LoggedAt(rows, k, i);
    }
    if periods[i].actual.Some? && (forall j :: i < j < |periods| && periods[j].start == t ==> periods[j].actual.None?) {
      ActualAt(rows, k, i);
    }
    if forall j :: 0 <= j < |periods| && periods[j].start == t ==> periods[j].actual.None? {
      NoActual(rows, k);
    }
  }

  // The table at k after one more accepted fetch that logs k, in terms of what was there.
  lemma TableAfter(run: seq<Fetch>, f: Fetch, k: Key)
    requires AllAdmissible(CarbonIntensity, ToBatch(f).rows) && LastLogged(ToBatch(f).rows, k).Some?
    ensures LastLogged(ToBatch(f).rows, k).value.Carbon?
    ensures var was, after := Payload(Table(run)), Payload(Table(run + [f]));
            && (k in was ==> was[k].Carbon?)
            && k in after && Table(run + [f])[k].ingestedAt == ToBatch(f).at
            && after[k] == LastLogged(ToBatch(f).rows, k).value.(actual :=
                 if LastActual(ToBatch(f).rows, k).Some? then LastActual(ToBatch(f).rows, k)
                 else if k in was then was[k].actual else None)
  {
    hide IngestHistory, ToBatch;
    var rows, log := ToBatch(f).rows, Committed(CarbonIntensity, Batches(run));
    CommittedStep(run, f);
    HistoryReflectsLog(CarbonIntensity, Batches(run));
    HistoryReflectsLog(CarbonIntensity, Batches(run + [f]));
    ExpectedAppend(log, rows, k);
    LastLoggedKind(CarbonIntensity, rows, k);
    if LastLogged(log, k).Some? {
      LastLoggedKind(CarbonIntensity, log, k);
    } else {
      NeverLogged(log, k);
    }
    assert Lookup(Table(run), k) == Expected(log, k);
    assert Lookup(Table(run + [f]), k) == Expected(log + rows, k);
    StampAfter(run, f, k);
  }

  lemma StampAfter(run: seq<Fetch>, f: Fetch, k: Key)
    requires AllAdmissible(CarbonIntensity, ToBatch(f).rows) && LastLogged(ToBatch(f).rows, k).Some?
    ensures k in Table(run + [f]) && Table(run + [f])[k].ingestedAt == ToBatch(f).at
  {
    assert Batches(run + [f]) == Batches(run) + [ToBatch(f)];
    assert Init(Batches(run + [f])) == Batches(run);
    UpsertAllStamps(Table(run), ToBatch(f).rows, ToBatch(f).at, k);
  }

  // ---- What a regional fetch brings in ----

  // Entry j of period i is the last non-rollup entry of the response for its region and start.
  ghost predicate LastEntry(data: seq<RegionalPeriod>, i: nat, j: nat) {
    && i < |data| && j < |data[i].regions| && data[i].regions[j].regionid !in {15, 16, 17, 18}
    && (forall m :: j < m < |data[i].regions| ==> data[i].regions[m].regionid != data[i].regions[j].regionid)
    && forall l, m :: i < l < |data| && 0 <= m < |data[l].regions| && data[l].start == data[i].start ==>
         data[l].regions[m].regionid != data[i].regions[j].regionid
  }

  // End to end, after any run: an accepted regional fetch leaves at (region, t) the columns of its last
  // entry there, and the `actual` that was there.
  lemma RegionalFetchLands(run: seq<Fetch>, data: seq<RegionalPeriod>, at: int, i: nat, j: nat)
    requires AllAdmissible(CarbonIntensity, RegionalRows(data)) && LastEntry(data, i, j)
    ensures var p, r := data[i], data[i].regions[j];
            var k, was, after := RegionKey(r.regionid, p.start), Payload(Table(run)), Payload(Table(run + [Regional(data, at)]));
            && (k in was ==> was[k].Carbon?)
            && k in after && Table(run + [Regional(data, at)])[k].ingestedAt == at
            && after[k] == Carbon(p.end, r.forecast, if k in was then was[k].actual else None, r.index)
  {
    hide Table, Payload;
    var k := RegionKey(data[i].regions[j].regionid, data[i].start);
    LastEntryLogged(data, i, j);
    NoActuals(data, k);
    TableAfter(run, Regional(data, at), k);
  }

  lemma {:induction false} LastEntryLogged(data: seq<RegionalPeriod>, i: nat, j: nat)
    requires LastEntry(data, i, j)
    ensures var p, r := data[i], data[i].regions[j];
            LastLogged(RegionalRows(data), RegionKey(r.regionid, p.start)) == Some(Carbon(p.end, r.forecast, None, r.index))
  {
    var front, last := Init(data), Last(data);
    var k := RegionKey(data[i].regions[j].regionid, data[i].start);
    ExpectedAppend(RegionalRows(front), PeriodRows(last, last.regions), k);
    if i < |data| - 1 {
      assert data[|data| - 1] == last;
      forall n | 0 <= n < |PeriodRows(last, last.regions)|
        ensures PeriodRows(last, last.regions)[n].key != k
      {
        var m := PeriodRowFrom(last, last.regions, PeriodRows(last, last.regions)[n]);
      }
      ForeignTail(PeriodRows(last, last.regions), k);
      LastEntryLogged(front, i, j);
    } else {
      LastRegionLogged(last, last.regions, j);
    }
  }

  lemma {:induction false} LastRegionLogged(p: RegionalPeriod, regions: seq<Region>, j: nat)
    requires j < |regions| && regions[j].regionid !in {15, 16, 17, 18}
    requires forall m :: j < m < |regions| ==> regions[m].regionid != regions[j].regionid
    ensures LastLogged(PeriodRows(p, regions), RegionKey(regions[j].regionid, p.start)) ==
            Some(Carbon(p.end, regions[j].forecast, None, regions[j].index))
  {
    if j < |regions| - 1 {
      assert regions[|regions| - 1] == Last(regions);
      LastRegionLogged(p, Init(regions), j);
      assert !IsRollup(Last(regions).regionid) ==> Init(PeriodRows(p, regions)) == PeriodRows(p, Init(regions));
    }
  }

  lemma NoActuals(data: seq<RegionalPeriod>, k: Key)
    ensures LastActual(RegionalRows(data), k).None?
  {
    forall n | 0 <= n < |RegionalRows(data)|
      ensures !HasActual(RegionalRows(data)[n])
    {
      RegionalKeys(data, RegionalRows(data)[n]);
    }
    NoActual(RegionalRows(data), k);
  }
}
