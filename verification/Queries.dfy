// gridpulse/api/queries.py: the range and latest-row reads behind the API.
module Queries {
  import opened Prelude
  import opened Sorting
  import opened Grid
  import opened Rows
  import opened HotStore
  import H = HalfHourly

  const MAX_RANGE := 14 * 86400

  // A row of mart_half_hourly or raw.agile_price as these reads see it; (region, start) is
  // its key, and Columns is whatever else is selected.
  datatype Point<Columns> = Point(region: int, start: int, end: int, columns: Columns)

  ghost predicate KeyedPoints<C>(rows: seq<Point<C>>) {
    forall i, j :: 0 <= i < j < |rows| ==> rows[i].region != rows[j].region || rows[i].start != rows[j].start
  }

  predicate Earlier<C>(a: Point<C>, b: Point<C>) {
    a.start < b.start
  }

  predicate Later<C>(a: Point<C>, b: Point<C>) {
    a.start > b.start
  }

  // The rows a WHERE clause keeps.
  function Where<C>(rows: seq<Point<C>>, keep: Point<C> -> bool): seq<Point<C>> {
    if rows == [] then []
    else Where(Init(rows), keep) + if keep(Last(rows)) then [Last(rows)] else []
  }

  function InRange<C>(region: int, lo: int, hi: int): Point<C> -> bool {
    (p: Point<C>) => p.region == region && lo <= p.start < hi
  }

  function OfRegion<C>(region: int): Point<C> -> bool {
    (p: Point<C>) => p.region == region
  }

  function Covering<C>(region: int, now: int): Point<C> -> bool {
    (p: Point<C>) => p.region == region && p.start <= now < p.end
  }

  datatype RangeResult<C> = Points(points: seq<Point<C>>) | RangeTooLong

  function GetRange<C>(rows: seq<Point<C>>, region: int, lo: int, hi: int): RangeResult<C> {
    if hi - lo > MAX_RANGE then RangeTooLong
    else Points(Sort(Earlier<C>, Where(rows, InRange(region, lo, hi))))
  }

  // ORDER BY period_start_utc DESC LIMIT 1
  function Latest<C>(rows: seq<Point<C>>): Option<Point<C>> {
    var latest := Sort(Later<C>, rows);
    if latest == [] then None else Some(latest[0])
  }

  function GetCurrent<C>(rows: seq<Point<C>>, region: int): Option<Point<C>> {
    Latest(Where(rows, OfRegion(region)))
  }

  function GetCurrentPrice<C>(rows: seq<Point<C>>, region: int, now: int): Option<Point<C>> {
    if region == 0 then None else Latest(Where(rows, Covering(region, now)))
  }

  // ---- What the reads return ----

  ghost predicate NoSharedStart<C>(rows: seq<Point<C>>) {
    forall i, j :: 0 <= i < j < |rows| ==> rows[i].start != rows[j].start
  }

  lemma {:induction false} WhereHolds<C(!new)>(rows: seq<Point<C>>, keep: Point<C> -> bool, region: int)
    requires KeyedPoints(rows) && forall p :: keep(p) ==> p.region == region
    ensures NoSharedStart(Where(rows, keep))
    ensures forall p :: p in Where(rows, keep) <==> p in rows && keep(p)
  {
    if rows != [] {
      var front, last := Init(rows), Last(rows);
      WhereHolds(front, keep, region);
      forall p
        ensures p in rows <==> p in front || p == last
      {
      }
      var s := Where(front, keep);
      forall i | 0 <= i < |s|
        ensures last.region == region ==> s[i].start != last.start
      {
        assert s[i] in s;
        var j :| 0 <= j < |front| && front[j] == s[i];
        assert rows[j] == front[j] && rows[|rows| - 1] == last;
      }
    }
  }

  // A range read refuses more than 14 days and otherwise returns the region's rows of [lo, hi),
  // each once, strictly increasing in start.
  lemma RangeReturns<C(!new)>(rows: seq<Point<C>>, region: int, lo: int, hi: int)
    requires KeyedPoints(rows)
    ensures GetRange(rows, region, lo, hi).RangeTooLong? <==> hi > lo + 14 * 86400
    ensures var r := GetRange(rows, region, lo, hi);
            r.Points? ==>
            && Sorted(Earlier<C>, r.points)
            && (forall i, j :: 0 <= i < j < |r.points| ==> r.points[i].start < r.points[j].start)
            && forall p :: p in r.points <==> p in rows && p.region == region && lo <= p.start < hi
  {
    var s := Where(rows, InRange(region, lo, hi));
    WhereHolds(rows, InRange(region, lo, hi), region);
    assert forall i, j :: 0 <= i < j < |s| ==> s[i].start != s[j].start;
    assert NoTies(Earlier<C>, s);
    SortSorts(Earlier<C>, s);
  }

  lemma {:induction false} WhereSplits<C>(rows: seq<Point<C>>, region: int, lo: int, mid: int, hi: int)
    requires lo <= mid <= hi
    ensures multiset(Where(rows, InRange(region, lo, hi))) ==
            multiset(Where(rows, InRange(region, lo, mid))) + multiset(Where(rows, InRange(region, mid, hi)))
  {
    if rows != [] {
      WhereSplits(Init(rows), region, lo, mid, hi);
    }
  }

  // Adjacent ranges compose: reading [lo, mid) and then [mid, hi) gives what [lo, hi) gives.
  lemma RangesCompose<C(!new)>(rows: seq<Point<C>>, region: int, lo: int, mid: int, hi: int)
    requires KeyedPoints(rows) && lo <= mid <= hi && hi - lo <= MAX_RANGE
    ensures GetRange(rows, region, lo, hi) ==
            Points(GetRange(rows, region, lo, mid).points + GetRange(rows, region, mid, hi).points)
  {
    RangeReturns(rows, region, lo, mid);
    RangeReturns(rows, region, mid, hi);
    RangeReturns(rows, region, lo, hi);
    var a, b := GetRange(rows, region, lo, mid).points, GetRange(rows, region, mid, hi).points;
    forall i, j | 0 <= i < j < |a + b|
      ensures Earlier((a + b)[i], (a + b)[j])
    {
      assert i < |a| ==> a[i] in a;
      assert j >= |a| ==> b[j - |a|] in b;
    }
    WhereSplits(rows, region, lo, mid, hi);
    SortedIsUnique(Earlier<C>, GetRange(rows, region, lo, hi).points, a + b);
  }

  function Starts<C>(points: seq<Point<C>>): seq<int> {
    seq(|points|, i requires 0 <= i < |points| => points[i].start)
  }

  // A range holds at most 672 points on the half-hour grid: it can exceed 672 only by points that
  // start off the grid.
  lemma AtMost672Points<C(!new)>(rows: seq<Point<C>>, region: int, lo: int, hi: int)
    requires KeyedPoints(rows) && hi - lo <= MAX_RANGE
    ensures var points := GetRange(rows, region, lo, hi).points;
            |points| <= 672 + OffGrid(Starts(points))
  {
    RangeReturns(rows, region, lo, hi);
    var points := GetRange(rows, region, lo, hi).points;
    var starts := Starts(points);
    forall i | 0 <= i < |starts|
      ensures lo <= starts[i] < lo + 1800 * 672
    {
      assert points[i] in points;
    }
    forall i, j | 0 <= i < j < |starts|
      ensures starts[i] != starts[j]
    {
      assert Earlier(points[i], points[j]);
    }
    FitsGrid(starts, lo, 672);
  }

  lemma LatestIsGreatest<C(!new)>(rows: seq<Point<C>>)
    requires NoSharedStart(rows)
    ensures match Latest(rows)
            case None => rows == []
            case Some(c) => c in rows && forall p :: p in rows ==> p.start <= c.start
  {
    assert NoTies(Later<C>, rows);
    SortSorts(Later<C>, rows);
    var latest := Sort(Later<C>, rows);
    forall p | p in latest
      ensures p.start <= latest[0].start
    {
      FirstIsLeast(Later<C>, latest, p);
    }
    if latest != [] {
      assert latest[0] in latest;
    }
  }

  // The current row is the region's latest, and there is none only if the region has no rows.
  lemma CurrentIsLatest<C(!new)>(rows: seq<Point<C>>, region: int)
    requires KeyedPoints(rows)
    ensures match GetCurrent(rows, region)
            case None => forall p :: p in rows ==> p.region != region
            case Some(c) => c in rows && c.region == region && forall p :: p in rows && p.region == region ==> p.start <= c.start
  {
    WhereHolds(rows, OfRegion(region), region);
    LatestIsGreatest(Where(rows, OfRegion(region)));
  }

  // The current price is, of the region's periods containing now, the one that starts last; NATIONAL
  // has none.
  lemma CurrentPriceExactlyWhen<C(!new)>(rows: seq<Point<C>>, region: int, now: int, p: Point<C>)
    requires KeyedPoints(rows)
    ensures GetCurrentPrice(rows, region, now) == Some(p) <==>
            && region != 0 && p in rows && p.region == region && p.start <= now < p.end
            && forall q :: q in rows && q.region == region && q.start <= now < q.end ==> q.start <= p.start
  {
    var covering := Where(rows, Covering(region, now));
    WhereHolds(rows, Covering(region, now), region);
    LatestIsGreatest(covering);
    if region != 0 && p in covering && forall q :: q in covering ==> q.start <= p.start {
      SameStartSamePoint(covering, p, GetCurrentPrice(rows, region, now).value);
    }
  }

  lemma SameStartSamePoint<C>(rows: seq<Point<C>>, p: Point<C>, q: Point<C>)
    requires NoSharedStart(rows) && p in rows && q in rows && p.start == q.start
    ensures p == q
  {
    var i :| 0 <= i < |rows| && rows[i] == p;
    var j :| 0 <= j < |rows| && rows[j] == q;
    assert i == j;
  }

  // When the current row lies in a range, it is the range's last point.
  lemma CurrentEndsItsRange<C(!new)>(rows: seq<Point<C>>, region: int, lo: int, hi: int)
    requires KeyedPoints(rows) && hi - lo <= MAX_RANGE
    requires GetCurrent(rows, region).Some? && lo <= GetCurrent(rows, region).value.start < hi
    ensures var points := GetRange(rows, region, lo, hi).points;
            points != [] && Last(points) == GetCurrent(rows, region).value
  {
    CurrentIsLatest(rows, region);
    RangeReturns(rows, region, lo, hi);
    var points, c := GetRange(rows, region, lo, hi).points, GetCurrent(rows, region).value;
    assert c in points;
    LastIsGreatest(Earlier<C>, points, c);
    assert Last(points) in points;
  }

  // ---- The reads, from the raw tables on ----

  datatype CarbonColumns = CarbonColumns(forecast: int, actual: Option<int>, index: string)
  datatype PriceColumns = PriceColumns(incVat: real, excVat: real)

  // mart_half_hourly as the carbon reads see it.
  function CarbonPoints(mart: seq<H.HalfHour>): seq<Point<CarbonColumns>> {
    seq(|mart|, i requires 0 <= i < |mart| =>
      Point(mart[i].region, mart[i].start, mart[i].end, CarbonColumns(mart[i].forecast, mart[i].actual, mart[i].index)))
  }

  // raw.agile_price as the price reads see it.
  function PricePoints(prices: seq<H.PriceRow>): seq<Point<PriceColumns>> {
    seq(|prices|, i requires 0 <= i < |prices| =>
      Point(prices[i].key.region, prices[i].key.start, prices[i].data.end,
            PriceColumns(prices[i].data.incVat, prices[i].data.excVat)))
  }

  ghost predicate IsCarbonRow(p: Point<CarbonColumns>, table: Hot) {
    var k := RegionKey(p.region, p.start);
    k in table && table[k].data == Carbon(p.end, p.columns.forecast, p.columns.actual, p.columns.index)
  }

  ghost predicate IsPriceRow(p: Point<PriceColumns>, table: Hot) {
    var k := RegionKey(p.region, p.start);
    k in table && table[k].data == Price(p.end, p.columns.incVat, p.columns.excVat)
  }

  // Whatever was ingested, the mart shows the carbon reads exactly the raw carbon table, keyed.
  lemma CarbonPointsAreTheTable(carbonHistory: seq<Batch>, priceHistory: seq<Batch>,
                                carbon: seq<H.CarbonRow>, prices: seq<H.PriceRow>)
    requires H.Lists(carbon, IngestHistory(CarbonIntensity, carbonHistory))
    requires H.Lists(prices, IngestHistory(AgilePrice, priceHistory))
    ensures var points := CarbonPoints(H.LeftJoin(carbon, prices));
            KeyedPoints(points) && forall p :: p in points <==> IsCarbonRow(p, IngestHistory(CarbonIntensity, carbonHistory))
  {
    hide IngestHistory, H.LeftJoin;
    var table := IngestHistory(CarbonIntensity, carbonHistory);
    var mart := H.LeftJoin(carbon, prices);
    var points := CarbonPoints(mart);
    H.MartOverHistories(carbonHistory, priceHistory, carbon, prices);
    forall i | 0 <= i < |points|
      ensures IsCarbonRow(points[i], table)
    {
      assert H.MartRow(mart[i], carbon[i], IngestHistory(AgilePrice, priceHistory));
      assert carbon[i].key == RegionKey(points[i].region, points[i].start);
    }
    forall p | IsCarbonRow(p, table)
      ensures p in points
    {
      var k := RegionKey(p.region, p.start);
      var i :| 0 <= i < |carbon| && carbon[i] == Row(k, table[k].data);
      assert H.MartRow(mart[i], carbon[i], IngestHistory(AgilePrice, priceHistory));
      assert points[i] == p;
    }
  }

  lemma PricePointsAreTheTable(prices: seq<H.PriceRow>, table: Hot)
    requires H.Lists(prices, table)
    ensures KeyedPoints(PricePoints(prices))
    ensures forall p :: p in PricePoints(prices) <==> IsPriceRow(p, table)
  {
    var points := PricePoints(prices);
    forall i, j | 0 <= i < j < |points|
      ensures points[i].region != points[j].region || points[i].start != points[j].start
    {
      assert prices[i].key != prices[j].key;
    }
    forall i | 0 <= i < |points|
      ensures IsPriceRow(points[i], table)
    {
      assert prices[i].key == RegionKey(points[i].region, points[i].start);
    }
    forall p | IsPriceRow(p, table)
      ensures p in points
    {
      var k := RegionKey(p.region, p.start);
      var i :| 0 <= i < |prices| && prices[i] == Row(k, table[k].data);
      assert points[i] == p;
    }
  }

  // End to end: a carbon range read returns exactly the raw table's rows of the region and window.
  lemma CarbonRangeReadsTheTable(carbonHistory: seq<Batch>, priceHistory: seq<Batch>, carbon: seq<H.CarbonRow>,
                                 prices: seq<H.PriceRow>, region: int, lo: int, hi: int)
    requires H.Lists(carbon, IngestHistory(CarbonIntensity, carbonHistory))
    requires H.Lists(prices, IngestHistory(AgilePrice, priceHistory))
    ensures var r := GetRange(CarbonPoints(H.LeftJoin(carbon, prices)), region, lo, hi);
            r.Points? ==>
            && (forall i, j :: 0 <= i < j < |r.points| ==> r.points[i].start < r.points[j].start)
            && forall p :: p in r.points <==>
                             IsCarbonRow(p, IngestHistory(CarbonIntensity, carbonHistory)) && p.region == region && lo <= p.start < hi
  {
    hide IngestHistory, H.LeftJoin, CarbonPoints, IsCarbonRow, GetRange;
    CarbonPointsAreTheTable(carbonHistory, priceHistory, carbon, prices);
    RangeReturns(CarbonPoints(H.LeftJoin(carbon, prices)), region, lo, hi);
  }

  // End to end: a price range read does the same over raw.agile_price.
  lemma PriceRangeReadsTheTable(prices: seq<H.PriceRow>, table: Hot, region: int, lo: int, hi: int)
    requires H.Lists(prices, table)
    ensures var r := GetRange(PricePoints(prices), region, lo, hi);
            r.Points? ==>
            && (forall i, j :: 0 <= i < j < |r.points| ==> r.points[i].start < r.points[j].start)
            && forall p :: p in r.points <==> IsPriceRow(p, table) && p.region == region && lo <= p.start < hi
  {
    hide PricePoints, IsPriceRow, GetRange;
    PricePointsAreTheTable(prices, table);
    RangeReturns(PricePoints(prices), region, lo, hi);
  }
}
