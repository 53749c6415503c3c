// dbt/models/marts/mart_best_slots_24h.sql: the next 24 hours per region, ranked by price and
// by forecast carbon, nulls last, ties broken by period_start_utc.
module BestSlots {
  import opened Prelude
  import opened Sorting
  import opened Grid
  import opened HalfHourly
  import opened HotStore
  import opened Rows

  // ASC NULLS LAST, then period_start_utc.
  predicate Precedes(a: Option<real>, aStart: int, b: Option<real>, bStart: int) {
    || (a.Some? && b.None?)
    || (a.Some? && b.Some? && a.value < b.value)
    || (a == b && aStart < bStart)
  }

  datatype Metric = ByPrice | ByCarbon

  function Value(m: Metric, h: HalfHour): Option<real> {
    match m
    case ByPrice => h.incVat
    case ByCarbon => Some(h.forecast as real)
  }

  predicate Cheaper(a: HalfHour, b: HalfHour) {
    Precedes(Value(ByPrice, a), a.start, Value(ByPrice, b), b.start)
  }

  predicate Greener(a: HalfHour, b: HalfHour) {
    Precedes(Value(ByCarbon, a), a.start, Value(ByCarbon, b), b.start)
  }

  function Order(m: Metric): (HalfHour, HalfHour) -> bool {
    match m
    case ByPrice => Cheaper
    case ByCarbon => Greener
  }

  predicate Upcoming(h: HalfHour, now: int) {
    now <= h.start < now + 86400
  }

  // The rows of one window partition.
  function Partition(mart: seq<HalfHour>, now: int, region: int): seq<HalfHour> {
    if mart == [] then []
    else Partition(Init(mart), now, region) + if Upcoming(Last(mart), now) && Last(mart).region == region then [Last(mart)] else []
  }

  function Position<T(==)>(s: seq<T>, x: T): (i: nat)
    requires x in s
    ensures i < |s| && s[i] == x
  {
    if Last(s) == x then |s| - 1 else Position(Init(s), x)
  }

  // row_number() over (partition by region_id order by ...): sort the partition, then number it.
  function Ranking(mart: seq<HalfHour>, now: int, region: int, m: Metric): seq<HalfHour> {
    Sort(Order(m), Partition(mart, now, region))
  }

  function RowNumber(mart: seq<HalfHour>, now: int, m: Metric, h: HalfHour): nat
    requires h in Ranking(mart, now, h.region, m)
  {
    1 + Position(Ranking(mart, now, h.region, m), h)
  }

  // ---- The partition ----

  ghost predicate InPartition(mart: seq<HalfHour>, now: int, region: int, h: HalfHour) {
    h in mart && now <= h.start < now + 86400 && h.region == region
  }

  ghost predicate DistinctStarts(p: seq<HalfHour>) {
    forall i, j :: 0 <= i < j < |p| ==> p[i].start != p[j].start
  }

  lemma {:induction false} PartitionHolds(mart: seq<HalfHour>, now: int, region: int)
    requires UniqueKeys(mart)
    ensures forall h :: h in Partition(mart, now, region) <==> InPartition(mart, now, region, h)
    ensures DistinctStarts(Partition(mart, now, region))
  {
    if mart != [] {
      var front, last := Init(mart), Last(mart);
      PartitionHolds(front, now, region);
      forall h
        ensures h in Partition(mart, now, region) <==> InPartition(mart, now, region, h)
      {
        assert h in mart <==> h in front || h == last;
      }
      var p := Partition(front, now, region);
      forall i | 0 <= i < |p|
        ensures last.region == region ==> p[i].start != last.start
      {
        assert p[i] in p;
        assert InPartition(front, now, region, p[i]);
        var j :| 0 <= j < |front| && front[j] == p[i];
        assert mart[j] == front[j] && mart[|mart| - 1] == last;
      }
    }
  }

  lemma OrderIsStrict(m: Metric)
    ensures StrictOrder(Order(m))
  {
  }

  lemma RankingIsSorted(mart: seq<HalfHour>, now: int, region: int, m: Metric)
    requires UniqueKeys(mart)
    ensures StrictOrder(Order(m)) && Sorted(Order(m), Ranking(mart, now, region, m))
    ensures forall h :: h in Ranking(mart, now, region, m) <==> InPartition(mart, now, region, h)
    ensures |Ranking(mart, now, region, m)| == |Partition(mart, now, region)|
  {
    OrderIsStrict(m);
    PartitionHolds(mart, now, region);
    var p := Partition(mart, now, region);
    forall i, j | 0 <= i < j < |p|
      ensures Order(m)(p[i], p[j]) || Order(m)(p[j], p[i])
    {
      assert p[i].start != p[j].start;
    }
    assert NoTies(Order(m), p);
    SortSorts(Order(m), p);
  }

  // ---- The counting specification ----

  // The rows of h's region, in the window, that come strictly before h.
  ghost function Ahead(mart: seq<HalfHour>, now: int, m: Metric, h: HalfHour): set<HalfHour> {
    set x | x in mart && now <= x.start < now + 86400 && x.region == h.region && Order(m)(x, h)
  }

  // Sort-then-number computes the counting specification.
  lemma RowNumberCounts(mart: seq<HalfHour>, now: int, m: Metric, h: HalfHour)
    requires UniqueKeys(mart) && h in mart && Upcoming(h, now)
    ensures h in Ranking(mart, now, h.region, m)
    ensures RowNumber(mart, now, m, h) == 1 + |Ahead(mart, now, m, h)|
  {
    RankingIsSorted(mart, now, h.region, m);
    var r := Ranking(mart, now, h.region, m);
    assert InPartition(mart, now, h.region, h);
    PositionCounts(Order(m), r, Position(r, h));
    assert Before(Order(m), r, h) == Ahead(mart, now, m, h);
  }

  ghost predicate HasRank(mart: seq<HalfHour>, now: int, region: int, m: Metric, h: HalfHour, rank: nat) {
    InPartition(mart, now, region, h) && h in Ranking(mart, now, region, m) && RowNumber(mart, now, m, h) == rank
  }

  // ---- The mart ----

  datatype Slot = Slot(row: HalfHour, cheapestRank: nat, greenestRank: nat)

  // The final SELECT, over the first n mart rows.
  function Slots(mart: seq<HalfHour>, now: int, n: nat): seq<Slot>
    requires UniqueKeys(mart) && n <= |mart|
  {
    if n == 0 then []
    else if !Upcoming(mart[n - 1], now) then Slots(mart, now, n - 1)
    else
      var h := mart[n - 1];
      RowNumberCounts(mart, now, ByPrice, h);
      RowNumberCounts(mart, now, ByCarbon, h);
      Slots(mart, now, n - 1) + [Slot(h, RowNumber(mart, now, ByPrice, h), RowNumber(mart, now, ByCarbon, h))]
  }

  // One slot per upcoming row and no other, each with its two counted ranks.
  lemma {:induction false} SlotsMeetSpec(mart: seq<HalfHour>, now: int, n: nat)
    requires UniqueKeys(mart) && n <= |mart|
    ensures forall slot :: slot in Slots(mart, now, n) <==>
                           && slot.row in mart[..n] && now <= slot.row.start < now + 86400
                           && slot.cheapestRank == 1 + |Ahead(mart, now, ByPrice, slot.row)|
                           && slot.greenestRank == 1 + |Ahead(mart, now, ByCarbon, slot.row)|
  {
    hide Ahead, RowNumber;
    if n > 0 {
      var h := mart[n - 1];
      SlotsMeetSpec(mart, now, n - 1);
      assert mart[..n] == mart[..n - 1] + [h];
      if Upcoming(h, now) {
        RowNumberCounts(mart, now, ByPrice, h);
        RowNumberCounts(mart, now, ByCarbon, h);
      }
    }
  }

  // Which rows of the mart are slots: those starting in the 24 hours from now, and no others.
  lemma SlotExactlyWhen(mart: seq<HalfHour>, now: int, h: HalfHour)
    requires UniqueKeys(mart) && h in mart
    ensures (exists slot :: slot in Slots(mart, now, |mart|) && slot.row == h) <==> now <= h.start < now + 86400
  {
    hide Slots, Ahead;
    SlotsMeetSpec(mart, now, |mart|);
    assert mart[..|mart|] == mart;
    if now <= h.start < now + 86400 {
      var slot := Slot(h, 1 + |Ahead(mart, now, ByPrice, h)|, 1 + |Ahead(mart, now, ByCarbon, h)|);
      assert slot in Slots(mart, now, |mart|);
    }
  }

  // No row gives two slots.
  lemma {:induction false} SlotsDistinct(mart: seq<HalfHour>, now: int, n: nat)
    requires UniqueKeys(mart) && n <= |mart|
    ensures forall i, j :: 0 <= i < j < |Slots(mart, now, n)| ==> Slots(mart, now, n)[i].row != Slots(mart, now, n)[j].row
  {
    hide Ahead, RowNumber;
    if n > 0 {
      SlotsDistinct(mart, now, n - 1);
      var before := Slots(mart, now, n - 1);
      forall i | 0 <= i < |before|
        ensures before[i].row != mart[n - 1]
      {
        SlotsMeetSpec(mart, now, n - 1);
        assert before[i] in before;
      }
    }
  }

  // Per region the ranks are exactly 1..n, each held by one row.
  lemma RanksAreABijection(mart: seq<HalfHour>, now: int, region: int, m: Metric, rank: nat)
    requires UniqueKeys(mart)
    requires 1 <= rank <= |Partition(mart, now, region)|
    ensures exists h :: HasRank(mart, now, region, m, h, rank)
    ensures forall g, h | HasRank(mart, now, region, m, g, rank) && HasRank(mart, now, region, m, h, rank) :: g == h
  {
    hide Ranking, Partition, Order;
    RankingIsSorted(mart, now, region, m);
    var r := Ranking(mart, now, region, m);
    var h := r[rank - 1];
    assert h in r;
    assert Position(r, h) == rank - 1 by {
      NotBackwards(Order(m), r, Position(r, h), rank - 1);
    }
    assert HasRank(mart, now, region, m, h, rank);
  }

  // Which of two slots of a region ranks first, column by column: cheaper (or greener) first,
  // unpriced last, and the earlier of two equals.
  lemma RankFollowsColumns(mart: seq<HalfHour>, now: int, g: HalfHour, h: HalfHour)
    requires UniqueKeys(mart) && InPartition(mart, now, g.region, g) && InPartition(mart, now, g.region, h)
    ensures forall m :: g in Ranking(mart, now, g.region, m) && h in Ranking(mart, now, h.region, m)
    ensures RowNumber(mart, now, ByPrice, g) < RowNumber(mart, now, ByPrice, h) <==>
            match (g.incVat, h.incVat)
            case (Some(a), Some(b)) => a < b || (a == b && g.start < h.start)
            case (Some(_), None) => true
            case (None, Some(_)) => false
            case (None, None) => g.start < h.start
    ensures RowNumber(mart, now, ByCarbon, g) < RowNumber(mart, now, ByCarbon, h) <==>
            g.forecast < h.forecast || (g.forecast == h.forecast && g.start < h.start)
  {
    hide Ranking, Order, Ahead, RowNumber;
    forall m
      ensures g in Ranking(mart, now, g.region, m) && h in Ranking(mart, now, h.region, m)
      ensures RowNumber(mart, now, m, g) < RowNumber(mart, now, m, h) <==> Order(m)(g, h)
    {
      RankFollowsOrder(mart, now, m, g, h);
    }
    OrdersByColumns(g, h);
  }

  lemma OrdersByColumns(g: HalfHour, h: HalfHour)
    ensures Order(ByPrice)(g, h) <==>
            match (g.incVat, h.incVat)
            case (Some(a), Some(b)) => a < b || (a == b && g.start < h.start)
            case (Some(_), None) => true
            case (None, Some(_)) => false
            case (None, None) => g.start < h.start
    ensures Order(ByCarbon)(g, h) <==> g.forecast < h.forecast || (g.forecast == h.forecast && g.start < h.start)
  {
  }

  lemma RankFollowsOrder(mart: seq<HalfHour>, now: int, m: Metric, g: HalfHour, h: HalfHour)
    requires UniqueKeys(mart) && InPartition(mart, now, g.region, g) && InPartition(mart, now, g.region, h)
    ensures g in Ranking(mart, now, g.region, m) && h in Ranking(mart, now, h.region, m)
    ensures RowNumber(mart, now, m, g) < RowNumber(mart, now, m, h) <==> Order(m)(g, h)
  {
    hide Ranking, Order;
    RankingIsSorted(mart, now, g.region, m);
    var r := Ranking(mart, now, g.region, m);
    NotBackwards(Order(m), r, Position(r, h), Position(r, g));
  }

  // A rank depends only on the set of rows of its own region in the window: not on the order
  // the mart is read in, nor on any other region.
  lemma RankDependsOnOwnRegionOnly(a: seq<HalfHour>, b: seq<HalfHour>, now: int, m: Metric, h: HalfHour)
    requires UniqueKeys(a) && UniqueKeys(b)
    requires forall x :: InPartition(a, now, h.region, x) <==> InPartition(b, now, h.region, x)
    requires InPartition(a, now, h.region, h)
    ensures h in Ranking(a, now, h.region, m) && h in Ranking(b, now, h.region, m)
    ensures RowNumber(a, now, m, h) == RowNumber(b, now, m, h)
  {
    assert InPartition(b, now, h.region, h);
    RowNumberCounts(a, now, m, h);
    RowNumberCounts(b, now, m, h);
    forall x
      ensures x in Ahead(a, now, m, h) <==> x in Ahead(b, now, m, h)
    {
      assert InPartition(a, now, h.region, x) <==> InPartition(b, now, h.region, x);
    }
    assert Ahead(a, now, m, h) == Ahead(b, now, m, h);
  }

  // ---- The best k slots are the best k slots ----

  function Total(m: Metric, s: seq<HalfHour>): real
    requires forall i :: 0 <= i < |s| ==> Value(m, s[i]).Some?
  {
    if s == [] then 0.0 else Total(m, Init(s)) + Value(m, Last(s)).value
  }

  // How many rows of s have a value.
  function Valued(m: Metric, s: seq<HalfHour>): nat {
    if s == [] then 0 else Valued(m, Init(s)) + if Value(m, Last(s)).Some? then 1 else 0
  }

  lemma {:induction false} ValuedComeFirst(m: Metric, s: seq<HalfHour>)
    requires Sorted(Order(m), s)
    ensures Valued(m, s) <= |s|
    ensures forall i :: 0 <= i < |s| ==> (Value(m, s[i]).Some? <==> i < Valued(m, s))
  {
    if s != [] {
      ValuedComeFirst(m, Init(s));
      assert |s| > 1 ==> Order(m)(s[|s| - 2], s[|s| - 1]);
    }
  }

  lemma {:induction false} TotalWithout(m: Metric, s: seq<HalfHour>, i: nat)
    requires i < |s| && forall j :: 0 <= j < |s| ==> Value(m, s[j]).Some?
    ensures Total(m, s) == Total(m, s[..i] + s[i + 1..]) + Value(m, s[i]).value
  {
    var rest := s[..i] + s[i + 1..];
    if i == |s| - 1 {
      assert rest == Init(s);
    } else {
      TotalWithout(m, Init(s), i);
      assert Init(rest) == Init(s)[..i] + Init(s)[i + 1..];
    }
  }

  // Distinct rows of s, all with a value.
  ghost predicate IsChoice(m: Metric, s: seq<HalfHour>, choice: seq<HalfHour>) {
    && (forall i :: 0 <= i < |choice| ==> choice[i] in s && Value(m, choice[i]).Some?)
    && (forall i, j :: 0 <= i < j < |choice| ==> choice[i] != choice[j])
  }

  lemma ChoiceFromFront(m: Metric, s: seq<HalfHour>, choice: seq<HalfHour>)
    requires s != [] && IsChoice(m, s, choice) && Last(s) !in choice
    ensures IsChoice(m, Init(s), choice)
  {
    forall i | 0 <= i < |choice|
      ensures choice[i] in Init(s)
    {
      var j :| 0 <= j < |s| && s[j] == choice[i];
      assert j < |s| - 1;
      assert Init(s)[j] == choice[i];
    }
  }

  lemma ChoiceWithout(m: Metric, s: seq<HalfHour>, choice: seq<HalfHour>, i: nat)
    requires IsChoice(m, s, choice) && i < |choice|
    ensures IsChoice(m, s, choice[..i] + choice[i + 1..])
    ensures choice[i] !in choice[..i] + choice[i + 1..]
  {
    var rest := choice[..i] + choice[i + 1..];
    forall j | 0 <= j < |rest|
      ensures rest[j] == choice[if j < i then j else j + 1]
    {
    }
  }

  lemma ChoiceNeedsRows(m: Metric, s: seq<HalfHour>, choice: seq<HalfHour>)
    requires IsChoice(m, s, choice)
    ensures choice != [] ==> s != []
  {
    if choice != [] {
      assert choice[0] in s;
    }
  }

  // No choice of k rows among those of a sorted, fully valued s totals less than its first k.
  lemma {:induction false} PrefixIsCheapest(m: Metric, s: seq<HalfHour>, choice: seq<HalfHour>)
    requires Sorted(Order(m), s) && IsChoice(m, s, choice)
    requires forall i :: 0 <= i < |s| ==> Value(m, s[i]).Some?
    ensures |choice| <= |s|
    ensures Total(m, s[..|choice|]) <= Total(m, choice)
  {
    hide Total, Order;
    var k := |choice|;
    if s == [] {
      ChoiceNeedsRows(m, s, choice);
      assert s[..k] == choice;
    } else if Last(s) !in choice {
      ChoiceFromFront(m, s, choice);
      PrefixIsCheapest(m, Init(s), choice);
      assert Init(s)[..k] == s[..k];
    } else {
      var i :| 0 <= i < k && choice[i] == Last(s);
      var rest := choice[..i] + choice[i + 1..];
      ChoiceWithout(m, s, choice, i);
      ChoiceFromFront(m, s, rest);
      PrefixIsCheapest(m, Init(s), rest);
      TotalWithout(m, choice, i);
      GreatestLast(m, s, k - 1);
      TotalOfPrefix(m, s, k);
    }
  }

  lemma TotalOfPrefix(m: Metric, s: seq<HalfHour>, k: nat)
    requires 1 <= k <= |s| && forall i :: 0 <= i < |s| ==> Value(m, s[i]).Some?
    ensures Total(m, s[..k]) == Total(m, Init(s)[..k - 1]) + Value(m, s[k - 1]).value
  {
    assert Init(s)[..k - 1] == Init(s[..k]);
  }

  lemma GreatestLast(m: Metric, s: seq<HalfHour>, i: nat)
    requires i < |s| && Sorted(Order(m), s) && forall i :: 0 <= i < |s| ==> Value(m, s[i]).Some?
    ensures Value(m, s[i]).value <= Value(m, Last(s)).value
  {
    assert i < |s| - 1 ==> Order(m)(s[i], s[|s| - 1]);
  }

  // For every k up to the number of valued slots, the slots ranked 1..k have the least total
  // of any k distinct valued slots of the region in the window; and a slot without a value
  // ranks after every slot with one.
  lemma TopRanksAreOptimal(mart: seq<HalfHour>, now: int, region: int, m: Metric, choice: seq<HalfHour>)
    requires UniqueKeys(mart)
    requires forall i :: 0 <= i < |choice| ==> InPartition(mart, now, region, choice[i]) && Value(m, choice[i]).Some?
    requires forall i, j :: 0 <= i < j < |choice| ==> choice[i] != choice[j]
    ensures var r := Ranking(mart, now, region, m);
            && |choice| <= Valued(m, r) <= |r|
            && (forall i :: 0 <= i < |r| ==> (Value(m, r[i]).Some? <==> i < Valued(m, r)))
            && Total(m, r[..|choice|]) <= Total(m, choice)
  {
    hide Ranking, Valued, Order, Total, Partition, StrictOrder;
    RankingIsSorted(mart, now, region, m);
    var r := Ranking(mart, now, region, m);
    ValuedComeFirst(m, r);
    var valued := r[..Valued(m, r)];
    forall i | 0 <= i < |choice|
      ensures choice[i] in valued
    {
      assert choice[i] in r;
      var j :| 0 <= j < |r| && r[j] == choice[i];
      assert valued[j] == choice[i];
    }
    assert IsChoice(m, valued, choice);
    PrefixIsCheapest(m, valued, choice);
    assert valued[..|choice|] == r[..|choice|];
  }

  // The rows read by `cheapest_rank <= k` are the first k of the ranking.
  lemma RanksUpToK(mart: seq<HalfHour>, now: int, region: int, m: Metric, k: nat, h: HalfHour)
    requires UniqueKeys(mart) && k <= |Ranking(mart, now, region, m)|
    ensures h in Ranking(mart, now, region, m)[..k] <==>
            InPartition(mart, now, region, h) && h in Ranking(mart, now, region, m) && RowNumber(mart, now, m, h) <= k
  {
    RankingIsSorted(mart, now, region, m);
    var r := Ranking(mart, now, region, m);
    if h in r[..k] {
      var i :| 0 <= i < k && r[i] == h;
      NotBackwards(Order(m), r, i, Position(r, h));
    }
    if h in r && h.region == region && RowNumber(mart, now, m, h) <= k {
      assert r[..k][Position(r, h)] == h;
    }
  }

  // ---- At most 48 slots ----

  function Starts(p: seq<HalfHour>): seq<int> {
    seq(|p|, i requires 0 <= i < |p| => p[i].start)
  }

  // A region has at most 48 slots on the half-hour grid: it can exceed 48, and a rank can, only by
  // slots that start off the grid.
  lemma AtMost48Slots(mart: seq<HalfHour>, now: int, region: int)
    requires UniqueKeys(mart)
    ensures var p := Partition(mart, now, region);
            && |p| <= 48 + OffGrid(Starts(p))
            && forall m, h :: InPartition(mart, now, region, h) && h in Ranking(mart, now, region, m) ==>
                                1 <= RowNumber(mart, now, m, h) <= |p|
  {
    PartitionHolds(mart, now, region);
    var p := Partition(mart, now, region);
    var starts := Starts(p);
    forall i | 0 <= i < |starts|
      ensures now <= starts[i] < now + 1800 * 48
    {
      assert p[i] in p;
      assert InPartition(mart, now, region, p[i]);
    }
    forall i, j | 0 <= i < j < |starts|
      ensures starts[i] != starts[j]
    {
      assert p[i].start != p[j].start;
    }
    FitsGrid(starts, now, 48);
  }

  // The bound from the raw tables on, whatever was ingested: each region of the joined and filtered
  // mart has at most 48 slots, ranked 1..48, beyond those that start off the grid.
  lemma AtMost48FromRawTables(carbonHistory: seq<Batch>, priceHistory: seq<Batch>, carbon: seq<CarbonRow>,
                              prices: seq<PriceRow>, now: int, slot: Slot)
    requires Lists(carbon, IngestHistory(CarbonIntensity, carbonHistory))
    requires Lists(prices, IngestHistory(AgilePrice, priceHistory))
    ensures var mart := LeftJoin(carbon, prices);
            && UniqueKeys(mart)
            && var p := Partition(mart, now, slot.row.region);
            && |p| <= 48 + OffGrid(Starts(p))
            && (slot in Slots(mart, now, |mart|) ==> 1 <= slot.cheapestRank <= |p| && 1 <= slot.greenestRank <= |p|)
  {
    hide Partition, Ranking, RowNumber, Ahead, Starts;
    var mart := LeftJoin(carbon, prices);
    MartOverHistories(carbonHistory, priceHistory, carbon, prices);
    AtMost48Slots(mart, now, slot.row.region);
    if slot in Slots(mart, now, |mart|) {
      SlotsMeetSpec(mart, now, |mart|);
      assert mart[..|mart|] == mart;
      RowNumberCounts(mart, now, ByPrice, slot.row);
      RowNumberCounts(mart, now, ByCarbon, slot.row);
      assert InPartition(mart, now, slot.row.region, slot.row);
    }
  }

  // ---- The mart read from the raw tables ----

  // The slots, from the raw tables on: whatever was ingested, a key of the raw carbon table has a
  // slot exactly when it starts in the 24 hours from now, and the slot carries the table's columns
  // and the price stored under the same key, if there is one.
  lemma SlotsFromRawTables(carbonHistory: seq<Batch>, priceHistory: seq<Batch>, carbon: seq<CarbonRow>,
                           prices: seq<PriceRow>, now: int, region: int, start: int)
    requires Lists(carbon, IngestHistory(CarbonIntensity, carbonHistory))
    requires Lists(prices, IngestHistory(AgilePrice, priceHistory))
    ensures UniqueKeys(LeftJoin(carbon, prices))
    ensures var mart, k := LeftJoin(carbon, prices), RegionKey(region, start);
            var carbonTable, priceTable := IngestHistory(CarbonIntensity, carbonHistory), IngestHistory(AgilePrice, priceHistory);
            && ((exists slot :: slot in Slots(mart, now, |mart|) && slot.row.region == region && slot.row.start == start) <==>
                k in carbonTable && now <= start < now + 86400)
            && forall slot :: slot in Slots(mart, now, |mart|) && slot.row.region == region && slot.row.start == start ==>
                 var h := slot.row;
                 && carbonTable[k].data == Carbon(h.end, h.forecast, h.actual, h.index)
                 && (k !in priceTable ==> h.incVat.None? && h.excVat.None?)
                 && (k in priceTable ==>
                       && priceTable[k].data.Price?
                       && h.incVat == Some(priceTable[k].data.incVat) && h.excVat == Some(priceTable[k].data.excVat))
  {
    hide Slots, Ahead, LeftJoin, IngestHistory;
    var mart, k := LeftJoin(carbon, prices), RegionKey(region, start);
    var carbonTable, priceTable := IngestHistory(CarbonIntensity, carbonHistory), IngestHistory(AgilePrice, priceHistory);
    MartOverHistories(carbonHistory, priceHistory, carbon, prices);
    if k in carbonTable && now <= start < now + 86400 {
      var i :| 0 <= i < |carbon| && carbon[i] == Row(k, carbonTable[k].data);
      assert MartRow(mart[i], carbon[i], priceTable);
      SlotExactlyWhen(mart, now, mart[i]);
    }
    SlotsMeetSpec(mart, now, |mart|);
    assert mart[..|mart|] == mart;
    forall slot | slot in Slots(mart, now, |mart|) && slot.row.region == region && slot.row.start == start
      ensures k in carbonTable && carbonTable[k].data == Carbon(slot.row.end, slot.row.forecast, slot.row.actual, slot.row.index)
      ensures MartRow(slot.row, Row(k, carbonTable[k].data), priceTable)
    {
      var i :| 0 <= i < |mart| && mart[i] == slot.row;
      assert MartRow(mart[i], carbon[i], priceTable);
      assert carbon[i].key == k;
    }
    PricesAreKeyed(prices, priceTable, k);
  }

  lemma PricesAreKeyed(prices: seq<PriceRow>, table: Hot, k: Key)
    requires Lists(prices, table)
    ensures k in table ==> table[k].data.Price?
  {
    if k in table {
      var i :| 0 <= i < |prices| && prices[i] == Row(k, table[k].data);
    }
  }

  function RankOf(m: Metric, slot: Slot): nat {
    match m
    case ByPrice => slot.cheapestRank
    case ByCarbon => slot.greenestRank
  }

  // The best k slots, end to end. Whatever was ingested: the mart's slots of a region ranked up to
  // k are k distinct rows, `top`, and no k distinct priced (or valued) slots of that region have a
  // smaller total, for every k up to the number of valued slots.
  lemma BestSlotsAreOptimal(carbonHistory: seq<Batch>, priceHistory: seq<Batch>, carbon: seq<CarbonRow>,
                            prices: seq<PriceRow>, now: int, region: int, m: Metric, choice: seq<HalfHour>)
    requires Lists(carbon, IngestHistory(CarbonIntensity, carbonHistory))
    requires Lists(prices, IngestHistory(AgilePrice, priceHistory))
    requires forall i :: 0 <= i < |choice| ==>
               && choice[i] in LeftJoin(carbon, prices) && choice[i].region == region && now <= choice[i].start < now + 86400
               && Value(m, choice[i]).Some?
    requires forall i, j :: 0 <= i < j < |choice| ==> choice[i] != choice[j]
    ensures var mart := LeftJoin(carbon, prices);
            && UniqueKeys(mart)
            && |choice| <= |Ranking(mart, now, region, m)|
            && var top := Ranking(mart, now, region, m)[..|choice|];
            && (forall slot :: slot in Slots(mart, now, |mart|) ==>
                                 (slot.row in top <==> slot.row.region == region && RankOf(m, slot) <= |choice|))
            && (forall i, j :: 0 <= i < j < |top| ==> top[i] != top[j])
            && (forall i :: 0 <= i < |top| ==> Value(m, top[i]).Some?)
            && Total(m, top) <= Total(m, choice)
  {
    hide Partition, Ranking, RowNumber, Ahead, Total, LeftJoin, Valued, Order, Slots;
    var mart := LeftJoin(carbon, prices);
    MartOverHistories(carbonHistory, priceHistory, carbon, prices);
    TopRanksAreOptimal(mart, now, region, m, choice);
    TopRanksDistinct(mart, now, region, m);
    forall slot | slot in Slots(mart, now, |mart|)
      ensures slot.row in Ranking(mart, now, region, m)[..|choice|] <==>
              slot.row.region == region && RankOf(m, slot) <= |choice|
    {
      SlotRank(mart, now, m, slot);
      RanksUpToK(mart, now, region, m, |choice|, slot.row);
    }
  }

  lemma TopRanksDistinct(mart: seq<HalfHour>, now: int, region: int, m: Metric)
    requires UniqueKeys(mart)
    ensures var r := Ranking(mart, now, region, m);
            forall i, j :: 0 <= i < j < |r| ==> r[i] != r[j]
  {
    hide Ranking;
    RankingIsSorted(mart, now, region, m);
  }

  // The rank columns of a slot are the row numbers of its row.
  lemma SlotRank(mart: seq<HalfHour>, now: int, m: Metric, slot: Slot)
    requires UniqueKeys(mart) && slot in Slots(mart, now, |mart|)
    ensures InPartition(mart, now, slot.row.region, slot.row) && slot.row in Ranking(mart, now, slot.row.region, m)
    ensures RankOf(m, slot) == RowNumber(mart, now, m, slot.row)
  {
    hide Slots, Ahead, Ranking, RowNumber;
    SlotsMeetSpec(mart, now, |mart|);
    assert mart[..|mart|] == mart;
    RowNumberCounts(mart, now, m, slot.row);
  }
}
