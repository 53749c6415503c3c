// gridpulse/dagster_defs/iceberg_assets.py: the nightly archive of hot rows into Iceberg
// tables, which have no primary key and are therefore bags of rows.
module ColdStore {
  import opened Prelude
  import opened Rows
  import opened HotStore

  const ARCHIVE_LOOKBACK_DAYS := 2

  predicate InWindow(k: Key, lo: int, hi: int) {
    lo <= k.start < hi
  }

  predicate InDay(k: Key, d: int) {
    InWindow(k, DayStart(d), DayStart(d + 1))
  }

  // w holds the rows of m that start in [lo, hi).
  ghost predicate IsWithin(w: multiset<Row>, m: multiset<Row>, lo: int, hi: int) {
    forall r: Row :: w[r] == if InWindow(r.key, lo, hi) then m[r] else 0
  }

  ghost function Within(m: multiset<Row>, lo: int, hi: int): (w: multiset<Row>)
    ensures IsWithin(w, m, lo, hi)
  {
    WithinExists(m, lo, hi);
    var w :| IsWithin(w, m, lo, hi);
    w
  }

  lemma {:induction false} WithinExists(m: multiset<Row>, lo: int, hi: int)
    ensures exists w :: IsWithin(w, m, lo, hi)
    decreases |m|
  {
    if m == multiset{} {
      assert IsWithin(m, m, lo, hi);
    } else {
      var r :| r in m;
      WithinExists(m - multiset{r}, lo, hi);
      var w :| IsWithin(w, m - multiset{r}, lo, hi);
      assert IsWithin(if InWindow(r.key, lo, hi) then w + multiset{r} else w, m, lo, hi);
    }
  }

  ghost function OfDay(m: multiset<Row>, d: int): multiset<Row> {
    Within(m, DayStart(d), DayStart(d + 1))
  }

  // The table contract of an overwrite: the rows of the day are deleted, then `added` appended.
  ghost predicate IsOverwritten(after: multiset<Row>, m: multiset<Row>, d: int, added: multiset<Row>) {
    forall r: Row :: after[r] == (if InDay(r.key, d) then 0 else m[r]) + added[r]
  }

  ghost function Overwritten(m: multiset<Row>, d: int, added: multiset<Row>): (after: multiset<Row>)
    ensures IsOverwritten(after, m, d, added)
  {
    assert IsOverwritten(m - OfDay(m, d) + added, m, d, added);
    var after :| IsOverwritten(after, m, d, added);
    after
  }

  // What a partition fetch hands to the overwrite: hot's rows of day d, ingested_at_utc dropped.
  ghost predicate IsDayRows(rows: multiset<Row>, hot: Hot, d: int) {
    forall r: Row :: rows[r] == if r.key in hot && InDay(r.key, d) && hot[r.key].data == r.data then 1 else 0
  }

  ghost function DayRows(hot: Hot, d: int): (rows: multiset<Row>)
    ensures IsDayRows(rows, hot, d)
  {
    assert IsDayRows(multiset(set k | k in hot && InDay(k, d) :: Row(k, hot[k].data)), hot, d);
    var rows :| IsDayRows(rows, hot, d);
    rows
  }

  // ---- The tables ----

  // The rows outside [lo, hi), in table order.
  function Outside(rows: seq<Row>, lo: int, hi: int): seq<Row> {
    if rows == [] then []
    else if InWindow(Last(rows).key, lo, hi) then Outside(Init(rows), lo, hi)
    else Outside(Init(rows), lo, hi) + [Last(rows)]
  }

  lemma {:induction false} OutsideAt(rows: seq<Row>, lo: int, hi: int, r: Row)
    ensures multiset(Outside(rows, lo, hi))[r] == if InWindow(r.key, lo, hi) then 0 else multiset(rows)[r]
  {
    if rows != [] {
      OutsideAt(Init(rows), lo, hi, r);
      assert rows == Init(rows) + [Last(rows)];
    }
  }

  lemma OutsideIsTheRest(rows: seq<Row>, lo: int, hi: int)
    ensures multiset(Outside(rows, lo, hi)) == multiset(rows) - Within(multiset(rows), lo, hi)
  {
    forall r: Row {
      OutsideAt(rows, lo, hi, r);
    }
  }

  // A pyiceberg table, reduced to the operations the platform issues.
  class IcebergTable {
    var rows: seq<Row>

    constructor ()
      ensures rows == []
    {
      rows := [];
    }

    ghost function Bag(): multiset<Row>
      reads this
    {
      multiset(rows)
    }

    method Append(added: seq<Row>)
      modifies this
      ensures Bag() == old(Bag()) + multiset(added)
    {
      rows := rows + added;
    }

    method Delete(lo: int, hi: int)
      modifies this
      ensures Bag() == old(Bag()) - Within(old(Bag()), lo, hi)
    {
      OutsideIsTheRest(rows, lo, hi);
      rows := Outside(rows, lo, hi);
    }

    method Overwrite(lo: int, hi: int, added: seq<Row>)
      modifies this
      ensures Bag() == old(Bag()) - Within(old(Bag()), lo, hi) + multiset(added)
    {
      OutsideIsTheRest(rows, lo, hi);
      rows := Outside(rows, lo, hi) + added;
    }

    method OverwriteDay(d: int, added: seq<Row>) returns (written: nat)
      modifies this
      ensures Bag() == Overwritten(old(Bag()), d, multiset(added))
      ensures written == |added|
    {
      if |added| > 0 {
        Overwrite(DayStart(d), DayStart(d + 1), added);
      } else {
        Delete(DayStart(d), DayStart(d + 1));
      }
      written := |added|;
    }
  }

  // A hot row as SELECT * returns it.
  datatype FullRow = FullRow(key: Key, stored: Stored)

  function StripIngestMetadata(rows: seq<FullRow>): seq<Row> {
    seq(|rows|, i requires 0 <= i < |rows| => Row(rows[i].key, rows[i].stored.data))
  }

  // The rows come in no particular order.
  method FetchPartition(hot: HotTable, d: int) returns (rows: seq<FullRow>)
    ensures multiset(StripIngestMetadata(rows)) == DayRows(hot.rows, d)
    ensures forall i :: 0 <= i < |rows| ==> rows[i].key in hot.rows && rows[i].stored == hot.rows[rows[i].key]
  {
    rows := [];
    var unread := hot.rows.Keys;
    while unread != {}
      invariant unread <= hot.rows.Keys
      invariant forall i :: 0 <= i < |rows| ==> rows[i].key in hot.rows && rows[i].stored == hot.rows[rows[i].key]
      invariant IsDayRows(multiset(StripIngestMetadata(rows)), hot.rows - unread, d)
      decreases unread
    {
      var k :| k in unread;
      unread := unread - {k};
      if InDay(k, d) {
        ghost var before := rows;
        rows := rows + [FullRow(k, hot.rows[k])];
        assert StripIngestMetadata(rows) == StripIngestMetadata(before) + [Row(k, hot.rows[k].data)];
      }
    }
  }

  // ---- One table's archive ----

  // The table once the n most recent full days have been overwritten, latest first.
  ghost function ArchiveDays(cold: multiset<Row>, hot: Hot, today: int, n: nat): multiset<Row> {
    if n == 0 then cold
    else Overwritten(ArchiveDays(cold, hot, today, n - 1), today - n, DayRows(hot, today - n))
  }

  lemma NoDays(cold: multiset<Row>, hot: Hot, today: int)
    ensures ArchiveDays(cold, hot, today, 0) == cold
  {
  }

  function Least(a: nat, b: nat): nat {
    if a < b then a else b
  }

  // `budget` is the number of overwrites the process lives to commit.
  method ArchiveTable(hot: HotTable, table: IcebergTable, today: int, budget: nat)
    returns (rowsPerDay: map<int, nat>, finished: bool)
    modifies table
    ensures table.Bag() == ArchiveDays(old(table.Bag()), hot.rows, today, Least(budget, ARCHIVE_LOOKBACK_DAYS))
    ensures finished <==> budget >= ARCHIVE_LOOKBACK_DAYS
    ensures forall d :: d in rowsPerDay <==> today - Least(budget, ARCHIVE_LOOKBACK_DAYS) <= d < today
    ensures forall d :: d in rowsPerDay ==> rowsPerDay[d] == |DayRows(hot.rows, d)|
  {
    hide Overwritten, DayRows, IsOverwritten, IsDayRows;
    rowsPerDay := map[];
    for back := 1 to ARCHIVE_LOOKBACK_DAYS + 1
      invariant back <= budget + 1
      invariant table.Bag() == ArchiveDays(old(table.Bag()), hot.rows, today, back - 1)
      invariant forall d :: d in rowsPerDay <==> today - back < d < today
      invariant forall d :: d in rowsPerDay ==> rowsPerDay[d] == |DayRows(hot.rows, d)|
    {
      var day := today - back;
      var full := FetchPartition(hot, day);
      var rows := StripIngestMetadata(full);
      if back > budget {
        return rowsPerDay, false;
      }
      var written := table.OverwriteDay(day, rows);
      assert written == |multiset(rows)|;
      rowsPerDay := rowsPerDay[day := written];
    }
    finished := true;
  }

  // Row by row: the days reached hold exactly hot's rows, the other days what they held.
  lemma {:induction false} ArchiveDaysAt(cold: multiset<Row>, hot: Hot, today: int, n: nat, r: Row, d: int)
    requires InDay(r.key, d)
    ensures ArchiveDays(cold, hot, today, n)[r] == if today - n <= d < today then DayRows(hot, d)[r] else cold[r]
  {
    if n > 0 {
      var before := ArchiveDays(cold, hot, today, n - 1);
      assert before[r] == if today - n < d < today then DayRows(hot, d)[r] else cold[r] by {
        ArchiveDaysAt(cold, hot, today, n - 1, r, d);
      }
      SameDay(r.key, d, today - n);
    }
  }

  lemma SameDay(k: Key, d: int, e: int)
    requires InDay(k, d)
    ensures InDay(k, e) <==> d == e
  {
  }

  // ---- The whole run: three tables in turn ----

  datatype Lake = Lake(carbon: multiset<Row>, mix: multiset<Row>, price: multiset<Row>)
  datatype Raw = Raw(carbon: Hot, mix: Hot, price: Hot)

  function Minus(a: nat, b: nat): nat {
    if a < b then 0 else a - b
  }

  // "Today" is read once per table, so a run crossing midnight sees different days.
  datatype Clocks = Clocks(carbon: int, mix: int, price: int)

  // A run that dies once `budget` overwrites are committed.
  ghost function ArchiveRun(lake: Lake, raw: Raw, clocks: Clocks, budget: nat): Lake {
    Lake(ArchiveDays(lake.carbon, raw.carbon, clocks.carbon, Least(budget, ARCHIVE_LOOKBACK_DAYS)),
         ArchiveDays(lake.mix, raw.mix, clocks.mix, Least(Minus(budget, 2), ARCHIVE_LOOKBACK_DAYS)),
         ArchiveDays(lake.price, raw.price, clocks.price, Least(Minus(budget, 4), ARCHIVE_LOOKBACK_DAYS)))
  }

  // Row by row, per table: the n-th overwrite of a table is of the n-th day before its today, and
  // leaves a row of that day exactly when the raw table of the same name holds it; no other day
  // changes. The two overwrites of carbon come first, then those of the mix, then those of prices.
  lemma ArchivedRow(lake: Lake, raw: Raw, clocks: Clocks, budget: nat, r: Row)
    ensures var after, d := ArchiveRun(lake, raw, clocks, budget), r.key.start / 86400;
            && after.carbon[r] ==
               (if 1 <= clocks.carbon - d <= 2 && clocks.carbon - d <= budget
                then if r.key in raw.carbon && raw.carbon[r.key].data == r.data then 1 else 0
                else lake.carbon[r])
            && after.mix[r] ==
               (if 1 <= clocks.mix - d <= 2 && 2 + clocks.mix - d <= budget
                then if r.key in raw.mix && raw.mix[r.key].data == r.data then 1 else 0
                else lake.mix[r])
            && after.price[r] ==
               (if 1 <= clocks.price - d <= 2 && 4 + clocks.price - d <= budget
                then if r.key in raw.price && raw.price[r.key].data == r.data then 1 else 0
                else lake.price[r])
  {
    hide ArchiveDays;
    var d := r.key.start / 86400;
    DayWindow(r.key.start, d);
    ArchiveDaysAt(lake.carbon, raw.carbon, clocks.carbon, Least(budget, 2), r, d);
    ArchiveDaysAt(lake.mix, raw.mix, clocks.mix, Least(Minus(budget, 2), 2), r, d);
    ArchiveDaysAt(lake.price, raw.price, clocks.price, Least(Minus(budget, 4), 2), r, d);
  }

  const COMPLETE := 3 * ARCHIVE_LOOKBACK_DAYS

  class Platform {
    const rawCarbon: HotTable
    const rawMix: HotTable
    const rawPrice: HotTable
    const carbon: IcebergTable
    const mix: IcebergTable
    const price: IcebergTable

    constructor ()
      ensures Valid()
      ensures fresh(carbon) && fresh(mix) && fresh(price)
      ensures carbon.rows == mix.rows == price.rows == []
    {
      var rc := new HotTable(CarbonIntensity);
      var rm := new HotTable(GenerationMix);
      var rp := new HotTable(AgilePrice);
      var c := new IcebergTable();
      var m := new IcebergTable();
      var p := new IcebergTable();
      rawCarbon, rawMix, rawPrice := rc, rm, rp;
      carbon, mix, price := c, m, p;
    }

    ghost predicate Valid() {
      && carbon != mix && mix != price && price != carbon
      && rawCarbon.src == CarbonIntensity && rawMix.src == GenerationMix && rawPrice.src == AgilePrice
    }

    method ArchiveToIceberg(clocks: Clocks, budget: nat) returns (finished: bool)
      requires Valid()
      modifies carbon, mix, price
      ensures Lake(carbon.Bag(), mix.Bag(), price.Bag()) ==
              ArchiveRun(Lake(old(carbon.Bag()), old(mix.Bag()), old(price.Bag())),
                         Raw(rawCarbon.rows, rawMix.rows, rawPrice.rows), clocks, budget)
      ensures unchanged(rawCarbon, rawMix, rawPrice)
      ensures finished <==> budget >= COMPLETE
    {
      hide ArchiveDays;
      NoDays(mix.Bag(), rawMix.rows, clocks.mix);
      NoDays(price.Bag(), rawPrice.rows, clocks.price);
      var _, ci := ArchiveTable(rawCarbon, carbon, clocks.carbon, budget);
      if !ci {
        return false;
      }
      var _, gm := ArchiveTable(rawMix, mix, clocks.mix, budget - 2);
      if !gm {
        return false;
      }
      var _, ap := ArchiveTable(rawPrice, price, clocks.price, budget - 4);
      finished := ap;
    }
  }

  // Any number of attempts, each dying wherever it dies.
  ghost function Attempts(lake: Lake, raw: Raw, clocks: Clocks, budgets: seq<nat>): Lake {
    if budgets == [] then lake
    else ArchiveRun(Attempts(lake, raw, clocks, Init(budgets)), raw, clocks, Last(budgets))
  }

  lemma ResumeTable(cold: multiset<Row>, hot: Hot, today: int, m: nat, n: nat)
    requires m <= n
    ensures ArchiveDays(ArchiveDays(cold, hot, today, m), hot, today, n) == ArchiveDays(cold, hot, today, n)
  {
    forall r: Row
      ensures ArchiveDays(ArchiveDays(cold, hot, today, m), hot, today, n)[r] == ArchiveDays(cold, hot, today, n)[r]
    {
      var d := DayOf(r.key.start);
      DayWindow(r.key.start, d);
      ArchiveDaysAt(cold, hot, today, m, r, d);
      ArchiveDaysAt(cold, hot, today, n, r, d);
      ArchiveDaysAt(ArchiveDays(cold, hot, today, m), hot, today, n, r, d);
    }
  }

  // After any crashes, one complete run leaves what a single uninterrupted run would have.
  lemma {:induction false} CrashedAttemptsThenCompleteRun(lake: Lake, raw: Raw, clocks: Clocks, budgets: seq<nat>)
    ensures ArchiveRun(Attempts(lake, raw, clocks, budgets), raw, clocks, COMPLETE) == ArchiveRun(lake, raw, clocks, COMPLETE)
  {
    if budgets != [] {
      var mid := Attempts(lake, raw, clocks, Init(budgets));
      CrashedAttemptsThenCompleteRun(lake, raw, clocks, Init(budgets));
      ResumeTable(mid.carbon, raw.carbon, clocks.carbon, Least(Last(budgets), 2), 2);
      ResumeTable(mid.mix, raw.mix, clocks.mix, Least(Minus(Last(budgets), 2), 2), 2);
      ResumeTable(mid.price, raw.price, clocks.price, Least(Minus(Last(budgets), 4), 2), 2);
    }
  }

  // Once a run has completed, further attempts on the same day, whole or crashed, change nothing.
  lemma {:induction false} FurtherRunsChangeNothing(lake: Lake, raw: Raw, clocks: Clocks, budgets: seq<nat>)
    ensures var done := ArchiveRun(lake, raw, clocks, COMPLETE);
            Attempts(done, raw, clocks, budgets) == done
  {
    var done := ArchiveRun(lake, raw, clocks, COMPLETE);
    if budgets != [] {
      FurtherRunsChangeNothing(lake, raw, clocks, Init(budgets));
      RerunTable(lake.carbon, raw.carbon, clocks.carbon, Least(Last(budgets), 2), 2);
      RerunTable(lake.mix, raw.mix, clocks.mix, Least(Minus(Last(budgets), 2), 2), 2);
      RerunTable(lake.price, raw.price, clocks.price, Least(Minus(Last(budgets), 4), 2), 2);
    }
  }

  lemma RerunTable(cold: multiset<Row>, hot: Hot, today: int, m: nat, n: nat)
    requires m <= n
    ensures ArchiveDays(ArchiveDays(cold, hot, today, n), hot, today, m) == ArchiveDays(cold, hot, today, n)
  {
    forall r: Row
      ensures ArchiveDays(ArchiveDays(cold, hot, today, n), hot, today, m)[r] == ArchiveDays(cold, hot, today, n)[r]
    {
      var d := DayOf(r.key.start);
      DayWindow(r.key.start, d);
      ArchiveDaysAt(cold, hot, today, n, r, d);
      ArchiveDaysAt(ArchiveDays(cold, hot, today, n), hot, today, m, r, d);
    }
  }
}
