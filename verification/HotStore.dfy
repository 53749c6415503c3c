// gridpulse/storage/postgres.py: the natural-key upserts into the raw tables.
module HotStore {
  import opened Prelude
  import opened Rows

  datatype Stored = Stored(data: Data, ingestedAt: int)

  // A raw table: its primary key makes it a map.
  type Hot = map<Key, Stored>

  // DO UPDATE SET: every column is taken from EXCLUDED, except that `actual` is
  // COALESCE(EXCLUDED.actual, existing.actual).
  function Merge(existing: Option<Data>, incoming: Data): Data {
    if incoming.Carbon? && incoming.actual.None? && existing.Some? && existing.value.Carbon?
    then incoming.(actual := existing.value.actual)
    else incoming
  }

  function Lookup(hot: Hot, k: Key): Option<Data> {
    if k in hot then Some(hot[k].data) else None
  }

  function Upsert(hot: Hot, row: Row, now: int): Hot {
    hot[row.key := Stored(Merge(Lookup(hot, row.key), row.data), now)]
  }

  function UpsertAll(hot: Hot, rows: seq<Row>, now: int): Hot {
    if rows == [] then hot else Upsert(UpsertAll(hot, Init(rows), now), Last(rows), now)
  }

  // One upsert_*_rows call: a single transaction, so one refused row undoes the batch.
  function Ingest(src: Source, hot: Hot, batch: seq<Row>, now: int): Hot {
    if AllAdmissible(src, batch) then UpsertAll(hot, batch, now) else hot
  }

  // The table without its ingested_at_utc column.
  function Payload(hot: Hot): map<Key, Data> {
    map k | k in hot :: hot[k].data
  }

  datatype UpsertResult = Written(count: nat) | RolledBack

  class HotTable {
    const src: Source
    var rows: Hot

    constructor (src: Source)
      ensures this.src == src && rows == map[]
    {
      this.src := src;
      rows := map[];
    }

    method UpsertRows(batch: seq<Row>, now: int) returns (r: UpsertResult)
      modifies this
      ensures rows == Ingest(src, old(rows), batch, now)
      ensures r == if AllAdmissible(src, batch) then Written(|batch|) else RolledBack
    {
      if |batch| == 0 {
        return Written(0);
      }
      var tx := rows;
      var i := 0;
      while i < |batch|
        invariant 0 <= i <= |batch|
        invariant AllAdmissible(src, batch[..i])
        invariant tx == UpsertAll(rows, batch[..i], now)
        invariant rows == old(rows)
      {
        if !Admissible(src, batch[i]) {
          return RolledBack;
        }
        tx := Upsert(tx, batch[i], now);
        assert Init(batch[..i + 1]) == batch[..i];
        i := i + 1;
      }
      assert batch[..i] == batch;
      rows := tx;
      r := Written(|batch|);
    }
  }

  // ---- What a history of batches leaves behind ----

  datatype Batch = Batch(rows: seq<Row>, at: int)

  function IngestHistory(src: Source, history: seq<Batch>): Hot {
    if history == [] then map[]
    else Ingest(src, IngestHistory(src, Init(history)), Last(history).rows, Last(history).at)
  }

  // The log: the rows of the batches that committed, in order.
  function Committed(src: Source, history: seq<Batch>): (log: seq<Row>)
    ensures AllAdmissible(src, log)
  {
    if history == [] then []
    else if AllAdmissible(src, Last(history).rows) then Committed(src, Init(history)) + Last(history).rows
    else Committed(src, Init(history))
  }

  function LastLogged(log: seq<Row>, k: Key): Option<Data> {
    if log == [] then None
    else if Last(log).key == k then Some(Last(log).data)
    else LastLogged(Init(log), k)
  }

  // The last non-null `actual` logged for k.
  function LastActual(log: seq<Row>, k: Key): Option<int> {
    if log == [] then None
    else if Last(log).key == k && Last(log).data.Carbon? && Last(log).data.actual.Some? then Last(log).data.actual
    else LastActual(Init(log), k)
  }

  // What the log says the table holds at k: the last logged row, its `actual` replaced
  // by the last non-null one.
  function Expected(log: seq<Row>, k: Key): Option<Data> {
    match LastLogged(log, k)
    case None => None
    case Some(d) => Some(if d.Carbon? then d.(actual := LastActual(log, k)) else d)
  }

  lemma {:induction false} ExpectedStep(src: Source, log: seq<Row>, row: Row, k: Key)
    requires AllAdmissible(src, log) && Admissible(src, row)
    ensures Expected(log + [row], k) == if row.key == k then Some(Merge(Expected(log, k), row.data)) else Expected(log, k)
  {
    assert Init(log + [row]) == log;
    if row.key == k && LastLogged(log, k).None? {
      NeverLogged(log, k);
    } else if row.key == k {
      LastLoggedKind(src, log, k);
    }
  }

  lemma {:induction false} NeverLogged(log: seq<Row>, k: Key)
    requires LastLogged(log, k).None?
    ensures LastActual(log, k).None?
  {
    if log != [] {
      NeverLogged(Init(log), k);
    }
  }

  lemma {:induction false} LastLoggedKind(src: Source, log: seq<Row>, k: Key)
    requires AllAdmissible(src, log) && LastLogged(log, k).Some?
    ensures LastLogged(log, k).value.Carbon? <==> src.CarbonIntensity?
  {
    if Last(log).key != k {
      LastLoggedKind(src, Init(log), k);
    }
  }

  lemma {:induction false} UpsertAllReflects(src: Source, hot: Hot, log: seq<Row>, rows: seq<Row>, now: int, k: Key)
    requires AllAdmissible(src, log) && AllAdmissible(src, rows)
    requires Lookup(hot, k) == Expected(log, k)
    ensures Lookup(UpsertAll(hot, rows, now), k) == Expected(log + rows, k)
  {
    if rows == [] {
      assert log + rows == log;
    } else {
      var before := log + Init(rows);
      UpsertAllReflects(src, hot, log, Init(rows), now, k);
      assert log + rows == before + [Last(rows)];
      ExpectedStep(src, before, Last(rows), k);
    }
  }

  // The table is a function of the log alone: per key, the last row logged, with the last
  // non-null `actual`.
  lemma {:induction false} HistoryReflectsLog(src: Source, history: seq<Batch>)
    ensures forall k :: Lookup(IngestHistory(src, history), k) == Expected(Committed(src, history), k)
  {
    if history != [] {
      HistoryReflectsLog(src, Init(history));
      if AllAdmissible(src, Last(history).rows) {
        forall k
          ensures Lookup(IngestHistory(src, history), k) == Expected(Committed(src, history), k)
        {
          UpsertAllReflects(src, IngestHistory(src, Init(history)), Committed(src, Init(history)),
                            Last(history).rows, Last(history).at, k);
        }
      }
    }
  }

  // How the log was cut into transactions, and when they ran, does not show.
  lemma BatchCutsDoNotMatter(src: Source, h1: seq<Batch>, h2: seq<Batch>)
    requires Committed(src, h1) == Committed(src, h2)
    ensures Payload(IngestHistory(src, h1)) == Payload(IngestHistory(src, h2))
  {
    HistoryReflectsLog(src, h1);
    HistoryReflectsLog(src, h2);
    SameLookupsSamePayload(IngestHistory(src, h1), IngestHistory(src, h2));
  }

  lemma SameLookupsSamePayload(a: Hot, b: Hot)
    requires forall k :: Lookup(a, k) == Lookup(b, k)
    ensures Payload(a) == Payload(b)
  {
    forall k
      ensures k in a <==> k in b
      ensures k in a && k in b ==> a[k].data == b[k].data
    {
      assert Lookup(a, k) == Lookup(b, k);
    }
  }

  lemma {:induction false} ExpectedAppend(log: seq<Row>, tail: seq<Row>, k: Key)
    ensures LastLogged(log + tail, k) == if LastLogged(tail, k).Some? then LastLogged(tail, k) else LastLogged(log, k)
    ensures LastActual(log + tail, k) == if LastActual(tail, k).Some? then LastActual(tail, k) else LastActual(log, k)
  {
    if tail == [] {
      assert log + tail == log;
    } else {
      assert Init(log + tail) == log + Init(tail);
      ExpectedAppend(log, Init(tail), k);
    }
  }

  lemma {:induction false} UpsertAllStamps(hot: Hot, rows: seq<Row>, now: int, k: Key)
    ensures k in UpsertAll(hot, rows, now) <==> k in hot || LastLogged(rows, k).Some?
    ensures LastLogged(rows, k).Some? ==> UpsertAll(hot, rows, now)[k].ingestedAt == now
    ensures LastLogged(rows, k).None? && k in hot ==> UpsertAll(hot, rows, now)[k] == hot[k]
  {
    if rows != [] {
      UpsertAllStamps(hot, Init(rows), now, k);
    }
  }

  // Replaying the latest batch, repeated keys and all, re-stamps its keys and changes nothing else.
  lemma ReplayOnlyRestamps(src: Source, history: seq<Batch>, batch: seq<Row>, t1: int, t2: int, k: Key)
    ensures var once := IngestHistory(src, history + [Batch(batch, t1)]);
            var twice := IngestHistory(src, history + [Batch(batch, t1), Batch(batch, t2)]);
            && Lookup(twice, k) == Lookup(once, k)
            && (k in once ==> twice[k].ingestedAt ==
                              if AllAdmissible(src, batch) && LastLogged(batch, k).Some? then t2 else once[k].ingestedAt)
  {
    var h1 := history + [Batch(batch, t1)];
    var h2 := history + [Batch(batch, t1), Batch(batch, t2)];
    assert Init(h2) == h1 && Init(h1) == history;
    if AllAdmissible(src, batch) {
      HistoryReflectsLog(src, h1);
      HistoryReflectsLog(src, h2);
      var log := Committed(src, history);
      assert Committed(src, h1) == log + batch;
      assert Committed(src, h2) == log + batch + batch;
      ExpectedAppend(log, batch, k);
      ExpectedAppend(log + batch, batch, k);
      UpsertAllStamps(IngestHistory(src, h1), batch, t2, k);
    }
  }

  // ---- What one batch does ----

  // The position of the last row of the batch with key k.
  ghost predicate LastAt(rows: seq<Row>, k: Key, i: nat) {
    i < |rows| && rows[i].key == k && forall j :: i < j < |rows| ==> rows[j].key != k
  }

  lemma {:induction false} LoggedAt(rows: seq<Row>, k: Key, i: nat)
    requires LastAt(rows, k, i)
    ensures LastLogged(rows, k) == Some(rows[i].data)
  {
    if i < |rows| - 1 {
      assert Last(rows) == rows[|rows| - 1];
      assert forall j :: i < j < |Init(rows)| ==> Init(rows)[j] == rows[j];
      LoggedAt(Init(rows), k, i);
    }
  }

  lemma AcceptedBatch(src: Source, history: seq<Batch>, rows: seq<Row>, at: int, i: nat)
    requires AllAdmissible(src, rows) && i < |rows| && LastAt(rows, rows[i].key, i)
    ensures var k, table := rows[i].key, IngestHistory(src, history + [Batch(rows, at)]);
            && k in table && table[k].ingestedAt == at
            && (!src.CarbonIntensity? ==> table[k].data == rows[i].data)
            && (src.CarbonIntensity? ==> table[k].data == rows[i].data.(actual := LastActual(Committed(src, history) + rows, k)))
  {
    var k, after := rows[i].key, history + [Batch(rows, at)];
    assert Init(after) == history;
    var log := Committed(src, history);
    assert Committed(src, after) == log + rows;
    HistoryReflectsLog(src, after);
    LoggedAt(rows, k, i);
    ExpectedAppend(log, rows, k);
    assert Admissible(src, rows[i]);
    assert Lookup(IngestHistory(src, after), k) == Expected(log + rows, k);
    UpsertAllStamps(IngestHistory(src, history), rows, at, k);
  }

  lemma RefusedBatch(src: Source, history: seq<Batch>, rows: seq<Row>, at: int)
    requires !AllAdmissible(src, rows)
    ensures IngestHistory(src, history + [Batch(rows, at)]) == IngestHistory(src, history)
  {
    assert Init(history + [Batch(rows, at)]) == history;
  }

  predicate HasActual(row: Row) {
    row.data.Carbon? && row.data.actual.Some?
  }

  lemma {:induction false} ActualAt(rows: seq<Row>, k: Key, i: nat)
    requires i < |rows| && rows[i].key == k && HasActual(rows[i])
    requires forall j :: i < j < |rows| && rows[j].key == k ==> !HasActual(rows[j])
    ensures LastActual(rows, k) == rows[i].data.actual
  {
    if i < |rows| - 1 {
      assert Last(rows) == rows[|rows| - 1];
      assert forall j :: i < j < |Init(rows)| ==> Init(rows)[j] == rows[j];
      ActualAt(Init(rows), k, i);
    }
  }

  lemma {:induction false} NoActual(rows: seq<Row>, k: Key)
    requires forall j :: 0 <= j < |rows| && rows[j].key == k ==> !HasActual(rows[j])
    ensures LastActual(rows, k).None?
  {
    if rows != [] {
      assert Last(rows) == rows[|rows| - 1];
      assert forall j :: 0 <= j < |Init(rows)| ==> Init(rows)[j] == rows[j];
      NoActual(Init(rows), k);
    }
  }

  // A batch of carbon rows is written whole, and is then read back by key, when every row has a
  // region from 0 to 14, an end after its start, one of the five indices and SMALLINT values;
  // otherwise it is refused whole.
  lemma CarbonBatchReadBack(history: seq<Batch>, rows: seq<Row>, at: int)
    requires forall i :: 0 <= i < |rows| ==> rows[i].key.RegionKey? && rows[i].data.Carbon?
    ensures var table := IngestHistory(CarbonIntensity, history + [Batch(rows, at)]);
            if forall i :: 0 <= i < |rows| ==>
                 var k, d := rows[i].key, rows[i].data;
                 && 0 <= k.region <= 14 && k.start < d.end
                 && d.index in {"very low", "low", "moderate", "high", "very high"}
                 && -32768 <= d.forecast <= 32767 && (d.actual.Some? ==> -32768 <= d.actual.value <= 32767)
            then forall i :: 0 <= i < |rows| && LastAt(rows, rows[i].key, i) ==>
                 var k, d := rows[i].key, rows[i].data;
                 && k in table && table[k].data.Carbon? && table[k].ingestedAt == at
                 && table[k].data.end == d.end && table[k].data.forecast == d.forecast && table[k].data.index == d.index
                 && (d.actual.Some? ==> table[k].data.actual == d.actual)
            else table == IngestHistory(CarbonIntensity, history)
  {
    hide IngestHistory, Committed;
    if AllAdmissible(CarbonIntensity, rows) {
      forall i | 0 <= i < |rows| && LastAt(rows, rows[i].key, i)
        ensures rows[i].data.actual.Some? ==>
                  LastActual(Committed(CarbonIntensity, history) + rows, rows[i].key) == rows[i].data.actual
      {
        AcceptedBatch(CarbonIntensity, history, rows, at, i);
        ExpectedAppend(Committed(CarbonIntensity, history), rows, rows[i].key);
        if rows[i].data.actual.Some? {
          ActualAt(rows, rows[i].key, i);
        }
      }
      forall i | 0 <= i < |rows| && LastAt(rows, rows[i].key, i) {
        AcceptedBatch(CarbonIntensity, history, rows, at, i);
      }
    } else {
      RefusedBatch(CarbonIntensity, history, rows, at);
    }
  }

  // The same for prices: regions 1 to 14, an end after the start.
  lemma PriceBatchReadBack(history: seq<Batch>, rows: seq<Row>, at: int)
    requires forall i :: 0 <= i < |rows| ==> rows[i].key.RegionKey? && rows[i].data.Price?
    ensures var table := IngestHistory(AgilePrice, history + [Batch(rows, at)]);
            if forall i :: 0 <= i < |rows| ==> 1 <= rows[i].key.region <= 14 && rows[i].key.start < rows[i].data.end
            then forall i :: 0 <= i < |rows| && LastAt(rows, rows[i].key, i) ==>
                 rows[i].key in table && table[rows[i].key] == Stored(rows[i].data, at)
            else table == IngestHistory(AgilePrice, history)
  {
    hide IngestHistory, Committed;
    if AllAdmissible(AgilePrice, rows) {
      forall i | 0 <= i < |rows| && LastAt(rows, rows[i].key, i) {
        AcceptedBatch(AgilePrice, history, rows, at, i);
      }
    } else {
      RefusedBatch(AgilePrice, history, rows, at);
    }
  }

  // The generation mix has no CHECK: every batch is written.
  lemma MixBatchReadBack(history: seq<Batch>, rows: seq<Row>, at: int, i: nat)
    requires forall i :: 0 <= i < |rows| ==> rows[i].key.PeriodKey? && rows[i].data.Mix?
    requires i < |rows| && LastAt(rows, rows[i].key, i)
    ensures var table := IngestHistory(GenerationMix, history + [Batch(rows, at)]);
            rows[i].key in table && table[rows[i].key] == Stored(rows[i].data, at)
  {
    hide IngestHistory, Committed;
    AcceptedBatch(GenerationMix, history, rows, at, i);
  }
}
