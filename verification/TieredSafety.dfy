// What every run of the hot/cold store keeps: archived keys and realised values stay, and
// cold, which has no primary key, never holds two rows for one key.
module TieredSafety {
  import opened Prelude
  import opened Rows
  import opened HotStore
  import opened ColdStore
  import opened TieredStore

  // ---- Nothing archived is lost ----

  predicate Realised(data: Data) {
    data.Carbon? && data.actual.Some?
  }

  ghost predicate Covers(m: multiset<Row>, k: Key) {
    exists data :: Row(k, data) in m
  }

  ghost predicate Knows(m: multiset<Row>, k: Key) {
    exists data :: Row(k, data) in m && Realised(data)
  }

  // Every key of x is a key of y, and every key with a non-null `actual` in x has one in y.
  ghost predicate Dominated(x: multiset<Row>, y: multiset<Row>) {
    forall k :: (Covers(x, k) ==> Covers(y, k)) && (Knows(x, k) ==> Knows(y, k))
  }

  lemma DayRowsCover(hot: Hot, d: int, k: Key)
    ensures Covers(DayRows(hot, d), k) <==> k in hot && InDay(k, d)
    ensures Knows(DayRows(hot, d), k) <==> k in hot && InDay(k, d) && Realised(hot[k].data)
  {
    if k in hot && InDay(k, d) {
      assert Row(k, hot[k].data) in DayRows(hot, d);
    }
  }

  // Day d has been overwritten since run `id` last fetched.
  ghost predicate Superseded(src: Source, s: State, log: seq<Step>, id: nat, d: int) {
    && log != []
    && var before := After(src, s, Init(log));
    && !Fetches(before, Last(log), id)
    && (Writes(before, Last(log), d) || Superseded(src, s, Init(log), id, d))
  }

  // Day d is never overwritten with rows fetched before an earlier overwrite of it.
  ghost predicate WrittenInOrder(src: Source, s: State, log: seq<Step>, d: int) {
    log != [] ==>
      && WrittenInOrder(src, s, Init(log), d)
      && (Writes(After(src, s, Init(log)), Last(log), d) ==> !Superseded(src, s, Init(log), Last(log).id, d))
  }

  predicate WithinHorizon(now: int, d: int) {
    now <= DayStart(d) + RETENTION
  }

  ghost predicate FetchesDay(s: State, step: Step, d: int) {
    step.FetchDay? && CanFetch(s, step.id) && Target(s.jobs[step.id]) == d
  }

  // Day d is fetched only while retention cannot have reached it.
  ghost predicate Prompt(src: Source, s: State, log: seq<Step>, d: int) {
    log != [] ==>
      && Prompt(src, s, Init(log), d)
      && (FetchesDay(After(src, s, Init(log)), Last(log), d) ==> WithinHorizon(After(src, s, Init(log)).now, d))
  }

  // A raw table holds rows of its own source.
  ghost predicate Typed(src: Source, hot: Hot) {
    forall k :: k in hot ==> (hot[k].data.Carbon? <==> src.CarbonIntensity?)
  }

  lemma {:induction false} UpsertsKeep(src: Source, hot: Hot, rows: seq<Row>, now: int, k: Key)
    requires Typed(src, hot) && AllAdmissible(src, rows)
    ensures Typed(src, UpsertAll(hot, rows, now))
    ensures k in hot ==> k in UpsertAll(hot, rows, now)
    ensures k in hot && Realised(hot[k].data) ==> Realised(UpsertAll(hot, rows, now)[k].data)
  {
    if rows != [] {
      UpsertsKeep(src, hot, Init(rows), now, k);
    }
  }

  lemma {:induction false} HotIsTyped(src: Source, s: State, log: seq<Step>)
    requires Fresh(s)
    ensures Typed(src, After(src, s, log).hot)
  {
    if log != [] {
      HotIsTyped(src, s, Init(log));
      var before := After(src, s, Init(log));
      if Last(log).IngestBatch? && AllAdmissible(src, Last(log).batch) {
        UpsertsKeep(src, before.hot, Last(log).batch, before.now, PeriodKey(0));
      }
    }
  }

  // Until its horizon, no step takes a key of day d, or its realised value, out of hot.
  lemma HotKeepsDay(src: Source, s: State, step: Step, d: int)
    requires Typed(src, s.hot)
    requires WithinHorizon(Next(src, s, step).now, d)
    ensures Dominated(DayRows(s.hot, d), DayRows(Next(src, s, step).hot, d))
  {
    hide DayRows, IsDayRows, Covers, Knows;
    var after := Next(src, s, step).hot;
    forall k
      ensures Covers(DayRows(s.hot, d), k) ==> Covers(DayRows(after, d), k)
      ensures Knows(DayRows(s.hot, d), k) ==> Knows(DayRows(after, d), k)
    {
      DayRowsCover(s.hot, d, k);
      DayRowsCover(after, d, k);
      if step.IngestBatch? && AllAdmissible(src, step.batch) {
        UpsertsKeep(src, s.hot, step.batch, s.now, k);
      }
    }
  }

  lemma DominatedTransitive(x: multiset<Row>, y: multiset<Row>, z: multiset<Row>)
    requires Dominated(x, y) && Dominated(y, z)
    ensures Dominated(x, z)
  {
  }

  // Cold's day d is dominated by every in-order fetch of it and, within the horizon, by hot.
  ghost predicate ColdBehindHot(s: State, d: int) {
    WithinHorizon(s.now, d) ==> Dominated(OfDay(s.cold, d), DayRows(s.hot, d))
  }

  ghost predicate FetchBetween(s: State, rows: multiset<Row>, superseded: bool, d: int) {
    && (WithinHorizon(s.now, d) ==> Dominated(rows, DayRows(s.hot, d)))
    && (!superseded ==> Dominated(OfDay(s.cold, d), rows))
  }

  ghost predicate Holds(s: State, id: nat, d: int) {
    CanWrite(s, id) && Target(s.jobs[id]) == d
  }

  lemma {:induction false} ColdStaysBehind(src: Source, s: State, log: seq<Step>, d: int)
    requires Fresh(s)
    requires NoBackfillInto(log, d) && WrittenInOrder(src, s, log, d) && Prompt(src, s, log, d)
    ensures ColdBehindHot(After(src, s, log), d)
    ensures forall id :: Holds(After(src, s, log), id, d) ==>
                           FetchBetween(After(src, s, log), After(src, s, log).jobs[id].fetched.value, Superseded(src, s, log, id, d), d)
  {
    hide Dominated, DayRows, IsDayRows, OfDay, Overwritten, IsOverwritten;
    if log == [] {
      NothingDominated(d, s.cold, DayRows(s.hot, d));
    } else {
      var front, step := Init(log), Last(log);
      var before, after := After(src, s, front), After(src, s, log);
      ColdStaysBehind(src, s, front, d);
      HotIsTyped(src, s, front);
      if WithinHorizon(after.now, d) {
        HotKeepsDay(src, before, step, d);
      }
      if Writes(before, step, d) {
        JobsAccounted(src, s, front, step.id);
        FetchedInDay(before.jobs[step.id], LastFetch(src, s, front, step.id), d);
        OfDayAfterOverwrite(before.cold, d, before.jobs[step.id].fetched.value, d);
      } else {
        StepLeavesDay(src, s, log, d);
      }
      StepKeepsColdBehind(src, before, step, d);
      forall id | Holds(after, id, d)
        ensures FetchBetween(after, after.jobs[id].fetched.value, Superseded(src, s, log, id, d), d)
      {
        StepKeepsFetch(src, before, step, id, Superseded(src, s, front, id, d), d);
      }
    }
  }

  lemma NothingDominated(d: int, cold: multiset<Row>, rows: multiset<Row>)
    requires cold == multiset{}
    ensures Dominated(OfDay(cold, d), rows)
  {
  }

  lemma FetchedInDay(j: Job, read: Option<Hot>, d: int)
    requires j.fetched.Some? && read.Some? && j.fetched.value == DayRows(read.value, Target(j)) && Target(j) == d
    ensures forall r :: r in j.fetched.value ==> InDay(r.key, d)
  {
  }

  lemma StepKeepsColdBehind(src: Source, s: State, step: Step, d: int)
    requires ColdBehindHot(s, d)
    requires Writes(s, step, d) ==> FetchBetween(s, s.jobs[step.id].fetched.value, false, d)
    requires OfDay(Next(src, s, step).cold, d) ==
             if Writes(s, step, d) then s.jobs[step.id].fetched.value else OfDay(s.cold, d)
    requires WithinHorizon(Next(src, s, step).now, d) ==> Dominated(DayRows(s.hot, d), DayRows(Next(src, s, step).hot, d))
    ensures ColdBehindHot(Next(src, s, step), d)
  {
    hide DayRows, OfDay, IsDayRows, Overwritten, Dominated;
    var after := Next(src, s, step);
    if WithinHorizon(after.now, d) {
      DominatedTransitive(OfDay(after.cold, d), DayRows(s.hot, d), DayRows(after.hot, d));
    }
  }

  lemma StepKeepsFetch(src: Source, s: State, step: Step, id: nat, superseded: bool, d: int)
    requires ColdBehindHot(s, d)
    requires Holds(s, id, d) ==> FetchBetween(s, s.jobs[id].fetched.value, superseded, d)
    requires FetchesDay(s, step, d) ==> WithinHorizon(s.now, d)
    requires OfDay(Next(src, s, step).cold, d) ==
             if Writes(s, step, d) then s.jobs[step.id].fetched.value else OfDay(s.cold, d)
    requires WithinHorizon(Next(src, s, step).now, d) ==> Dominated(DayRows(s.hot, d), DayRows(Next(src, s, step).hot, d))
    requires Holds(Next(src, s, step), id, d)
    ensures FetchBetween(Next(src, s, step), Next(src, s, step).jobs[id].fetched.value,
                         !Fetches(s, step, id) && (Writes(s, step, d) || superseded), d)
  {
    hide DayRows, OfDay, IsDayRows, Overwritten, Dominated;
    var after := Next(src, s, step);
    if Fetches(s, step, id) {
      assert after.hot == s.hot && after.cold == s.cold;
    } else {
      assert Holds(s, id, d) && after.jobs[id] == s.jobs[id];
      if WithinHorizon(after.now, d) {
        DominatedTransitive(after.jobs[id].fetched.value, DayRows(s.hot, d), DayRows(after.hot, d));
      }
    }
  }

  // As long as day d is fetched promptly and overwritten in order, cold never loses a key of d,
  // and a realised value of d in cold never turns null again.
  lemma {:induction false} ArchivedDayOnlyGrows(src: Source, s: State, log: seq<Step>, more: seq<Step>, d: int)
    requires Fresh(s)
    requires NoBackfillInto(log + more, d) && WrittenInOrder(src, s, log + more, d) && Prompt(src, s, log + more, d)
    ensures Dominated(OfDay(After(src, s, log).cold, d), OfDay(After(src, s, log + more).cold, d))
  {
    hide DayRows, OfDay, IsDayRows, Overwritten, Covers, Knows;
    if more == [] {
      assert log + more == log;
    } else {
      var whole, front := log + more, log + Init(more);
      assert Init(whole) == front && Last(whole) == Last(more);
      var before, step := After(src, s, front), Last(more);
      ArchivedDayOnlyGrows(src, s, log, Init(more), d);
      ColdStaysBehind(src, s, front, d);
      if Writes(before, step, d) {
        JobsAccounted(src, s, front, step.id);
        FetchedInDay(before.jobs[step.id], LastFetch(src, s, front, step.id), d);
        OfDayAfterOverwrite(before.cold, d, before.jobs[step.id].fetched.value, d);
        assert Holds(before, step.id, d);
      } else {
        StepLeavesDay(src, s, whole, d);
      }
      DominatedTransitive(OfDay(After(src, s, log).cold, d), OfDay(before.cold, d), OfDay(After(src, s, whole).cold, d));
    }
  }

  // ---- When those conditions hold, and what happens when they do not ----

  // Archive runs never overlap.
  ghost predicate Serial(src: Source, s: State, log: seq<Step>) {
    log != [] ==>
      && Serial(src, s, Init(log))
      && (Last(log).Begin? ==> After(src, s, Init(log)).jobs == map[])
  }

  lemma {:induction false} OneRunAtATime(src: Source, s: State, log: seq<Step>, a: nat, b: nat)
    requires Fresh(s) && Serial(src, s, log)
    requires a in After(src, s, log).jobs && b in After(src, s, log).jobs
    ensures a == b
  {
    var before := After(src, s, Init(log));
    if a in before.jobs && b in before.jobs {
      OneRunAtATime(src, s, Init(log), a, b);
    }
  }

  lemma {:induction false} HeldIsNotSuperseded(src: Source, s: State, log: seq<Step>, id: nat, d: int)
    requires Fresh(s) && Serial(src, s, log)
    requires CanWrite(After(src, s, log), id)
    ensures !Superseded(src, s, log, id, d)
  {
    var before, step := After(src, s, Init(log)), Last(log);
    if !Fetches(before, step, id) {
      assert CanWrite(before, id);
      HeldIsNotSuperseded(src, s, Init(log), id, d);
      if Writes(before, step, d) {
        OneRunAtATime(src, s, Init(log), id, step.id);
      }
    }
  }

  lemma {:induction false} SerialRunsWriteInOrder(src: Source, s: State, log: seq<Step>, d: int)
    requires Fresh(s) && Serial(src, s, log)
    ensures WrittenInOrder(src, s, log, d)
  {
    if log != [] {
      SerialRunsWriteInOrder(src, s, Init(log), d);
      if Writes(After(src, s, Init(log)), Last(log), d) {
        HeldIsNotSuperseded(src, s, Init(log), Last(log).id, d);
      }
    }
  }

  // Every archive run makes its fetches within 87 days of its start.
  ghost predicate Quick(src: Source, s: State, log: seq<Step>) {
    log != [] ==>
      && Quick(src, s, Init(log))
      && (Last(log).FetchDay? && CanFetch(After(src, s, Init(log)), Last(log).id) ==>
            var start := StartDay(src, s, Init(log), Last(log).id);
            start.Some? && DayOf(After(src, s, Init(log)).now) <= start.value + 87)
  }

  // The 2-day lookback lies inside the 90-day retention, so 87 days leave a run time enough.
  lemma {:induction false} QuickRunsArePrompt(src: Source, s: State, log: seq<Step>, d: int)
    requires Fresh(s) && Quick(src, s, log)
    ensures Prompt(src, s, log, d)
  {
    hide DayOf, WithinHorizon;
    if log != [] {
      var front, before := Init(log), After(src, s, Init(log));
      QuickRunsArePrompt(src, s, front, d);
      if FetchesDay(before, Last(log), d) {
        JobsAccounted(src, s, front, Last(log).id);
        LookbackInsideRetention(before.jobs[Last(log).id], before.now);
      }
    }
  }

  lemma LookbackInsideRetention(j: Job, now: int)
    requires 1 <= j.back <= ARCHIVE_LOOKBACK_DAYS && DayOf(now) <= j.today + 87
    ensures WithinHorizon(now, Target(j))
  {
  }

  // What an operator can see to: if archive runs do not overlap and none takes more than 87 days,
  // nothing archived is ever lost, on any day and over any continuation.
  lemma SerialQuickRunsLoseNothing(src: Source, s: State, log: seq<Step>, more: seq<Step>, d: int)
    requires Fresh(s) && NoBackfillInto(log + more, d)
    requires Serial(src, s, log + more) && Quick(src, s, log + more)
    ensures Dominated(OfDay(After(src, s, log).cold, d), OfDay(After(src, s, log + more).cold, d))
  {
    SerialRunsWriteInOrder(src, s, log + more, d);
    QuickRunsArePrompt(src, s, log + more, d);
    ArchivedDayOnlyGrows(src, s, log, more, d);
  }

  // ---- Exactly when something is lost ----

  // The last overwrite had read key k of day d, and had read it realised.
  ghost predicate ReadHolds(last: Option<Overwrite>, d: int, k: Key) {
    last.Some? && last.value.read.Some? && k in last.value.read.value && InDay(k, d)
  }

  ghost predicate ReadKnows(last: Option<Overwrite>, d: int, k: Key) {
    ReadHolds(last, d, k) && Realised(last.value.read.value[k].data)
  }

  // Over every run, a key of day d is in cold exactly when the last overwrite of d had read it in
  // hot, and is realised in cold exactly when that overwrite had read it realised.
  lemma ColdHoldsExactlyWhatWasRead(src: Source, s: State, log: seq<Step>, d: int, k: Key)
    requires Fresh(s) && NoBackfillInto(log, d)
    ensures Covers(OfDay(After(src, s, log).cold, d), k) <==> ReadHolds(LastOverwrite(src, s, log, d), d, k)
    ensures Knows(OfDay(After(src, s, log).cold, d), k) <==> ReadKnows(LastOverwrite(src, s, log, d), d, k)
  {
    hide After, LastOverwrite, DayRows, IsDayRows, OfDay, InDay;
    ColdDayProvenance(src, s, log, d);
    var last := LastOverwrite(src, s, log, d);
    if last.Some? {
      DayRowsCover(last.value.read.value, d, k);
    }
  }

  // The later overwrite had read every key the earlier one had, realised where it was.
  ghost predicate ReadGrows(earlier: Option<Overwrite>, later: Option<Overwrite>, d: int) {
    forall k :: (ReadHolds(earlier, d, k) ==> ReadHolds(later, d, k)) && (ReadKnows(earlier, d, k) ==> ReadKnows(later, d, k))
  }

  // Between any two points of any run, cold loses no key and no realised value of day d exactly
  // when the last overwrite of d by then had read everything the earlier one had.
  lemma ArchivedDayGrowsExactlyWhen(src: Source, s: State, log: seq<Step>, more: seq<Step>, d: int)
    requires Fresh(s) && NoBackfillInto(log + more, d)
    ensures Dominated(OfDay(After(src, s, log).cold, d), OfDay(After(src, s, log + more).cold, d)) <==>
            ReadGrows(LastOverwrite(src, s, log, d), LastOverwrite(src, s, log + more, d), d)
  {
    hide After, LastOverwrite, OfDay, Covers, Knows, ReadHolds, ReadKnows;
    NoBackfillBefore(log, more, d);
    var c1, c2 := OfDay(After(src, s, log).cold, d), OfDay(After(src, s, log + more).cold, d);
    var o1, o2 := LastOverwrite(src, s, log, d), LastOverwrite(src, s, log + more, d);
    forall k
      ensures Matches(c1, o1, d, k) && Matches(c2, o2, d, k)
    {
      ColdHoldsExactlyWhatWasRead(src, s, log, d, k);
      ColdHoldsExactlyWhatWasRead(src, s, log + more, d, k);
    }
    MatchingGrows(c1, c2, o1, o2, d);
  }

  ghost predicate Matches(c: multiset<Row>, o: Option<Overwrite>, d: int, k: Key) {
    (Covers(c, k) <==> ReadHolds(o, d, k)) && (Knows(c, k) <==> ReadKnows(o, d, k))
  }

  lemma MatchingGrows(c1: multiset<Row>, c2: multiset<Row>, o1: Option<Overwrite>, o2: Option<Overwrite>, d: int)
    requires forall k :: Matches(c1, o1, d, k) && Matches(c2, o2, d, k)
    ensures Dominated(c1, c2) <==> ReadGrows(o1, o2, d)
  {
    hide Covers, Knows, ReadHolds, ReadKnows;
    if ReadGrows(o1, o2, d) {
      forall k
        ensures (Covers(c1, k) ==> Covers(c2, k)) && (Knows(c1, k) ==> Knows(c2, k))
      {
        assert Matches(c1, o1, d, k) && Matches(c2, o2, d, k);
      }
    }
    if Dominated(c1, c2) {
      forall k
        ensures (ReadHolds(o1, d, k) ==> ReadHolds(o2, d, k)) && (ReadKnows(o1, d, k) ==> ReadKnows(o2, d, k))
      {
        assert Matches(c1, o1, d, k) && Matches(c2, o2, d, k);
      }
    }
  }

  lemma NoBackfillBefore(log: seq<Step>, more: seq<Step>, d: int)
    requires NoBackfillInto(log + more, d)
    ensures NoBackfillInto(log, d)
  {
    forall i, r | 0 <= i < |log| && log[i].Backfill? && r in log[i].rows
      ensures !InDay(r.key, d)
    {
      assert (log + more)[i] == log[i];
    }
  }

  // ---- Two schedules that lose archived data ----

  // Run a holds day d when run b starts; a row arrives; b fetches and writes; then a writes.
  function Overlap(a: nat, b: nat, r: Row): seq<Step> {
    [Begin(a)] + [FetchDay(a)] + [Begin(b)] + [IngestBatch([r])] + [FetchDay(b)] + [WriteDay(b)]
  }

  // On day d+1, from any state: b archives the row, realised if it is; once a has written, its key
  // is in cold exactly when hot held it beforehand, and realised exactly when it was so then.
  lemma OverlapKeepsExactlyWhatWasThere(src: Source, s: State, a: nat, b: nat, r: Row, d: int)
    requires a != b && a !in s.jobs && b !in s.jobs && DayOf(s.now) == d + 1
    requires Admissible(src, r) && InDay(r.key, d)
    ensures var archived, after := After(src, s, Overlap(a, b, r)), After(src, s, Overlap(a, b, r) + [WriteDay(a)]);
            && Covers(archived.cold, r.key) && (Realised(r.data) ==> Knows(archived.cold, r.key))
            && (Covers(after.cold, r.key) <==> r.key in s.hot)
            && (Knows(after.cold, r.key) <==> r.key in s.hot && Realised(s.hot[r.key].data))
  {
    hide After, DayOf, DayRows, IsDayRows, Overwritten, IsOverwritten, Covers, Knows, Ingest, Admissible, InDay, Next;
    SixSteps(src, s, Begin(a), FetchDay(a), Begin(b), IngestBatch([r]), FetchDay(b), WriteDay(b));
    AfterOne(src, s, Overlap(a, b, r), WriteDay(a));
    var st := TwoRunsReady(src, s, a, b, d);
    var hot := Ingest(src, s.hot, [r], s.now);
    IngestedKey(src, s.hot, r, s.now);
    var s3 := RivalRun(src, st, a, b, [r]);
    DayRowsCover(hot, d, r.key);
    DayRowsCover(s.hot, d, r.key);
    OverwriteCovers(s.cold, d, DayRows(hot, d), r.key);
    OverwriteCovers(s3.cold, d, DayRows(s.hot, d), r.key);
  }

  lemma TwoRunsReady(src: Source, s: State, a: nat, b: nat, d: int) returns (st: State)
    requires a != b && a !in s.jobs && b !in s.jobs && DayOf(s.now) == d + 1
    ensures st == Next(src, Next(src, Next(src, s, Begin(a)), FetchDay(a)), Begin(b))
    ensures st == s.(jobs := st.jobs) && CanWrite(st, a) && CanFetch(st, b)
    ensures Target(st.jobs[a]) == Target(st.jobs[b]) == d && st.jobs[a].fetched.value == DayRows(s.hot, d)
  {
    hide DayRows, IsDayRows;
    st := Next(src, Next(src, Next(src, s, Begin(a)), FetchDay(a)), Begin(b));
  }

  lemma RivalRun(src: Source, s: State, a: nat, b: nat, batch: seq<Row>) returns (after: State)
    requires a != b && CanWrite(s, a) && CanFetch(s, b)
    ensures after == Next(src, Next(src, Next(src, s, IngestBatch(batch)), FetchDay(b)), WriteDay(b))
    ensures var e := Target(s.jobs[b]);
            after.cold == Overwritten(s.cold, e, DayRows(Ingest(src, s.hot, batch, s.now), e))
    ensures Next(src, after, WriteDay(a)).cold == Overwritten(after.cold, Target(s.jobs[a]), s.jobs[a].fetched.value)
  {
    hide DayRows, IsDayRows, Overwritten, IsOverwritten, Ingest;
    after := Next(src, Next(src, Next(src, s, IngestBatch(batch)), FetchDay(b)), WriteDay(b));
    assert after.jobs[a] == s.jobs[a];
  }

  lemma IngestedKey(src: Source, hot: Hot, r: Row, now: int)
    requires Admissible(src, r)
    ensures r.key in Ingest(src, hot, [r], now)
    ensures Realised(r.data) ==> Realised(Ingest(src, hot, [r], now)[r.key].data)
    ensures r.key !in hot ==> Ingest(src, hot, [r], now)[r.key].data == r.data
  {
    assert AllAdmissible(src, [r]);
    assert UpsertAll(hot, [r], now) == Upsert(UpsertAll(hot, Init([r]), now), r, now);
  }

  lemma OverwriteCovers(m: multiset<Row>, d: int, added: multiset<Row>, k: Key)
    requires InDay(k, d)
    ensures Covers(Overwritten(m, d, added), k) <==> Covers(added, k)
    ensures Knows(Overwritten(m, d, added), k) <==> Knows(added, k)
  {
    var after := Overwritten(m, d, added);
    forall data
      ensures Row(k, data) in after <==> Row(k, data) in added
    {
      assert after[Row(k, data)] == added[Row(k, data)];
    }
  }

  // From the empty platform: an archived key is gone.
  lemma OverlapLosesKey(src: Source, s: State, a: nat, b: nat, r: Row, d: int)
    requires Fresh(s) && a != b && DayOf(s.now) == d + 1
    requires Admissible(src, r) && InDay(r.key, d)
    ensures Covers(After(src, s, Overlap(a, b, r)).cold, r.key)
    ensures !Covers(After(src, s, Overlap(a, b, r) + [WriteDay(a)]).cold, r.key)
  {
    OverlapKeepsExactlyWhatWasThere(src, s, a, b, r, d);
  }

  // From the empty platform: a realised value in cold turns null again, its key still there.
  lemma OverlapUnrealises(s: State, a: nat, b: nat, r: Row, d: int)
    requires Fresh(s) && a != b && DayOf(s.now) == d + 1
    requires Admissible(CarbonIntensity, r) && InDay(r.key, d) && Realised(r.data)
    ensures var log := [IngestBatch([Row(r.key, r.data.(actual := None))])] + Overlap(a, b, r);
            && Knows(After(CarbonIntensity, s, log).cold, r.key)
            && Covers(After(CarbonIntensity, s, log + [WriteDay(a)]).cold, r.key)
            && !Knows(After(CarbonIntensity, s, log + [WriteDay(a)]).cold, r.key)
  {
    hide After, Covers, Knows, DayOf, InDay, Overlap, Ingest;
    var forecast := Row(r.key, r.data.(actual := None));
    var first := [IngestBatch([forecast])];
    assert [] + first == first;
    AfterNothing(CarbonIntensity, s);
    AfterOne(CarbonIntensity, s, [], IngestBatch([forecast]));
    IngestedKey(CarbonIntensity, s.hot, forecast, s.now);
    var s1 := After(CarbonIntensity, s, first);
    AfterConcat(CarbonIntensity, s, first, Overlap(a, b, r));
    AfterConcat(CarbonIntensity, s, first, Overlap(a, b, r) + [WriteDay(a)]);
    assert first + Overlap(a, b, r) + [WriteDay(a)] == first + (Overlap(a, b, r) + [WriteDay(a)]);
    OverlapKeepsExactlyWhatWasThere(CarbonIntensity, s1, a, b, r, d);
  }

  lemma AfterNothing(src: Source, s: State)
    ensures After(src, s, []) == s
  {
  }

  // A run archives day d and ends; the next one starts, stalls for t seconds, and retention comes
  // before its fetch.
  function Stall(a: nat, t: nat): seq<Step> {
    [Begin(a)] + [FetchDay(a)] + [WriteDay(a)] + [Stop(a)] + [Begin(a)] + [Tick(t)]
  }

  // On day d+1, from any state: a key of hot is archived, and after the stalled run it is in cold
  // exactly when the stall has not taken it past the 90 days.
  lemma StallKeepsExactlyWithinRetention(src: Source, s: State, a: nat, k: Key, d: int, t: nat)
    requires a !in s.jobs && DayOf(s.now) == d + 1 && k in s.hot && InDay(k, d)
    ensures var archived := After(src, s, Stall(a, t));
            var after := Next(src, Next(src, Next(src, archived, Retain({k})), FetchDay(a)), WriteDay(a));
            Covers(archived.cold, k) && (Covers(after.cold, k) <==> s.now + t <= k.start + 90 * 86400)
  {
    hide After, DayOf, DayRows, IsDayRows, Overwritten, IsOverwritten, Covers, InDay, Next;
    SixSteps(src, s, Begin(a), FetchDay(a), WriteDay(a), Stop(a), Begin(a), Tick(t));
    var st := ArchivedAndStalled(src, s, a, d, t);
    DayRowsCover(s.hot, d, k);
    OverwriteCovers(s.cold, d, DayRows(s.hot, d), k);
    RetainThenWrite(src, st, a, k, d);
  }

  lemma ArchivedAndStalled(src: Source, s: State, a: nat, d: int, t: nat) returns (st: State)
    requires a !in s.jobs && DayOf(s.now) == d + 1
    ensures st == Next(src, Next(src, Next(src, Next(src, Next(src, Next(src, s,
                    Begin(a)), FetchDay(a)), WriteDay(a)), Stop(a)), Begin(a)), Tick(t))
    ensures st.cold == Overwritten(s.cold, d, DayRows(s.hot, d)) && st.hot == s.hot && st.now == s.now + t
    ensures CanFetch(st, a) && Target(st.jobs[a]) == d
  {
    hide DayRows, IsDayRows, Overwritten, IsOverwritten;
    var s3 := Next(src, Next(src, Next(src, s, Begin(a)), FetchDay(a)), WriteDay(a));
    assert s3.cold == Overwritten(s.cold, d, DayRows(s.hot, d)) && s3.hot == s.hot && s3.now == s.now;
    st := Next(src, Next(src, Next(src, s3, Stop(a)), Begin(a)), Tick(t));
  }

  lemma RetainThenWrite(src: Source, s: State, a: nat, k: Key, d: int)
    requires InDay(k, d) && CanFetch(s, a) && Target(s.jobs[a]) == d
    ensures var after := Next(src, Next(src, Next(src, s, Retain({k})), FetchDay(a)), WriteDay(a));
            Covers(after.cold, k) <==> k in s.hot && !Expired(k, s.now)
  {
    hide DayRows, IsDayRows, Overwritten, IsOverwritten, Covers, InDay, Expired;
    var s1 := Next(src, s, Retain({k}));
    assert k in s1.hot <==> k in s.hot && !Expired(k, s.now);
    assert s1.jobs == s.jobs && s1.cold == s.cold;
    var s3 := Next(src, Next(src, s1, FetchDay(a)), WriteDay(a));
    assert s3.cold == Overwritten(s.cold, d, DayRows(s1.hot, d));
    DayRowsCover(s1.hot, d, k);
    OverwriteCovers(s.cold, d, DayRows(s1.hot, d), k);
  }

  // ---- One row per key in a table without a primary key ----

  ghost predicate OnePerKey(m: multiset<Row>) {
    && (forall r :: m[r] <= 1)
    && (forall k, x, y :: Row(k, x) in m && Row(k, y) in m ==> x == y)
  }

  // Instant t lies in a range backfilled, or on a day overwritten, earlier in the run.
  ghost predicate Touched(src: Source, s: State, log: seq<Step>, t: int) {
    && log != []
    && (|| Touched(src, s, Init(log), t)
        || (Last(log).Backfill? && Last(log).lo <= t < Last(log).hi)
        || Writes(After(src, s, Init(log)), Last(log), DayOf(t)))
  }

  // Every backfill brings one row per key, inside its range, into a range untouched so far.
  ghost predicate BackfillsApart(src: Source, s: State, log: seq<Step>) {
    log != [] ==>
      && BackfillsApart(src, s, Init(log))
      && (Last(log).Backfill? ==>
            && OnePerKey(Last(log).rows)
            && (forall r :: r in Last(log).rows ==> InWindow(r.key, Last(log).lo, Last(log).hi))
            && (forall t :: Last(log).lo <= t < Last(log).hi ==> !Touched(src, s, Init(log), t)))
  }

  lemma DayRowsOnePerKey(hot: Hot, d: int)
    ensures OnePerKey(DayRows(hot, d))
  {
  }

  lemma OverwriteKeepsOnePerKey(m: multiset<Row>, d: int, added: multiset<Row>)
    requires OnePerKey(m) && OnePerKey(added)
    requires forall r :: r in added ==> InDay(r.key, d)
    ensures OnePerKey(Overwritten(m, d, added))
  {
    var after := Overwritten(m, d, added);
    forall k, x, y | Row(k, x) in after && Row(k, y) in after
      ensures x == y
    {
      if InDay(k, d) {
        assert Row(k, x) in added && Row(k, y) in added;
      } else {
        assert Row(k, x) in m && Row(k, y) in m;
      }
    }
  }

  // An append keeps one row per key exactly when its rows do and share no key with the table.
  lemma AppendKeepsOnePerKey(m: multiset<Row>, rows: multiset<Row>)
    requires OnePerKey(m)
    ensures OnePerKey(m + rows) <==> OnePerKey(rows) && forall k :: !(Covers(m, k) && Covers(rows, k))
  {
    forall k | Covers(m, k) && Covers(rows, k)
      ensures !OnePerKey(m + rows)
    {
      SharedKeyBreaks(m, rows, k);
    }
    if OnePerKey(m + rows) {
      forall r
        ensures rows[r] <= 1
      {
        assert (m + rows)[r] <= 1;
      }
      forall k, x, y | Row(k, x) in rows && Row(k, y) in rows
        ensures x == y
      {
        assert Row(k, x) in m + rows && Row(k, y) in m + rows;
      }
    }
    if OnePerKey(rows) && forall k :: !(Covers(m, k) && Covers(rows, k)) {
      forall r
        ensures (m + rows)[r] <= 1
      {
        PresentIsCovered(m, r);
        PresentIsCovered(rows, r);
      }
      forall k, x, y | Row(k, x) in m + rows && Row(k, y) in m + rows
        ensures x == y
      {
        assert Covers(m, k) || Covers(rows, k);
      }
    }
  }

  lemma PresentIsCovered(m: multiset<Row>, r: Row)
    ensures r in m ==> Covers(m, r.key)
  {
    assert r == Row(r.key, r.data);
  }

  lemma SharedKeyBreaks(m: multiset<Row>, rows: multiset<Row>, k: Key)
    requires Covers(m, k) && Covers(rows, k)
    ensures !OnePerKey(m + rows)
  {
    var x :| Row(k, x) in m;
    var y :| Row(k, y) in rows;
    if x == y {
      assert (m + rows)[Row(k, x)] >= 2;
    } else {
      assert Row(k, x) in m + rows && Row(k, y) in m + rows;
    }
  }

  // In every reachable state cold holds at most one row per natural key: across archives,
  // crashes, overlapping runs and re-runs, and backfills into untouched ranges.
  lemma {:induction false} ColdHasOneRowPerKey(src: Source, s: State, log: seq<Step>)
    requires Fresh(s) && BackfillsApart(src, s, log)
    ensures OnePerKey(After(src, s, log).cold)
    ensures forall r :: r in After(src, s, log).cold ==> Touched(src, s, log, r.key.start)
  {
    hide DayRows, IsDayRows, Overwritten, IsOverwritten, OnePerKey, DayOf;
    if log == [] {
      EmptyIsOnePerKey(s.cold);
    } else {
      var front, step := Init(log), Last(log);
      var before, after := After(src, s, front), After(src, s, log);
      ColdHasOneRowPerKey(src, s, front);
      if step.Backfill? {
        UntouchedRangeSharesNoKey(src, s, front, before.cold, step);
        AppendKeepsOnePerKey(before.cold, step.rows);
      } else if step.WriteDay? && CanWrite(before, step.id) {
        JobsAccounted(src, s, front, step.id);
        WriteKeepsOnePerKey(before, step.id, LastFetch(src, s, front, step.id));
        assert forall r :: r in after.cold && r !in before.cold ==> Writes(before, step, DayOf(r.key.start));
      }
    }
  }

  lemma WriteKeepsOnePerKey(s: State, id: nat, read: Option<Hot>)
    requires CanWrite(s, id) && OnePerKey(s.cold)
    requires read.Some? && s.jobs[id].fetched.value == DayRows(read.value, Target(s.jobs[id]))
    ensures var after := Overwritten(s.cold, Target(s.jobs[id]), s.jobs[id].fetched.value);
            && OnePerKey(after)
            && forall r :: r in after && r !in s.cold ==> DayOf(r.key.start) == Target(s.jobs[id])
  {
    hide OnePerKey, DayRows, DayOf;
    var d, rows := Target(s.jobs[id]), s.jobs[id].fetched.value;
    FetchedInDay(s.jobs[id], read, d);
    DayRowsOnePerKey(read.value, d);
    OverwriteKeepsOnePerKey(s.cold, d, rows);
    forall r | r in Overwritten(s.cold, d, rows) && r !in s.cold
      ensures DayOf(r.key.start) == d
    {
      assert r in rows;
      DayWindow(r.key.start, d);
    }
  }

  lemma UntouchedRangeSharesNoKey(src: Source, s: State, log: seq<Step>, cold: multiset<Row>, step: Step)
    requires step.Backfill?
    requires forall r :: r in cold ==> Touched(src, s, log, r.key.start)
    requires forall r :: r in step.rows ==> InWindow(r.key, step.lo, step.hi)
    requires forall t :: step.lo <= t < step.hi ==> !Touched(src, s, log, t)
    ensures forall k :: !(Covers(cold, k) && Covers(step.rows, k))
  {
    hide Touched;
    forall k | Covers(cold, k)
      ensures Touched(src, s, log, k.start)
    {
      var x :| Row(k, x) in cold;
    }
    forall k | Covers(step.rows, k)
      ensures !Touched(src, s, log, k.start)
    {
      var y :| Row(k, y) in step.rows;
      assert InWindow(Row(k, y).key, step.lo, step.hi);
    }
  }

  lemma EmptyIsOnePerKey(m: multiset<Row>)
    requires m == multiset{}
    ensures OnePerKey(m)
  {
  }

  // Backfilling any non-empty chunk a second time leaves each of its rows at least twice.
  lemma RepeatedBackfillDuplicates(src: Source, s: State, lo: int, hi: int, rows: multiset<Row>, r: Row)
    requires r in rows
    ensures var s1 := Next(src, s, Backfill(lo, hi, rows));
            Next(src, s1, Backfill(lo, hi, rows)).cold[r] >= 2 && !OnePerKey(Next(src, s1, Backfill(lo, hi, rows)).cold)
  {
  }
}
