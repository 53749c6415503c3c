// The hot/cold store of one source as a step system: clock, ingests, retention, archive
// runs that may overlap, stall or crash anywhere, and direct backfills. A run is any
// sequence of steps; a step whose guard fails leaves the state as it is.
module TieredStore {
  import opened Prelude
  import opened Rows
  import opened HotStore
  import opened ColdStore

  // add_retention_policy(..., INTERVAL '90 days')
  const RETENTION := 90 * 86400

  // One archive run over this table: `today` is read once, at the start; `back` is the loop
  // variable; `fetched` holds the rows read for the current day until they are written.
  datatype Job = Job(today: int, back: nat, fetched: Option<multiset<Row>>)

  datatype State = State(now: int, hot: Hot, cold: multiset<Row>, jobs: map<nat, Job>)

  datatype Step =
    | Tick(seconds: nat)
    | IngestBatch(batch: seq<Row>)
    | Retain(dropped: set<Key>)
    | Begin(id: nat)
    | FetchDay(id: nat)
    | WriteDay(id: nat)
    | Stop(id: nat)
    | Backfill(lo: int, hi: int, rows: multiset<Row>)

  function Target(j: Job): int {
    j.today - j.back
  }

  predicate Expired(k: Key, now: int) {
    k.start < now - RETENTION
  }

  ghost predicate CanFetch(s: State, id: nat) {
    id in s.jobs && s.jobs[id].back <= ARCHIVE_LOOKBACK_DAYS && s.jobs[id].fetched.None?
  }

  ghost predicate CanWrite(s: State, id: nat) {
    id in s.jobs && s.jobs[id].fetched.Some?
  }

  ghost function Next(src: Source, s: State, step: Step): State {
    match step
    case Tick(seconds) => s.(now := s.now + seconds)
    case IngestBatch(batch) => s.(hot := Ingest(src, s.hot, batch, s.now))
    case Retain(dropped) => s.(hot := s.hot - (set k | k in dropped && Expired(k, s.now)))
    case Begin(id) => if id in s.jobs then s else s.(jobs := s.jobs[id := Job(DayOf(s.now), 1, None)])
    case FetchDay(id) =>
      if !CanFetch(s, id) then s
      else var j := s.jobs[id];
           s.(jobs := s.jobs[id := j.(fetched := Some(DayRows(s.hot, Target(j))))])
    case WriteDay(id) =>
      if !CanWrite(s, id) then s
      else var j := s.jobs[id];
           s.(cold := Overwritten(s.cold, Target(j), j.fetched.value),
              jobs := s.jobs[id := Job(j.today, j.back + 1, None)])
    case Stop(id) => s.(jobs := s.jobs - {id})
    case Backfill(_, _, rows) => s.(cold := s.cold + rows)
  }

  ghost function After(src: Source, s: State, log: seq<Step>): State {
    if log == [] then s else Next(src, After(src, s, Init(log)), Last(log))
  }

  predicate Fresh(s: State) {
    s.hot == map[] && s.cold == multiset{} && s.jobs == map[]
  }

  // ---- Reading a run ----

  ghost predicate Writes(s: State, step: Step, d: int) {
    step.WriteDay? && CanWrite(s, step.id) && Target(s.jobs[step.id]) == d
  }

  ghost predicate Starts(s: State, step: Step, id: nat) {
    step == Begin(id) && id !in s.jobs
  }

  ghost predicate Fetches(s: State, step: Step, id: nat) {
    step == FetchDay(id) && CanFetch(s, id)
  }

  // The UTC day on which run `id` last started.
  ghost function StartDay(src: Source, s: State, log: seq<Step>, id: nat): Option<int> {
    if log == [] then None
    else var before := After(src, s, Init(log));
         if Starts(before, Last(log), id) then Some(DayOf(before.now)) else StartDay(src, s, Init(log), id)
  }

  // The hot table as run `id` last read it.
  ghost function LastFetch(src: Source, s: State, log: seq<Step>, id: nat): Option<Hot> {
    if log == [] then None
    else var before := After(src, s, Init(log));
         if Fetches(before, Last(log), id) then Some(before.hot) else LastFetch(src, s, Init(log), id)
  }

  // The last overwrite of day d: the day its run started, and hot as that run had last read it.
  datatype Overwrite = Overwrite(startDay: Option<int>, read: Option<Hot>)

  ghost function LastOverwrite(src: Source, s: State, log: seq<Step>, d: int): Option<Overwrite> {
    if log == [] then None
    else if Writes(After(src, s, Init(log)), Last(log), d) then
      Some(Overwrite(StartDay(src, s, Init(log), Last(log).id), LastFetch(src, s, Init(log), Last(log).id)))
    else LastOverwrite(src, s, Init(log), d)
  }

  ghost predicate NoBackfillInto(log: seq<Step>, d: int) {
    forall i, r :: 0 <= i < |log| && log[i].Backfill? && r in log[i].rows ==> !InDay(r.key, d)
  }

  // ---- What hot holds ----

  // The rows logged for k: those of the accepted batches since retention last dropped k, which it may
  // once k is 90 days old.
  ghost function LoggedSince(src: Source, s: State, log: seq<Step>, k: Key): (rows: seq<Row>)
    ensures AllAdmissible(src, rows)
  {
    if log == [] then []
    else
      var before := LoggedSince(src, s, Init(log), k);
      match Last(log)
      case IngestBatch(batch) => if AllAdmissible(src, batch) then before + batch else before
      case Retain(dropped) => if k in dropped && k.start < After(src, s, Init(log)).now - 90 * 86400 then [] else before
      case _ => before
  }

  // How much time a run has let pass.
  function Elapsed(log: seq<Step>): nat {
    if log == [] then 0 else Elapsed(Init(log)) + if Last(log).Tick? then Last(log).seconds else 0
  }

  // At every point of every run hot holds at k the last row logged since retention last dropped k,
  // with the last non-null `actual` logged since, and nothing if nothing was logged since.
  lemma {:induction false} HotReflectsRun(src: Source, s: State, log: seq<Step>, k: Key)
    requires Fresh(s)
    ensures Lookup(After(src, s, log).hot, k) == Expected(LoggedSince(src, s, log, k), k)
    ensures After(src, s, log).now == s.now + Elapsed(log)
  {
    hide Expected, UpsertAll, Next;
    if log == [] {
      NothingLogged(k);
    } else {
      HotReflectsRun(src, s, Init(log), k);
      HotAfterStep(src, After(src, s, Init(log)), Last(log), k);
      NothingLogged(k);
      var before := After(src, s, Init(log));
      if Last(log).IngestBatch? && AllAdmissible(src, Last(log).batch) {
        UpsertAllReflects(src, before.hot, LoggedSince(src, s, Init(log), k), Last(log).batch, before.now, k);
      }
    }
  }

  lemma HotAfterStep(src: Source, s: State, step: Step, k: Key)
    ensures var after := Next(src, s, step);
            && after.now == s.now + (if step.Tick? then step.seconds else 0)
            && match step
               case IngestBatch(batch) => after.hot == if AllAdmissible(src, batch) then UpsertAll(s.hot, batch, s.now) else s.hot
               case Retain(dropped) =>
                 Lookup(after.hot, k) == if k in dropped && k.start < s.now - 90 * 86400 then None else Lookup(s.hot, k)
               case _ => after.hot == s.hot
  {
    hide UpsertAll;
  }

  lemma NothingLogged(k: Key)
    ensures Expected([], k) == None
  {
  }

  // ---- Where the contents of a cold day come from ----

  // A run in flight started when its `today` says, and what it holds is what hot held at
  // its last fetch.
  ghost predicate Accounted(j: Job, now: int, startDay: Option<int>, read: Option<Hot>) {
    && 1 <= j.back <= ARCHIVE_LOOKBACK_DAYS + 1
    && startDay == Some(j.today)
    && j.today <= DayOf(now)
    && (j.fetched.Some? ==>
          j.back <= ARCHIVE_LOOKBACK_DAYS && read.Some? && j.fetched.value == DayRows(read.value, Target(j)))
  }

  lemma StepKeepsAccounts(src: Source, s: State, step: Step, id: nat, startDay: Option<int>, read: Option<Hot>)
    requires id in s.jobs ==> Accounted(s.jobs[id], s.now, startDay, read)
    requires id in Next(src, s, step).jobs
    ensures Accounted(Next(src, s, step).jobs[id], Next(src, s, step).now,
                      if Starts(s, step, id) then Some(DayOf(s.now)) else startDay,
                      if Fetches(s, step, id) then Some(s.hot) else read)
  {
    if step.Tick? {
      assert DayOf(s.now) <= DayOf(s.now + step.seconds);
    }
  }

  lemma {:induction false} JobsAccounted(src: Source, s: State, log: seq<Step>, id: nat)
    requires Fresh(s)
    requires id in After(src, s, log).jobs
    ensures Accounted(After(src, s, log).jobs[id], After(src, s, log).now,
                      StartDay(src, s, log, id), LastFetch(src, s, log, id))
  {
    if log != [] {
      var front := Init(log);
      if id in After(src, s, front).jobs {
        JobsAccounted(src, s, front, id);
      }
      StepKeepsAccounts(src, After(src, s, front), Last(log), id, StartDay(src, s, front, id), LastFetch(src, s, front, id));
    }
  }

  datatype Action = Fetched(day: int) | Wrote(day: int)

  // What the next step adds to what run `id` has done since it last started.
  ghost function Acted(s: State, step: Step, id: nat, done: seq<Action>): seq<Action> {
    if Starts(s, step, id) then []
    else if Fetches(s, step, id) then done + [Fetched(Target(s.jobs[id]))]
    else if step == WriteDay(id) && CanWrite(s, id) then done + [Wrote(Target(s.jobs[id]))]
    else done
  }

  // What run `id` has done since it last started, in order.
  ghost function Actions(src: Source, s: State, log: seq<Step>, id: nat): seq<Action> {
    if log == [] then [] else Acted(After(src, s, Init(log)), Last(log), id, Actions(src, s, Init(log), id))
  }

  // Fetch and write the day before t, then the day before that.
  function Loop(t: int): seq<Action> {
    [Fetched(t - 1), Wrote(t - 1), Fetched(t - 2), Wrote(t - 2)]
  }

  // The run's own variables tell how far it has come.
  ghost predicate Come(j: Job, done: seq<Action>) {
    && 1 <= j.back <= 3 && (j.fetched.Some? ==> j.back <= 2)
    && done == Loop(j.today)[..2 * (j.back - 1) + if j.fetched.Some? then 1 else 0]
  }

  lemma StepKeepsCome(src: Source, s: State, step: Step, id: nat, done: seq<Action>)
    requires id in s.jobs ==> Come(s.jobs[id], done)
    requires id in Next(src, s, step).jobs
    ensures Come(Next(src, s, step).jobs[id], Acted(s, step, id, done))
  {
    hide DayRows, IsDayRows, Overwritten, IsOverwritten, DayOf, Ingest;
  }

  lemma {:induction false} RunsCome(src: Source, s: State, log: seq<Step>, id: nat)
    requires Fresh(s)
    requires id in After(src, s, log).jobs
    ensures Come(After(src, s, log).jobs[id], Actions(src, s, log, id))
  {
    hide Come, Acted, Next;
    if log != [] {
      if id in After(src, s, Init(log)).jobs {
        RunsCome(src, s, Init(log), id);
      }
      StepKeepsCome(src, After(src, s, Init(log)), Last(log), id, Actions(src, s, Init(log), id));
    }
  }

  // Whatever the others do, what a run in flight has done is the beginning of: fetch the day before
  // it started, write it, fetch the day before that, write it; and it can always do the next of these.
  lemma RunFollowsItsLoop(src: Source, s: State, log: seq<Step>, id: nat)
    requires Fresh(s)
    requires id in After(src, s, log).jobs
    ensures StartDay(src, s, log, id).Some?
    ensures var t, done := StartDay(src, s, log, id).value, Actions(src, s, log, id);
            && done <= [Fetched(t - 1), Wrote(t - 1), Fetched(t - 2), Wrote(t - 2)]
            && (CanFetch(After(src, s, log), id) <==> |done| in {0, 2})
            && (CanWrite(After(src, s, log), id) <==> |done| in {1, 3})
  {
    hide After, StartDay, LastFetch, Actions, DayOf, DayRows;
    JobsAccounted(src, s, log, id);
    RunsCome(src, s, log, id);
  }

  lemma OfDayAfterOverwrite(m: multiset<Row>, e: int, added: multiset<Row>, d: int)
    requires forall r :: r in added ==> InDay(r.key, e)
    ensures OfDay(Overwritten(m, e, added), d) == if d == e then added else OfDay(m, d)
  {
    forall r: Row
      ensures OfDay(Overwritten(m, e, added), d)[r] == (if d == e then added else OfDay(m, d))[r]
    {
      if InDay(r.key, d) {
        SameDay(r.key, d, e);
      } else {
        assert d == e ==> r !in added;
      }
    }
  }

  lemma OfDayAfterAppend(m: multiset<Row>, added: multiset<Row>, d: int)
    requires forall r :: r in added ==> !InDay(r.key, d)
    ensures OfDay(m + added, d) == OfDay(m, d)
  {
    forall r: Row
      ensures OfDay(m + added, d)[r] == OfDay(m, d)[r]
    {
      assert InDay(r.key, d) ==> r !in added;
    }
  }

  // No step but an overwrite of d, or a backfill into it, touches the cold rows of d.
  lemma StepLeavesDay(src: Source, s: State, log: seq<Step>, d: int)
    requires Fresh(s) && log != []
    requires !Writes(After(src, s, Init(log)), Last(log), d)
    requires NoBackfillInto(log, d)
    ensures OfDay(After(src, s, log).cold, d) == OfDay(After(src, s, Init(log)).cold, d)
  {
    hide DayRows, Overwritten, OfDay;
    var before, step := After(src, s, Init(log)), Last(log);
    if step.WriteDay? && CanWrite(before, step.id) {
      JobsAccounted(src, s, Init(log), step.id);
      OfDayAfterOverwrite(before.cold, Target(before.jobs[step.id]), before.jobs[step.id].fetched.value, d);
    } else if step.Backfill? {
      assert log[|log| - 1] == step;
      OfDayAfterAppend(before.cold, step.rows, d);
    }
  }

  // At every point of every run, the cold rows of day d are hot's rows of d as they stood at
  // the fetch of the last overwrite of d, by an archive run that started on UTC day d+1 or d+2;
  // with no overwrite so far there are none.
  lemma {:induction false} ColdDayProvenance(src: Source, s: State, log: seq<Step>, d: int)
    requires Fresh(s)
    requires NoBackfillInto(log, d)
    ensures match LastOverwrite(src, s, log, d)
            case None => OfDay(After(src, s, log).cold, d) == multiset{}
            case Some(w) =>
              && w.read.Some?
              && OfDay(After(src, s, log).cold, d) == DayRows(w.read.value, d)
              && (w.startDay == Some(d + 1) || w.startDay == Some(d + 2))
  {
    if log != [] {
      var before, step := After(src, s, Init(log)), Last(log);
      if Writes(before, step, d) {
        JobsAccounted(src, s, Init(log), step.id);
        OfDayAfterOverwrite(before.cold, d, before.jobs[step.id].fetched.value, d);
      } else {
        ColdDayProvenance(src, s, Init(log), d);
        StepLeavesDay(src, s, log, d);
      }
    }
  }

  // ---- Frozen days ----

  // The run still has day d ahead of it.
  ghost predicate StillAhead(j: Job, d: int) {
    j.today - ARCHIVE_LOOKBACK_DAYS <= d <= Target(j)
  }

  // Day d+2 is over and no archive run still has d ahead of it.
  ghost predicate Closed(s: State, d: int) {
    DayOf(s.now) > d + ARCHIVE_LOOKBACK_DAYS && forall id :: id in s.jobs ==> !StillAhead(s.jobs[id], d)
  }

  lemma {:induction false} AfterConcat(src: Source, s: State, log: seq<Step>, more: seq<Step>)
    ensures After(src, s, log + more) == After(src, After(src, s, log), more)
  {
    if more == [] {
      assert log + more == log;
    } else {
      assert Init(log + more) == log + Init(more);
      AfterConcat(src, s, log, Init(more));
    }
  }

  lemma ClosedStays(src: Source, s: State, step: Step, d: int)
    requires Closed(s, d)
    ensures Closed(Next(src, s, step), d)
  {
    var after := Next(src, s, step);
    assert after.now >= s.now;
    forall id | id in after.jobs
      ensures !StillAhead(after.jobs[id], d)
    {
      if id in s.jobs {
        assert !StillAhead(s.jobs[id], d);
      }
    }
  }

  lemma {:induction false} ClosedDayIsFrozen(src: Source, s: State, log: seq<Step>, more: seq<Step>, d: int)
    requires Fresh(s)
    requires Closed(After(src, s, log), d)
    requires NoBackfillInto(log + more, d)
    ensures Closed(After(src, s, log + more), d)
    ensures OfDay(After(src, s, log + more).cold, d) == OfDay(After(src, s, log).cold, d)
  {
    if more == [] {
      assert log + more == log;
    } else {
      var front := log + Init(more);
      assert Init(log + more) == front && Last(log + more) == Last(more);
      ClosedDayIsFrozen(src, s, log, Init(more), d);
      var before := After(src, s, front);
      ClosedStays(src, before, Last(more), d);
      assert !Writes(before, Last(more), d) by {
        if Last(more).WriteDay? && CanWrite(before, Last(more).id) {
          JobsAccounted(src, s, front, Last(more).id);
        }
      }
      StepLeavesDay(src, s, log + more, d);
    }
  }

  // What becomes of a row of day d: once day d+2 is over and no run has d ahead of it, the row is in
  // cold, now and after any continuation, exactly when some run overwrote d and hot held this very row at the fetch
  // of the last such overwrite. With no overwrite on either day, the whole day is lost.
  lemma FinalFate(src: Source, s: State, log: seq<Step>, more: seq<Step>, d: int, r: Row)
    requires Fresh(s) && 86400 * d <= r.key.start < 86400 * (d + 1)
    requires 86400 * (d + 3) <= After(src, s, log).now
    requires forall j :: j in After(src, s, log).jobs.Values ==> !(j.today - 2 <= d <= j.today - j.back)
    requires NoBackfillInto(log + more, d)
    ensures r in After(src, s, log + more).cold <==>
            && LastOverwrite(src, s, log, d).Some?
            && LastOverwrite(src, s, log, d).value.read.Some?
            && var hot := LastOverwrite(src, s, log, d).value.read.value;
            && r.key in hot && hot[r.key].data == r.data
  {
    assert Closed(After(src, s, log), d) by {
      forall id | id in After(src, s, log).jobs
        ensures !StillAhead(After(src, s, log).jobs[id], d)
      {
        assert After(src, s, log).jobs[id] in After(src, s, log).jobs.Values;
      }
    }
    ClosedDayIsFrozen(src, s, log, more, d);
    assert NoBackfillInto(log, d) by {
      forall i, x | 0 <= i < |log| && log[i].Backfill? && x in log[i].rows
        ensures !InDay(x.key, d)
      {
        assert (log + more)[i] == log[i];
      }
    }
    ColdDayProvenance(src, s, log, d);
    var cold := After(src, s, log + more).cold;
    assert r in cold <==> r in OfDay(cold, d);
  }

  // ---- From the log to cold ----

  // When run `id` last fetched, as a position in the log.
  ghost function FetchedAt(src: Source, s: State, log: seq<Step>, id: nat): Option<nat> {
    if log == [] then None
    else if Fetches(After(src, s, Init(log)), Last(log), id) then Some(|log| - 1)
    else FetchedAt(src, s, Init(log), id)
  }

  // When the rows of the last overwrite of day d were fetched.
  ghost function ReadAt(src: Source, s: State, log: seq<Step>, d: int): Option<nat> {
    if log == [] then None
    else if Writes(After(src, s, Init(log)), Last(log), d) then FetchedAt(src, s, Init(log), Last(log).id)
    else ReadAt(src, s, Init(log), d)
  }

  lemma {:induction false} FetchPoint(src: Source, s: State, log: seq<Step>, id: nat)
    ensures match FetchedAt(src, s, log, id)
            case None => LastFetch(src, s, log, id).None?
            case Some(n) => n < |log| && LastFetch(src, s, log, id) == Some(After(src, s, log[..n]).hot)
  {
    if log != [] {
      FetchPoint(src, s, Init(log), id);
      var at := FetchedAt(src, s, Init(log), id);
      assert log[..|log| - 1] == Init(log);
      assert at.Some? ==> Init(log)[..at.value] == log[..at.value];
    }
  }

  lemma {:induction false} ReadPoint(src: Source, s: State, log: seq<Step>, d: int)
    ensures match ReadAt(src, s, log, d)
            case None => LastOverwrite(src, s, log, d).Some? ==> LastOverwrite(src, s, log, d).value.read.None?
            case Some(n) =>
              && n < |log|
              && LastOverwrite(src, s, log, d).Some?
              && LastOverwrite(src, s, log, d).value.read == Some(After(src, s, log[..n]).hot)
  {
    hide After;
    if log != [] {
      ReadPoint(src, s, Init(log), d);
      var at := ReadAt(src, s, Init(log), d);
      assert at.Some? ==> Init(log)[..at.value] == log[..at.value];
      if Writes(After(src, s, Init(log)), Last(log), d) {
        FetchPoint(src, s, Init(log), Last(log).id);
        var fetched := FetchedAt(src, s, Init(log), Last(log).id);
        assert fetched.Some? ==> Init(log)[..fetched.value] == log[..fetched.value];
      }
    }
  }

  // From ingest to archive: at every point of every run, cold holds a row of day d, once, exactly
  // when day d has been overwritten and, when the rows of its last overwrite were fetched, this was
  // the last row logged for its key since retention last dropped it, with the last non-null `actual`.
  lemma ColdHoldsWhatWasLogged(src: Source, s: State, log: seq<Step>, d: int, r: Row)
    requires Fresh(s) && 86400 * d <= r.key.start < 86400 * (d + 1)
    requires NoBackfillInto(log, d)
    ensures var at := ReadAt(src, s, log, d);
            After(src, s, log).cold[r] ==
            if at.Some? && at.value <= |log| && Expected(LoggedSince(src, s, log[..at.value], r.key), r.key) == Some(r.data)
            then 1 else 0
  {
    hide After, LastOverwrite, ReadAt, Expected;
    var cold, at := After(src, s, log).cold, ReadAt(src, s, log, d);
    ColdDayProvenance(src, s, log, d);
    ReadPoint(src, s, log, d);
    assert cold[r] == OfDay(cold, d)[r];
    if at.Some? {
      HotReflectsRun(src, s, log[..at.value], r.key);
    }
  }

  // The step system and the archive method agree: a run with nothing in between is ArchiveDays.
  lemma UndisturbedRun(src: Source, s: State, id: nat)
    requires id !in s.jobs
    ensures After(src, s, [Begin(id)] + [FetchDay(id)] + [WriteDay(id)] + [FetchDay(id)] + [WriteDay(id)] + [Stop(id)]) ==
            s.(cold := ArchiveDays(s.cold, s.hot, DayOf(s.now), ARCHIVE_LOOKBACK_DAYS))
  {
    hide After, ArchiveDays, DayOf, Next;
    SixSteps(src, s, Begin(id), FetchDay(id), WriteDay(id), FetchDay(id), WriteDay(id), Stop(id));
    var s1 := Started(src, s, id);
    NoDays(s.cold, s.hot, DayOf(s.now));
    var s3 := LoopTurn(src, s1, id, s.cold, DayOf(s.now), 0);
    var s5 := LoopTurn(src, s3, id, s.cold, DayOf(s.now), 1);
    Stopped(src, s5, id);
    assert s5.jobs - {id} == s.jobs;
  }

  lemma Started(src: Source, s: State, id: nat) returns (after: State)
    requires id !in s.jobs
    ensures after == Next(src, s, Begin(id)) == s.(jobs := s.jobs[id := Job(DayOf(s.now), 1, None)])
  {
    after := Next(src, s, Begin(id));
  }

  lemma Stopped(src: Source, s: State, id: nat)
    ensures Next(src, s, Stop(id)) == s.(jobs := s.jobs - {id})
  {
  }

  lemma SixSteps(src: Source, s: State, a: Step, b: Step, c: Step, d: Step, e: Step, f: Step)
    ensures After(src, s, [a] + [b] + [c] + [d] + [e] + [f]) ==
            Next(src, Next(src, Next(src, Next(src, Next(src, Next(src, s, a), b), c), d), e), f)
  {
    AfterOne(src, s, [], a);
    AfterOne(src, s, [a], b);
    AfterOne(src, s, [a] + [b], c);
    AfterOne(src, s, [a] + [b] + [c], d);
    AfterOne(src, s, [a] + [b] + [c] + [d], e);
    AfterOne(src, s, [a] + [b] + [c] + [d] + [e], f);
    assert [] + [a] == [a];
  }

  lemma AfterOne(src: Source, s: State, log: seq<Step>, step: Step)
    ensures After(src, s, log + [step]) == Next(src, After(src, s, log), step)
  {
    assert Init(log + [step]) == log;
  }

  // One turn of the archive loop, the n days before it already done.
  lemma LoopTurn(src: Source, s: State, id: nat, cold: multiset<Row>, today: int, n: nat) returns (after: State)
    requires n < ARCHIVE_LOOKBACK_DAYS
    requires id in s.jobs && s.jobs[id] == Job(today, n + 1, None)
    requires s.cold == ArchiveDays(cold, s.hot, today, n)
    ensures after == Next(src, Next(src, s, FetchDay(id)), WriteDay(id))
    ensures after == s.(cold := ArchiveDays(cold, s.hot, today, n + 1), jobs := s.jobs[id := Job(today, n + 2, None)])
  {
    hide Overwritten, DayRows, IsOverwritten, IsDayRows;
    after := Next(src, Next(src, s, FetchDay(id)), WriteDay(id));
    assert after.jobs == s.jobs[id := Job(today, n + 2, None)];
  }
}
