// gridpulse/api/cache.py under concurrency: threads check, read, compute and store over one
// shared cache in front of a database that changes, with the clock moving between any two steps.
module CacheThreads {
  import opened Prelude
  import opened TtlCache

  datatype Phase<V> = Idle | Hit(call: Call) | Miss(call: Call) | Computed(call: Call, value: V)

  datatype State<Db, V> = State(now: int, db: Db, entries: Entries<V>, threads: map<nat, Phase<V>>)

  datatype Step<Db> =
    | Tick(seconds: nat)
    | Change(db: Db)
    | Check(tid: nat, call: Call)
    | Read(tid: nat)
    | Compute(tid: nat)
    | Fail(tid: nat)
    | Store(tid: nat, victim: CacheKey)
    | Clear

  // A cached function: what it returns for a call, on a database, at an instant.
  type Query<!Db, !V> = (Call, Db, int) -> V

  function PhaseOf<Db, V>(s: State<Db, V>, tid: nat): Phase<V> {
    if tid in s.threads then s.threads[tid] else Idle
  }

  function Goes<Db, V>(s: State<Db, V>, tid: nat, p: Phase<V>): State<Db, V> {
    s.(threads := s.threads[tid := p])
  }

  predicate CanStore<Db, V>(cfg: Config, s: State<Db, V>, step: Step<Db>) {
    step.Store? && PhaseOf(s, step.tid).Computed? &&
    MayEvict(cfg, s.entries, KeyOf(PhaseOf(s, step.tid).call), s.now, step.victim)
  }

  predicate CanCompute<Db, V>(s: State<Db, V>, step: Step<Db>) {
    step.Compute? && PhaseOf(s, step.tid).Miss?
  }

  // A step whose guard fails changes nothing.
  function Next<Db, V>(cfg: Config, query: Query<Db, V>, s: State<Db, V>, step: Step<Db>): State<Db, V> {
    match step
    case Tick(seconds) => s.(now := s.now + seconds)
    case Change(db) => s.(db := db)
    case Check(tid, call) =>
      if !PhaseOf(s, tid).Idle? then s
      else Goes(s, tid, if Live(s.entries, KeyOf(call), s.now) then Hit(call) else Miss(call))
    case Read(tid) => if PhaseOf(s, tid).Hit? then Goes(s, tid, Idle) else s
    case Compute(tid) =>
      if CanCompute(s, step) then Goes(s, tid, Computed(PhaseOf(s, tid).call, query(PhaseOf(s, tid).call, s.db, s.now))) else s
    case Fail(tid) => if PhaseOf(s, tid).Miss? then Goes(s, tid, Idle) else s
    case Store(tid, victim) =>
      if !CanStore(cfg, s, step) then s
      else var p := PhaseOf(s, tid);
           Goes(s.(entries := Stored(cfg, s.entries, KeyOf(p.call), p.value, s.now, victim)), tid, Idle)
    case Clear => s.(entries := map[])
  }

  function After<Db, V>(cfg: Config, query: Query<Db, V>, s: State<Db, V>, log: seq<Step<Db>>): State<Db, V> {
    if log == [] then s else Next(cfg, query, After(cfg, query, s, Init(log)), Last(log))
  }

  predicate Fresh<Db, V>(s: State<Db, V>) {
    s.entries == map[] && s.threads == map[]
  }

  // What the caller whose wrapper takes this step gets, if the step ends its call.
  datatype Reply<V> = Reply(call: Call, answer: Answer<V>)

  function ReplyTo<Db, V>(cfg: Config, s: State<Db, V>, step: Step<Db>): Option<Reply<V>> {
    match step
    case Read(tid) =>
      if !PhaseOf(s, tid).Hit? then None
      else var call := PhaseOf(s, tid).call;
           Some(Reply(call, if Live(s.entries, KeyOf(call), s.now) then Returned(s.entries[KeyOf(call)].value) else KeyError))
    case Fail(tid) => if PhaseOf(s, tid).Miss? then Some(Reply(PhaseOf(s, tid).call, QueryFailed)) else None
    case Store(tid, _) =>
      if CanStore(cfg, s, step) then Some(Reply(PhaseOf(s, tid).call, Returned(PhaseOf(s, tid).value))) else None
    case _ => None
  }

  // ---- Reading a run ----

  // A query that ran: for which call, on which database, when.
  datatype Reading<Db> = Reading(call: Call, db: Db, at: int)

  ghost function LastCompute<Db, V>(cfg: Config, query: Query<Db, V>, s: State<Db, V>, log: seq<Step<Db>>,
                                    tid: nat): Option<Reading<Db>> {
    if log == [] then None
    else
      var before := After(cfg, query, s, Init(log));
      if CanCompute(before, Last(log)) && Last(log).tid == tid then Some(Reading(PhaseOf(before, tid).call, before.db, before.now))
      else LastCompute(cfg, query, s, Init(log), tid)
  }

  // A stored result: the query behind it, and when it was stored.
  datatype Origin<Db> = Origin(reading: Option<Reading<Db>>, storedAt: int)

  ghost function LastStore<Db, V>(cfg: Config, query: Query<Db, V>, s: State<Db, V>, log: seq<Step<Db>>,
                                  k: CacheKey): Option<Origin<Db>> {
    if log == [] then None
    else
      var before := After(cfg, query, s, Init(log));
      if CanStore(cfg, before, Last(log)) && KeyOf(PhaseOf(before, Last(log).tid).call) == k then
        Some(Origin(LastCompute(cfg, query, s, Init(log), Last(log).tid), before.now))
      else LastStore(cfg, query, s, Init(log), k)
  }

  // ---- Every value has a recent origin ----

  // value is what the query gave for `call` on the database of the reading, no later than now.
  ghost predicate ComputedFrom<Db, V>(query: Query<Db, V>, call: Call, value: V, reading: Option<Reading<Db>>,
                                      now: int) {
    reading.Some? && reading.value.call == call && value == query(call, reading.value.db, reading.value.at) && reading.value.at <= now
  }

  ghost predicate StoredFrom<Db, V>(cfg: Config, query: Query<Db, V>, k: CacheKey, e: Entry<V>,
                                    origin: Option<Origin<Db>>, now: int) {
    && origin.Some?
    && var o := origin.value;
    && o.reading.Some?
    && var r := o.reading.value;
    && KeyOf(r.call) == k && e.value == query(r.call, r.db, r.at) && e.expires == o.storedAt + cfg.ttl
    && r.at <= o.storedAt <= now
  }

  lemma {:induction false} ThreadsAccounted<Db, V>(cfg: Config, query: Query<Db, V>, s: State<Db, V>,
                                                   log: seq<Step<Db>>, tid: nat)
    requires Fresh(s)
    requires PhaseOf(After(cfg, query, s, log), tid).Computed?
    ensures var p := PhaseOf(After(cfg, query, s, log), tid);
            ComputedFrom(query, p.call, p.value, LastCompute(cfg, query, s, log, tid), After(cfg, query, s, log).now)
  {
    hide KeyOf, Stored, MayEvict, Live;
    var before := After(cfg, query, s, Init(log));
    if PhaseOf(before, tid).Computed? {
      ThreadsAccounted(cfg, query, s, Init(log), tid);
    }
  }

  lemma {:induction false} EntriesAccounted<Db, V>(cfg: Config, query: Query<Db, V>, s: State<Db, V>,
                                                   log: seq<Step<Db>>, k: CacheKey)
    requires Fresh(s)
    requires k in After(cfg, query, s, log).entries
    ensures StoredFrom(cfg, query, k, After(cfg, query, s, log).entries[k], LastStore(cfg, query, s, log, k), After(cfg, query, s, log).now)
  {
    hide KeyOf, MayEvict, Live;
    var before, step := After(cfg, query, s, Init(log)), Last(log);
    if k in before.entries {
      EntriesAccounted(cfg, query, s, Init(log), k);
    }
    if CanStore(cfg, before, step) {
      ThreadsAccounted(cfg, query, s, Init(log), step.tid);
    }
  }

  // value is what the query gave for a call with the key of `call`, for `call` itself if that is
  // positional, on a database read less than TTL plus that computation's duration before now.
  ghost predicate Recent<Db, V>(cfg: Config, query: Query<Db, V>, call: Call, value: V,
                                origin: Option<Origin<Db>>, now: int) {
    && origin.Some? && origin.value.reading.Some?
    && var r, storedAt := origin.value.reading.value, origin.value.storedAt;
    && value == query(r.call, r.db, r.at)
    && KeyOf(r.call) == KeyOf(call)
    && (Positional(call) ==> r.call == call)
    && r.at <= storedAt <= now && now - r.at < cfg.ttl + (storedAt - r.at)
  }

  // Under every interleaving, every value served from the cache is recent.
  lemma ServedValuesAreRecent<Db, V>(cfg: Config, query: Query<Db, V>, s: State<Db, V>, log: seq<Step<Db>>, tid: nat)
    requires Fresh(s)
    ensures var st := After(cfg, query, s, log);
            var reply := ReplyTo(cfg, st, Read(tid));
            reply.Some? && reply.value.answer.Returned? ==>
              Recent(cfg, query, reply.value.call, reply.value.answer.value,
                     LastStore(cfg, query, s, log, KeyOf(reply.value.call)), st.now)
  {
    var st := After(cfg, query, s, log);
    if PhaseOf(st, tid).Hit? && Live(st.entries, KeyOf(PhaseOf(st, tid).call), st.now) {
      var call := PhaseOf(st, tid).call;
      EntriesAccounted(cfg, query, s, log, KeyOf(call));
      if Positional(call) {
        PositionalKeysNeverCollide(call, LastStore(cfg, query, s, log, KeyOf(call)).value.reading.value.call);
      }
    }
  }

  // A value returned on a miss is the caller's own query, on a database it read itself.
  lemma ComputedValuesAreOwn<Db, V>(cfg: Config, query: Query<Db, V>, s: State<Db, V>, log: seq<Step<Db>>,
                                    tid: nat, victim: CacheKey)
    requires Fresh(s)
    ensures var st := After(cfg, query, s, log);
            var reply := ReplyTo(cfg, st, Store(tid, victim));
            reply.Some? ==>
              && reply.value.answer.Returned?
              && ComputedFrom(query, reply.value.call, reply.value.answer.value, LastCompute(cfg, query, s, log, tid), st.now)
  {
    if PhaseOf(After(cfg, query, s, log), tid).Computed? {
      ThreadsAccounted(cfg, query, s, log, tid);
    }
  }

  // After any run, a computed result does get stored: with some victim, and with every one the cache
  // may pick. It then lives for ttl seconds, expired entries are gone, and of the others at most the
  // victim is.
  lemma ComputedIsStored<Db, V>(cfg: Config, query: Query<Db, V>, s: State<Db, V>, log: seq<Step<Db>>, tid: nat)
    requires cfg.maxsize >= 1 && PhaseOf(After(cfg, query, s, log), tid).Computed?
    ensures var st := After(cfg, query, s, log);
            var k, value := KeyOf(PhaseOf(st, tid).call), PhaseOf(st, tid).value;
            var live := set i | i in st.entries && st.now < st.entries[i].expires;
            var room := k in live || |live| < cfg.maxsize;
            && (room || live != {})
            && forall victim :: room || victim in live ==>
                 var after := After(cfg, query, s, log + [Store(tid, victim)]);
                 && PhaseOf(after, tid).Idle? && after.now == st.now
                 && k in after.entries && after.entries[k] == Entry(value, st.now + cfg.ttl)
                 && (forall j :: j != k ==> (j in after.entries <==> j in live && (room || j != victim)))
                 && (forall j :: j != k && j in after.entries ==> after.entries[j] == st.entries[j])
  {
    hide KeyOf, After;
    var st := After(cfg, query, s, log);
    var live := set i | i in st.entries && st.now < st.entries[i].expires;
    assert Unexpired(st.entries, st.now).Keys == live;
    KeyCount(Unexpired(st.entries, st.now));
    forall victim
      ensures After(cfg, query, s, log + [Store(tid, victim)]) == Next(cfg, query, st, Store(tid, victim))
    {
      AfterOne(cfg, query, s, log, Store(tid, victim));
    }
  }

  // After any run, a call that missed can be answered, with its own query's result on the database as
  // it is: compute, then store with a victim the cache may pick.
  lemma MissIsServed<Db, V>(cfg: Config, query: Query<Db, V>, s: State<Db, V>, log: seq<Step<Db>>, tid: nat)
    requires cfg.maxsize >= 1 && PhaseOf(After(cfg, query, s, log), tid).Miss?
    ensures var st := After(cfg, query, s, log);
            var call := PhaseOf(st, tid).call;
            exists victim ::
              ReplyTo(cfg, After(cfg, query, s, log + [Compute(tid)]), Store(tid, victim)) ==
              Some(Reply(call, Returned(query(call, st.db, st.now))))
  {
    hide KeyOf, After, MayEvict;
    var st := After(cfg, query, s, log);
    AfterOne(cfg, query, s, log, Compute(tid));
    var victim := SomeVictim(cfg, st.entries, KeyOf(PhaseOf(st, tid).call), st.now);
    assert CanStore(cfg, After(cfg, query, s, log + [Compute(tid)]), Store(tid, victim));
  }

  lemma SomeVictim<V>(cfg: Config, es: Entries<V>, k: CacheKey, now: int) returns (victim: CacheKey)
    requires cfg.maxsize >= 1
    ensures MayEvict(cfg, es, k, now, victim)
  {
    victim := k;
    if Full(cfg, es, k, now) {
      KeyCount(Unexpired(es, now));
      victim :| victim in Unexpired(es, now).Keys;
    }
  }

  // The cache never outgrows maxsize.
  lemma {:induction false} CacheStaysBounded<Db, V>(cfg: Config, query: Query<Db, V>, s: State<Db, V>,
                                                    log: seq<Step<Db>>)
    requires Fresh(s) && cfg.maxsize >= 1
    ensures |After(cfg, query, s, log).entries| <= cfg.maxsize
  {
    hide Stored, KeyOf;
    if log != [] {
      var before, step := After(cfg, query, s, Init(log)), Last(log);
      CacheStaysBounded(cfg, query, s, Init(log));
      if CanStore(cfg, before, step) {
        var p := PhaseOf(before, step.tid);
        StoredFits(cfg, before.entries, KeyOf(p.call), p.value, before.now, step.victim);
      }
    }
  }

  // ---- What the log says is in the cache ----

  // When the entry under k runs out, as the log tells it: ttl after the last store to k; None with no
  // such store, or once k was evicted or the cache cleared since.
  ghost function Expiry<Db, V>(cfg: Config, query: Query<Db, V>, s: State<Db, V>, log: seq<Step<Db>>,
                               k: CacheKey): Option<int> {
    if log == [] then None
    else
      var before, step := After(cfg, query, s, Init(log)), Last(log);
      if step.Clear? then None
      else if CanStore(cfg, before, step) then
        var stored := KeyOf(PhaseOf(before, step.tid).call);
        if stored == k then Some(before.now + cfg.ttl)
        else if Full(cfg, before.entries, stored, before.now) && step.victim == k then None
        else Expiry(cfg, query, s, Init(log), k)
      else Expiry(cfg, query, s, Init(log), k)
  }

  // The log and the cache agree on the entry, except that an expired one may have been dropped.
  ghost predicate Agrees<V>(entries: Entries<V>, k: CacheKey, expiry: Option<int>, now: int) {
    if k in entries then expiry == Some(entries[k].expires) else expiry.Some? ==> expiry.value <= now
  }

  lemma StoreKeepsAgreement<V>(cfg: Config, es: Entries<V>, stored: CacheKey, v: V, now: int, victim: CacheKey,
                               k: CacheKey, expiry: Option<int>)
    requires Agrees(es, k, expiry, now)
    ensures Agrees(Stored(cfg, es, stored, v, now, victim), k,
                   if stored == k then Some(now + cfg.ttl) else if Full(cfg, es, stored, now) && victim == k then None else expiry, now)
  {
    hide Full;
  }

  lemma {:induction false} ExpiryAgrees<Db, V>(cfg: Config, query: Query<Db, V>, s: State<Db, V>,
                                               log: seq<Step<Db>>, k: CacheKey)
    requires Fresh(s)
    ensures Agrees(After(cfg, query, s, log).entries, k, Expiry(cfg, query, s, log, k), After(cfg, query, s, log).now)
  {
    hide KeyOf, Stored, MayEvict, Full;
    if log != [] {
      var before, step := After(cfg, query, s, Init(log)), Last(log);
      ExpiryAgrees(cfg, query, s, Init(log), k);
      if CanStore(cfg, before, step) {
        var p := PhaseOf(before, step.tid);
        StoreKeepsAgreement(cfg, before.entries, KeyOf(p.call), p.value, before.now, step.victim, k,
                            Expiry(cfg, query, s, Init(log), k));
      }
    }
  }

  // After any run, a check by an idle thread hits exactly when the log has a store to its key less
  // than ttl ago, with no eviction of the key and no clear since. Otherwise it misses, and either way
  // the cache and the other threads stay as they are.
  lemma CheckHitsExactlyWhen<Db, V>(cfg: Config, query: Query<Db, V>, s: State<Db, V>, log: seq<Step<Db>>,
                                    tid: nat, call: Call)
    requires Fresh(s)
    requires PhaseOf(After(cfg, query, s, log), tid).Idle?
    ensures var st := After(cfg, query, s, log);
            var expiry := Expiry(cfg, query, s, log, KeyOf(call));
            After(cfg, query, s, log + [Check(tid, call)]) ==
            st.(threads := st.threads[tid := if expiry.Some? && st.now < expiry.value then Hit(call) else Miss(call)])
  {
    hide KeyOf;
    ExpiryAgrees(cfg, query, s, log, KeyOf(call));
    AfterOne(cfg, query, s, log, Check(tid, call));
  }

  // ---- The gap between `in` and `[]` ----

  // After any run, a wrapper whose `in` succeeded raises KeyError from its `[]` exactly when by then
  // the key was evicted or cleared since the last store to it, or its TTL has run out. Other stores,
  // other evictions and shorter waits never raise: it returns the result stored last.
  lemma KeyErrorExactlyWhen<Db, V>(cfg: Config, query: Query<Db, V>, s: State<Db, V>, log: seq<Step<Db>>, tid: nat)
    requires Fresh(s)
    requires PhaseOf(After(cfg, query, s, log), tid).Hit?
    ensures var st := After(cfg, query, s, log);
            var call := PhaseOf(st, tid).call;
            var expiry := Expiry(cfg, query, s, log, KeyOf(call));
            var stored := LastStore(cfg, query, s, log, KeyOf(call));
            if expiry.None? || expiry.value <= st.now then ReplyTo(cfg, st, Read(tid)) == Some(Reply(call, KeyError))
            else
              && stored.Some? && stored.value.reading.Some?
              && var r := stored.value.reading.value;
              && KeyOf(r.call) == KeyOf(call)
              && ReplyTo(cfg, st, Read(tid)) == Some(Reply(call, Returned(query(r.call, r.db, r.at))))
  {
    hide KeyOf;
    var st := After(cfg, query, s, log);
    var k := KeyOf(PhaseOf(st, tid).call);
    ExpiryAgrees(cfg, query, s, log, k);
    if k in st.entries {
      EntriesAccounted(cfg, query, s, log, k);
    }
  }

  // It does happen: check, query, store, check again, and a clear before the read.
  lemma KeyErrorHappens<Db, V>(cfg: Config, query: Query<Db, V>, s: State<Db, V>, tid: nat, call: Call)
    requires Fresh(s) && cfg.maxsize >= 1 && cfg.ttl >= 1
    ensures var log := [Check(tid, call)] + [Compute(tid)] + [Store(tid, KeyOf(call))] + [Check(tid, call)] + [Clear];
            ReplyTo(cfg, After(cfg, query, s, log), Read(tid)) == Some(Reply(call, KeyError))
  {
    hide KeyOf, MissAndStore;
    var l3 := MissAndStore(tid, call);
    var l4 := l3 + [Check(tid, call)];
    MissStores(cfg, query, s, tid, call);
    AfterOne(cfg, query, s, l3, Check(tid, call));
    AfterOne(cfg, query, s, l4, Clear);
    assert Live(After(cfg, query, s, l3).entries, KeyOf(call), s.now);
    assert PhaseOf(After(cfg, query, s, l4), tid) == Hit(call);
    MissAndStoreIs<Db>(tid, call);
  }

  // The steps of one call that misses.
  function MissAndStore<Db>(tid: nat, call: Call): seq<Step<Db>> {
    [Check(tid, call)] + [Compute(tid)] + [Store(tid, KeyOf(call))]
  }

  lemma MissAndStoreIs<Db>(tid: nat, call: Call)
    ensures MissAndStore<Db>(tid, call) == [Check(tid, call)] + [Compute(tid)] + [Store(tid, KeyOf(call))]
  {
  }

  lemma MissStores<Db, V>(cfg: Config, query: Query<Db, V>, s: State<Db, V>, tid: nat, call: Call)
    requires Fresh(s) && cfg.maxsize >= 1
    ensures After(cfg, query, s, MissAndStore(tid, call)) ==
            s.(entries := map[KeyOf(call) := Entry(query(call, s.db, s.now), s.now + cfg.ttl)], threads := map[tid := Idle])
  {
    hide KeyOf;
    var l1: seq<Step<Db>> := [Check(tid, call)];
    var l2 := l1 + [Compute(tid)];
    assert [] + l1 == l1;
    AfterOne(cfg, query, s, [], Check(tid, call));
    AfterOne(cfg, query, s, l1, Compute(tid));
    AfterOne(cfg, query, s, l2, Store(tid, KeyOf(call)));
    assert PhaseOf(After(cfg, query, s, l1), tid) == Miss(call);
    assert PhaseOf(After(cfg, query, s, l2), tid).Computed?;
  }

  // From an empty cache: a result stored by one call is what any thread's same call gets for the next
  // ttl seconds, whatever the database has become; from then on it misses and queries the new one.
  lemma ServedForTtl<Db, V>(cfg: Config, query: Query<Db, V>, s: State<Db, V>, tid: nat, call: Call, db: Db, t: nat,
                            other: nat)
    requires Fresh(s) && cfg.maxsize >= 1
    ensures var log := MissAndStore(tid, call) + [Change(db)] + [Tick(t)] + [Check(other, call)];
            if t < cfg.ttl then
              ReplyTo(cfg, After(cfg, query, s, log), Read(other)) == Some(Reply(call, Returned(query(call, s.db, s.now))))
            else
              ReplyTo(cfg, After(cfg, query, s, log + [Compute(other)]), Store(other, KeyOf(call))) ==
              Some(Reply(call, Returned(query(call, db, s.now + t))))
  {
    hide KeyOf, MissAndStore;
    var l3 := MissAndStore(tid, call);
    var l6 := l3 + [Change(db)] + [Tick(t)] + [Check(other, call)];
    MissStores(cfg, query, s, tid, call);
    AfterOne(cfg, query, s, l3, Change(db));
    AfterOne(cfg, query, s, l3 + [Change(db)], Tick(t));
    AfterOne(cfg, query, s, l3 + [Change(db)] + [Tick(t)], Check(other, call));
    AfterOne(cfg, query, s, l6, Compute(other));
    if t >= cfg.ttl {
      var st := After(cfg, query, s, l6 + [Compute(other)]);
      assert PhaseOf(st, other) == Computed(call, query(call, db, s.now + t));
      assert Unexpired(st.entries, st.now) == map[];
    }
  }

  lemma AfterOne<Db, V>(cfg: Config, query: Query<Db, V>, s: State<Db, V>, log: seq<Step<Db>>, step: Step<Db>)
    ensures After(cfg, query, s, log + [step]) == Next(cfg, query, After(cfg, query, s, log), step)
  {
    assert Init(log + [step]) == log;
  }

  // ---- Every call is answered once ----

  ghost predicate Begins<Db, V>(s: State<Db, V>, step: Step<Db>, tid: nat) {
    step.Check? && step.tid == tid && PhaseOf(s, tid).Idle?
  }

  // How many calls thread tid has begun, and how many of its calls have been answered.
  ghost function Begun<Db, V>(cfg: Config, query: Query<Db, V>, s: State<Db, V>, log: seq<Step<Db>>, tid: nat): nat {
    if log == [] then 0
    else Begun(cfg, query, s, Init(log), tid) + if Begins(After(cfg, query, s, Init(log)), Last(log), tid) then 1 else 0
  }

  ghost predicate Answers<Db, V>(cfg: Config, s: State<Db, V>, step: Step<Db>, tid: nat) {
    (step.Read? || step.Fail? || step.Store?) && step.tid == tid && ReplyTo(cfg, s, step).Some?
  }

  ghost function Answered<Db, V>(cfg: Config, query: Query<Db, V>, s: State<Db, V>, log: seq<Step<Db>>, tid: nat): nat {
    if log == [] then 0
    else Answered(cfg, query, s, Init(log), tid) + if Answers(cfg, After(cfg, query, s, Init(log)), Last(log), tid) then 1 else 0
  }

  // Over every run, a thread has as many answers as calls, one fewer while a call is in flight, and
  // an answer is to the call in flight: KeyError from a read only, QueryFailed from a failed query only.
  lemma {:induction false} EveryCallAnsweredOnce<Db, V>(cfg: Config, query: Query<Db, V>, s: State<Db, V>,
                                                        log: seq<Step<Db>>, tid: nat)
    requires Fresh(s)
    ensures Begun(cfg, query, s, log, tid) ==
            Answered(cfg, query, s, log, tid) + if PhaseOf(After(cfg, query, s, log), tid).Idle? then 0 else 1
    ensures forall step :: Answers(cfg, After(cfg, query, s, log), step, tid) ==>
              && !PhaseOf(After(cfg, query, s, log), tid).Idle?
              && var reply := ReplyTo(cfg, After(cfg, query, s, log), step).value;
              && reply.call == PhaseOf(After(cfg, query, s, log), tid).call
              && (reply.answer.KeyError? ==> step.Read?) && (reply.answer.QueryFailed? <==> step.Fail?)
  {
    hide KeyOf, Stored, MayEvict, Live;
    if log != [] {
      EveryCallAnsweredOnce(cfg, query, s, Init(log), tid);
    }
  }
}
