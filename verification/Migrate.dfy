// gridpulse/storage/migrate.py: pending migrations applied in name order, each in its own
// transaction together with the record of its version.
module Migrate {
  import opened Prelude
  import opened Sorting
  import opened Names

  // A *.sql file of the migrations directory; its version is the name without the suffix.
  datatype File = File(name: string, sql: string)

  predicate IsListing(files: seq<File>) {
    && (forall i :: 0 <= i < |files| ==> |files[i].name| > 4 && files[i].name[|files[i].name| - 4..] == ".sql")
    && (forall i, j :: 0 <= i < j < |files| ==> files[i].name != files[j].name)
  }

  function Version(f: File): string {
    if |f.name| > 4 then f.name[..|f.name| - 4] else f.name
  }

  predicate ByName(a: File, b: File) {
    NameLess(a.name, b.name)
  }

  function InNameOrder(listing: seq<File>): seq<File> {
    Sort(ByName, listing)
  }

  // A script either takes the schema to another or raises.
  type Exec<!S> = (string, S) -> Option<S>

  datatype Outcome = Applied(count: nat) | Raised

  // A run so far: the committed schema and version records, the files applied, and whether it raised.
  datatype Progress<S> = Progress(schema: S, log: seq<string>, count: nat, raised: bool)

  // `fault` names the versions at which this run fails for reasons outside the script.
  function Run<S>(exec: Exec<S>, files: seq<File>, start: Progress<S>, done: set<string>,
                  fault: string -> bool): Progress<S> {
    if files == [] then start
    else
      var p := Run(exec, Init(files), start, done, fault);
      var v := Version(Last(files));
      if p.raised || v in done then p
      else
        var after := exec(Last(files).sql, p.schema);
        if fault(v) || after.None? then p.(raised := true)
        else Progress(after.value, p.log + [v], p.count + 1, false)
  }

  function Elements(log: seq<string>): set<string> {
    set v | v in log
  }

  class Database<S> {
    var bootstrapped: bool
    var schema: S
    var log: seq<string>  // public._migrations, by applied_at; version is its primary key

    constructor (schema: S)
      ensures this.schema == schema && log == [] && !bootstrapped
    {
      this.schema, log, bootstrapped := schema, [], false;
    }

    method ApplyMigrations(exec: Exec<S>, listing: seq<File>, fault: string -> bool) returns (r: Outcome)
      requires IsListing(listing)
      modifies this
      ensures var p := Run(exec, InNameOrder(listing), Progress(old(schema), old(log), 0, false), Elements(old(log)), fault);
              schema == p.schema && log == p.log && r == if p.raised then Raised else Applied(p.count)
      ensures bootstrapped == (old(bootstrapped) || listing != [])
    {
      hide Run, Sort, IsListing, Versions, RecordedFrom;
      var files := InNameOrder(listing);
      NameOrderIsListing(listing);
      StartOfRun(exec, files[..0], Progress(schema, log, 0, false), Elements(log), fault);
      if files == [] {
        return Applied(0);
      }
      bootstrapped := true;
      var done := set v | v in log;
      ghost var start := Progress(schema, log, 0, false);
      var count := 0;
      for i := 0 to |files|
        invariant Run(exec, files[..i], start, done, fault) == Progress(schema, log, count, false)
        invariant bootstrapped
        invariant RecordedFrom(log, done, Versions(files[..i]))
      {
        NextFile(exec, files, i, start, done, fault);
        var v := Version(files[i]);
        MoreVersions(log, done, Versions(files[..i]), v);
        if v in done {
          continue;
        }
        var after := exec(files[i].sql, schema);
        if fault(v) || after.None? || v in log {
          Stuck(exec, files, i + 1, start, done, fault);
          return Raised;
        }
        schema, log := after.value, log + [v];
        count := count + 1;
      }
      assert files[..|files|] == files;
      r := Applied(count);
    }
  }

  ghost predicate RecordedFrom(log: seq<string>, done: set<string>, versions: seq<string>) {
    forall v :: v in log ==> v in done || v in versions
  }

  lemma MoreVersions(log: seq<string>, done: set<string>, versions: seq<string>, v: string)
    requires RecordedFrom(log, done, versions) && v !in versions
    ensures RecordedFrom(log, done, versions + [v]) && RecordedFrom(log + [v], done, versions + [v])
    ensures v !in done ==> v !in log
  {
  }

  lemma StartOfRun<S>(exec: Exec<S>, files: seq<File>, start: Progress<S>, done: set<string>, fault: string -> bool)
    requires files == []
    ensures Run(exec, files, start, done, fault) == start
    ensures RecordedFrom(start.log, Elements(start.log), Versions(files))
  {
  }

  // What the loop does with file i; its version cannot have been recorded by an earlier file.
  lemma NextFile<S>(exec: Exec<S>, files: seq<File>, i: nat, start: Progress<S>, done: set<string>,
                    fault: string -> bool)
    requires i < |files| && IsListing(files)
    ensures var p := Run(exec, files[..i], start, done, fault);
            var v := Version(files[i]);
            Run(exec, files[..i + 1], start, done, fault) ==
            if p.raised || v in done then p
            else if fault(v) || exec(files[i].sql, p.schema).None? then p.(raised := true)
            else Progress(exec(files[i].sql, p.schema).value, p.log + [v], p.count + 1, false)
    ensures Version(files[i]) !in Versions(files[..i])
    ensures Versions(files[..i + 1]) == Versions(files[..i]) + [Version(files[i])]
  {
    assert Init(files[..i + 1]) == files[..i];
    VersionsDistinct(files);
    forall j | 0 <= j < i
      ensures Versions(files[..i])[j] != Version(files[i])
    {
      assert Versions(files)[j] != Versions(files)[i];
    }
  }

  lemma {:induction false} Stuck<S>(exec: Exec<S>, files: seq<File>, i: nat, start: Progress<S>,
                                    done: set<string>, fault: string -> bool)
    requires i <= |files| && Run(exec, files[..i], start, done, fault).raised
    ensures Run(exec, files, start, done, fault) == Run(exec, files[..i], start, done, fault)
  {
    if i == |files| {
      assert files[..i] == files;
    } else {
      assert Init(files)[..i] == files[..i];
      Stuck(exec, Init(files), i, start, done, fault);
    }
  }

  // ---- The listing, in order ----

  lemma ByNameIsStrict()
    ensures StrictOrder(ByName)
  {
    forall a: File
      ensures !ByName(a, a)
    {
      NameLessIrreflexive(a.name);
    }
    forall a: File, b: File, c: File | ByName(a, b) && ByName(b, c)
      ensures ByName(a, c)
    {
      NameLessTransitive(a.name, b.name, c.name);
    }
  }

  lemma NameOrderIsListing(listing: seq<File>)
    requires IsListing(listing)
    ensures IsListing(InNameOrder(listing)) && Sorted(ByName, InNameOrder(listing)) && |InNameOrder(listing)| == |listing|
  {
    ByNameIsStrict();
    forall i, j | 0 <= i < j < |listing|
      ensures ByName(listing[i], listing[j]) || ByName(listing[j], listing[i])
    {
      NameLessTotal(listing[i].name, listing[j].name);
    }
    SortSorts(ByName, listing);
    var files := InNameOrder(listing);
    forall i | 0 <= i < |files|
      ensures |files[i].name| > 4 && files[i].name[|files[i].name| - 4..] == ".sql"
    {
      assert files[i] in files;
      var j :| 0 <= j < |listing| && listing[j] == files[i];
    }
    forall i, j | 0 <= i < j < |files|
      ensures files[i].name != files[j].name
    {
      NameLessIrreflexive(files[i].name);
      assert ByName(files[i], files[j]);
    }
  }

  function Versions(files: seq<File>): (vs: seq<string>)
    ensures |vs| == |files|
  {
    seq(|files|, i requires 0 <= i < |files| => Version(files[i]))
  }

  ghost predicate Distinct(vs: seq<string>) {
    forall i, j :: 0 <= i < j < |vs| ==> vs[i] != vs[j]
  }

  lemma DistinctFront(front: seq<string>, last: string)
    requires Distinct(front + [last])
    ensures Distinct(front) && last !in front
  {
    var vs := front + [last];
    forall i, j | 0 <= i < j < |front|
      ensures front[i] != front[j]
    {
      assert vs[i] != vs[j];
    }
    forall i | 0 <= i < |front|
      ensures front[i] != last
    {
      assert vs[i] != vs[|front|];
    }
  }

  lemma VersionsDistinct(files: seq<File>)
    requires IsListing(files)
    ensures Distinct(Versions(files))
  {
    forall i, j | 0 <= i < j < |files|
      ensures Version(files[i]) != Version(files[j])
    {
      assert files[i].name == Version(files[i]) + ".sql" && files[j].name == Version(files[j]) + ".sql";
    }
  }

  // ---- The schema is the replay of the recorded versions ----

  function Replay<S>(exec: Exec<S>, sql: string -> string, schema: S, log: seq<string>): Option<S> {
    if log == [] then Some(schema)
    else
      var before := Replay(exec, sql, schema, Init(log));
      if before.None? then None else exec(sql(Last(log)), before.value)
  }

  lemma {:induction false} ReplayConcat<S>(exec: Exec<S>, sql: string -> string, schema: S, a: seq<string>,
                                           b: seq<string>)
    ensures Replay(exec, sql, schema, a + b) ==
            if Replay(exec, sql, schema, a).None? then None else Replay(exec, sql, Replay(exec, sql, schema, a).value, b)
  {
    if b == [] {
      assert a + b == a;
    } else {
      assert Init(a + b) == a + Init(b);
      ReplayConcat(exec, sql, schema, a, Init(b));
    }
  }

  // The versions a run starting with records `done` still has to apply.
  function Pending(files: seq<File>, done: set<string>): seq<string> {
    if files == [] then []
    else Pending(Init(files), done) + if Version(Last(files)) in done then [] else [Version(Last(files))]
  }

  // The text of a migration is fixed by its version.
  ghost predicate TextsFixed(files: seq<File>, sql: string -> string) {
    forall i :: 0 <= i < |files| ==> files[i].sql == sql(Version(files[i]))
  }

  // A run records the first of the pending versions, in order, up to the first at which it faults
  // or whose script raises, and leaves the schema those versions take the starting one to.
  lemma {:induction false} RunRecordsWhatItApplied<S>(exec: Exec<S>, sql: string -> string, files: seq<File>,
                                                      schema: S,
                                                      log: seq<string>, done: set<string>, fault: string -> bool)
    requires TextsFixed(files, sql)
    ensures var p := Run(exec, files, Progress(schema, log, 0, false), done, fault);
            var pending := Pending(files, done);
            && p.count <= |pending|
            && (p.raised <==> p.count < |pending|)
            && p.log == log + pending[..p.count]
            && Replay(exec, sql, schema, pending[..p.count]) == Some(p.schema)
            && (forall i :: 0 <= i < p.count ==> !fault(pending[i]))
            && (p.raised ==> fault(pending[p.count]) || exec(sql(pending[p.count]), p.schema).None?)
  {
    hide Replay, Pending;
    if files == [] {
      NothingPending(exec, sql, files, schema, done);
    } else {
      var front, v := Init(files), Version(Last(files));
      RunRecordsWhatItApplied(exec, sql, front, schema, log, done, fault);
      var p := Run(exec, front, Progress(schema, log, 0, false), done, fault);
      var before := Pending(front, done);
      PendingStep(files, done, p.count);
      if !p.raised && v !in done {
        ReplayStep(exec, sql, schema, before, v);
        assert before[..p.count] == before;
        assert log + before + [v] == log + (before + [v]);
      }
    }
  }

  lemma NothingPending<S>(exec: Exec<S>, sql: string -> string, files: seq<File>, schema: S, done: set<string>)
    requires files == []
    ensures Pending(files, done) == [] && Replay(exec, sql, schema, []) == Some(schema)
  {
  }

  lemma PendingStep(files: seq<File>, done: set<string>, n: nat)
    requires files != [] && n <= |Pending(Init(files), done)|
    ensures var before, v := Pending(Init(files), done), Version(Last(files));
            && Pending(files, done) == (if v in done then before else before + [v])
            && Pending(files, done)[..n] == before[..n]
            && (v !in done ==> Pending(files, done)[..|before| + 1] == before + [v])
  {
  }

  lemma ReplayStep<S>(exec: Exec<S>, sql: string -> string, schema: S, log: seq<string>, v: string)
    ensures Replay(exec, sql, schema, log + [v]) ==
            if Replay(exec, sql, schema, log).None? then None else exec(sql(v), Replay(exec, sql, schema, log).value)
  {
    assert Init(log + [v]) == log;
  }

  lemma {:induction false} PendingIsNew(files: seq<File>, done: set<string>)
    requires Distinct(Versions(files))
    ensures Distinct(Pending(files, done))
    ensures forall v :: v in Pending(files, done) <==> v in Versions(files) && v !in done
  {
    if files != [] {
      var front := Init(files);
      assert Versions(files) == Versions(front) + [Version(Last(files))];
      DistinctFront(Versions(front), Version(Last(files)));
      PendingIsNew(front, done);
    }
  }

  // ---- Any number of runs ----

  datatype Db<S> = Db(schema: S, log: seq<string>)
  datatype Attempt = Attempt(listing: seq<File>, fault: string -> bool)

  function OneRun<S>(exec: Exec<S>, db: Db<S>, a: Attempt): Progress<S> {
    Run(exec, InNameOrder(a.listing), Progress(db.schema, db.log, 0, false), Elements(db.log), a.fault)
  }

  function Runs<S>(exec: Exec<S>, schema: S, attempts: seq<Attempt>): Db<S> {
    if attempts == [] then Db(schema, [])
    else
      var p := OneRun(exec, Runs(exec, schema, Init(attempts)), Last(attempts));
      Db(p.schema, p.log)
  }

  ghost predicate Sound(attempts: seq<Attempt>, sql: string -> string) {
    forall i :: 0 <= i < |attempts| ==> IsListing(attempts[i].listing) && TextsFixed(attempts[i].listing, sql)
  }

  lemma TextsStayFixed(listing: seq<File>, sql: string -> string)
    requires IsListing(listing) && TextsFixed(listing, sql)
    ensures TextsFixed(InNameOrder(listing), sql)
  {
    SortKeepsElements(ByName, listing);
    forall i | 0 <= i < |InNameOrder(listing)|
      ensures InNameOrder(listing)[i].sql == sql(Version(InNameOrder(listing)[i]))
    {
      assert InNameOrder(listing)[i] in InNameOrder(listing);
    }
  }

  // After any runs, over a directory that may change between them, failing wherever they fail,
  // the schema is the replay of exactly the recorded versions, each recorded once.
  lemma {:induction false} SchemaIsReplayOfLog<S>(exec: Exec<S>, sql: string -> string, schema: S,
                                                  attempts: seq<Attempt>)
    requires Sound(attempts, sql)
    ensures var db := Runs(exec, schema, attempts);
            Replay(exec, sql, schema, db.log) == Some(db.schema) && Distinct(db.log)
  {
    if attempts != [] {
      var before, a := Runs(exec, schema, Init(attempts)), Last(attempts);
      SchemaIsReplayOfLog(exec, sql, schema, Init(attempts));
      var files, done := InNameOrder(a.listing), Elements(before.log);
      TextsStayFixed(a.listing, sql);
      NameOrderIsListing(a.listing);
      VersionsDistinct(files);
      PendingIsNew(files, done);
      RunRecordsWhatItApplied(exec, sql, files, before.schema, before.log, done, a.fault);
      var p := OneRun(exec, before, a);
      ReplayConcat(exec, sql, schema, before.log, Pending(files, done)[..p.count]);
      AppendDistinct(before.log, Pending(files, done), p.count);
    }
  }

  lemma AppendDistinct(log: seq<string>, pending: seq<string>, n: nat)
    requires Distinct(log) && Distinct(pending) && n <= |pending|
    requires forall v :: v in pending ==> v !in Elements(log)
    ensures Distinct(log + pending[..n])
  {
    forall i, j | 0 <= i < j < |log + pending[..n]|
      ensures (log + pending[..n])[i] != (log + pending[..n])[j]
    {
      if i < |log| <= j {
        assert log[i] in Elements(log) && pending[j - |log|] in pending;
      }
    }
  }

  // Prefixes of the ordered versions stay prefixes: what is pending is the rest.
  lemma {:induction false} PendingAfterPrefix(files: seq<File>, log: seq<string>)
    requires Distinct(Versions(files)) && log <= Versions(files)
    ensures Pending(files, Elements(log)) == Versions(files)[|log|..]
  {
    if files != [] {
      var front, last := Init(files), Version(Last(files));
      assert Versions(files) == Versions(front) + [last];
      if |log| == |files| {
        assert log == Versions(files);
        AllDone(files, Elements(log));
      } else {
        DistinctFront(Versions(front), last);
        assert log <= Versions(front);
        PendingAfterPrefix(front, log);
        assert forall v :: v in log ==> v in Versions(front);
      }
    }
  }

  lemma {:induction false} AllDone(files: seq<File>, done: set<string>)
    requires forall i :: 0 <= i < |files| ==> Versions(files)[i] in done
    ensures Pending(files, done) == []
  {
    if files != [] {
      assert Versions(files)[|files| - 1] == Version(Last(files));
      assert forall i :: 0 <= i < |files| - 1 ==> Versions(Init(files))[i] == Versions(files)[i];
      AllDone(Init(files), done);
    }
  }

  ghost predicate SameListing(attempts: seq<Attempt>, listing: seq<File>) {
    forall i :: 0 <= i < |attempts| ==> attempts[i].listing == listing
  }

  lemma {:induction false} LogIsPrefix<S>(exec: Exec<S>, sql: string -> string, schema: S, listing: seq<File>,
                                          attempts: seq<Attempt>)
    requires IsListing(listing) && TextsFixed(listing, sql) && SameListing(attempts, listing)
    ensures Runs(exec, schema, attempts).log <= Versions(InNameOrder(listing))
    ensures attempts != [] && !OneRun(exec, Runs(exec, schema, Init(attempts)), Last(attempts)).raised ==>
              Runs(exec, schema, attempts).log == Versions(InNameOrder(listing))
  {
    if attempts != [] {
      LogIsPrefix(exec, sql, schema, listing, Init(attempts));
      assert Last(attempts).listing == listing;
      RunExtendsPrefix(exec, sql, listing, Runs(exec, schema, Init(attempts)), Last(attempts));
    }
  }

  lemma RunExtendsPrefix<S>(exec: Exec<S>, sql: string -> string, listing: seq<File>, db: Db<S>, a: Attempt)
    requires IsListing(listing) && TextsFixed(listing, sql) && a.listing == listing
    requires db.log <= Versions(InNameOrder(listing))
    ensures OneRun(exec, db, a).log <= Versions(InNameOrder(listing))
    ensures !OneRun(exec, db, a).raised ==> OneRun(exec, db, a).log == Versions(InNameOrder(listing))
  {
    hide InNameOrder, Run, TextsFixed, IsListing, Replay, Pending, Versions, Distinct;
    var files := InNameOrder(listing);
    TextsStayFixed(listing, sql);
    NameOrderIsListing(listing);
    VersionsDistinct(files);
    PendingAfterPrefix(files, db.log);
    RunRecordsWhatItApplied(exec, sql, files, db.schema, db.log, Elements(db.log), a.fault);
    var n := OneRun(exec, db, a).count;
    assert db.log + Versions(files)[|db.log|..][..n] == Versions(files)[..|db.log| + n];
  }

  // Failures leave no trace: once a run over the directory succeeds, the database is the one a
  // single clean run makes, whatever failed before; and every later run applies nothing.
  lemma ResumeEqualsCleanRun<S>(exec: Exec<S>, sql: string -> string, schema: S, listing: seq<File>,
                                failures: seq<Attempt>, last: Attempt, again: Attempt, clean: Attempt)
    requires IsListing(listing) && TextsFixed(listing, sql)
    requires SameListing(failures + [last], listing) && again.listing == listing
    requires clean.listing == listing && forall v :: !clean.fault(v)
    requires !OneRun(exec, Runs(exec, schema, failures), last).raised
    ensures Runs(exec, schema, failures + [last]) == Runs(exec, schema, [clean])
    ensures !OneRun(exec, Runs(exec, schema, []), clean).raised
    ensures var db := Runs(exec, schema, failures + [last]);
            OneRun(exec, db, again) == Progress(db.schema, db.log, 0, false)
  {
    var files := InNameOrder(listing);
    var runs := failures + [last];
    assert Init(runs) == failures;
    assert (failures + [last])[|failures|] == last;
    assert Sound(runs, sql);
    LogIsPrefix(exec, sql, schema, listing, runs);
    SchemaIsReplayOfLog(exec, sql, schema, runs);
    TextsStayFixed(listing, sql);
    NameOrderIsListing(listing);
    VersionsDistinct(files);
    var db := Runs(exec, schema, runs);
    // the clean run
    assert Init([clean]) == [];
    PendingAfterPrefix(files, []);
    RunRecordsWhatItApplied(exec, sql, files, schema, [], {}, clean.fault);
    CleanRunSucceeds(exec, sql, files, schema, clean.fault);
    assert Elements([]) == {};
    assert Versions(files)[|Versions(files)|..] == [];
    assert Versions(files)[..|Versions(files)|] == Versions(files);
    // the run again
    PendingAfterPrefix(files, db.log);
    RunRecordsWhatItApplied(exec, sql, files, db.schema, db.log, Elements(db.log), again.fault);
  }

  lemma {:induction false} CleanRunSucceeds<S>(exec: Exec<S>, sql: string -> string, files: seq<File>,
                                               schema: S, fault: string -> bool)
    requires TextsFixed(files, sql) && forall v :: !fault(v)
    requires Replay(exec, sql, schema, Versions(files)).Some?
    ensures !Run(exec, files, Progress(schema, [], 0, false), {}, fault).raised
    ensures Run(exec, files, Progress(schema, [], 0, false), {}, fault).schema == Replay(exec, sql, schema, Versions(files)).value
  {
    if files != [] {
      assert Init(Versions(files)) == Versions(Init(files));
      CleanRunSucceeds(exec, sql, Init(files), schema, fault);
    }
  }

  lemma PrefixOrNot(files: seq<File>, log: seq<string>)
    requires Distinct(Versions(files))
    ensures log + Pending(files, Elements(log)) == Versions(files) <==> log <= Versions(files)
  {
    assert log <= log + Pending(files, Elements(log));
    if log <= Versions(files) {
      PendingAfterPrefix(files, log);
      assert log + Versions(files)[|log|..] == Versions(files);
    }
  }

  // With files added between runs, a run that succeeds leaves the versions recorded in directory
  // order exactly when those recorded before it were the first ones in that order.
  lemma AddedFilesKeepOrder<S>(exec: Exec<S>, sql: string -> string, db: Db<S>, a: Attempt)
    requires IsListing(a.listing) && TextsFixed(a.listing, sql)
    requires !OneRun(exec, db, a).raised
    ensures OneRun(exec, db, a).log == Versions(InNameOrder(a.listing)) <==> db.log <= Versions(InNameOrder(a.listing))
  {
    hide InNameOrder, Run, TextsFixed, IsListing, Replay, Pending, Versions, Distinct;
    var files := InNameOrder(a.listing);
    TextsStayFixed(a.listing, sql);
    NameOrderIsListing(a.listing);
    VersionsDistinct(files);
    RunRecordsWhatItApplied(exec, sql, files, db.schema, db.log, Elements(db.log), a.fault);
    var pending := Pending(files, Elements(db.log));
    assert pending[..|pending|] == pending;
    PrefixOrNot(files, db.log);
  }

  // ---- The order, down to the characters of the names ----

  // Of two files, the one whose name comes first, character by character, is applied first.
  lemma NameOrderMeans(listing: seq<File>, f: File, g: File)
    requires IsListing(listing) && f in listing && g in listing
    ensures (exists i, j :: 0 <= i < j < |listing| && InNameOrder(listing)[i] == f && InNameOrder(listing)[j] == g) <==>
            ComesBefore(f.name, g.name)
  {
    hide IsListing, ComesBefore;
    ByNameIsStrict();
    NameOrderIsListing(listing);
    SortKeepsElements(ByName, listing);
    var files := InNameOrder(listing);
    var i :| 0 <= i < |files| && files[i] == f;
    var j :| 0 <= j < |files| && files[j] == g;
    NotBackwards(ByName, files, j, i);
    NameLessMeans(f.name, g.name);
    if i', j' :| 0 <= i' < j' < |files| && files[i'] == f && files[j'] == g {
      assert ByName(f, g);
    }
  }

  // The directory holds v.sql.
  ghost predicate Lists(files: seq<File>, v: string) {
    exists f :: f in files && f.name == v + ".sql"
  }

  // The versions a run appends are names of the directory less their ".sql", none recorded before,
  // in the order of those names.
  lemma AppliedInNameOrder<S>(exec: Exec<S>, sql: string -> string, db: Db<S>, a: Attempt)
    requires IsListing(a.listing) && TextsFixed(a.listing, sql)
    ensures var log := OneRun(exec, db, a).log;
            && db.log <= log
            && (forall i :: |db.log| <= i < |log| ==> log[i] !in db.log && Lists(a.listing, log[i]))
            && (forall i, j :: |db.log| <= i < j < |log| ==> ComesBefore(log[i] + ".sql", log[j] + ".sql"))
  {
    hide InNameOrder, Run, TextsFixed, IsListing, Replay, Pending, Versions, Distinct, ComesBefore;
    var files, done := InNameOrder(a.listing), Elements(db.log);
    TextsStayFixed(a.listing, sql);
    NameOrderIsListing(a.listing);
    RunRecordsWhatItApplied(exec, sql, files, db.schema, db.log, done, a.fault);
    PendingInOrder(files, done);
    FromListing(a.listing);
    var pending := Pending(files, done);
    var p := OneRun(exec, db, a);
    assert p.log[..|db.log|] == db.log;
    forall i | |db.log| <= i < |p.log|
      ensures p.log[i] == pending[i - |db.log|]
    {
    }
  }

  lemma FromListing(listing: seq<File>)
    requires IsListing(listing)
    ensures forall f :: f in InNameOrder(listing) ==> f in listing
  {
    SortKeepsElements(ByName, listing);
  }

  lemma NonePending(files: seq<File>, done: set<string>)
    requires files == []
    ensures Pending(files, done) == []
  {
  }

  lemma {:induction false} PendingInOrder(files: seq<File>, done: set<string>)
    requires IsListing(files) && Sorted(ByName, files)
    ensures var pending := Pending(files, done);
            && (forall i :: 0 <= i < |pending| ==> pending[i] !in done && Lists(files, pending[i]))
            && (forall i, j :: 0 <= i < j < |pending| ==> ComesBefore(pending[i] + ".sql", pending[j] + ".sql"))
  {
    hide ComesBefore, Pending, NameLess;
    if files == [] {
      NonePending(files, done);
    } else {
      var front, last := Init(files), Last(files);
      assert IsListing(front) && Sorted(ByName, front);
      PendingInOrder(front, done);
      PendingStep(files, done, 0);
      assert last in files && last.name == Version(last) + ".sql";
      var before := Pending(front, done);
      forall i | 0 <= i < |before|
        ensures Lists(files, before[i]) && ComesBefore(before[i] + ".sql", Version(last) + ".sql")
      {
        var f :| f in front && f.name == before[i] + ".sql";
        var j :| 0 <= j < |front| && front[j] == f;
        assert files[j] == f;
        assert ByName(files[j], files[|files| - 1]);
        NameLessMeans(f.name, last.name);
      }
    }
  }
}
