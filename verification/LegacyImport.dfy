/** Schema steps and the one-time import of a legacy JSON file, over any number
    of runs that may fail or crash. */
module LegacyImport {
  import opened Wrappers
  import opened Transactions

  predicate LeavesAlone(code: Code, key: string) {
    match code
    case Done => true
    case Write(change, next) => (change.SetMeta? ==> change.key != key) && LeavesAlone(next, key)
    case Fail(_) => true
    case Nested(body, _, _, next) => LeavesAlone(body, key) && LeavesAlone(next, key)
  }

  function Then(code: Code, c: Change): Code {
    match code
    case Done => Write(c, Done)
    case Write(change, next) => Write(change, Then(next, c))
    case Fail(_) => code
    case Nested(body, faults, catches, next) => Nested(body, faults, catches, Then(next, c))
  }

  lemma {:induction false} ThenAppends(d: Data, code: Code, c: Change)
    ensures var (e, failed) := Apply(d, code);
      Apply(d, Then(code, c)) == if failed then (e, true) else (Changed(e, c), false)
    ensures FateOf(Then(code, c)) == FateOf(code)
    decreases code
  {
    match code
    case Done =>
    case Write(change, next) => ThenAppends(Changed(d, change), next, c);
    case Fail(_) =>
    case Nested(body, _, catches, next) => ThenAppends(Apply(d, body).0, next, c);
  }

  lemma {:induction false} KeyStays(d: Data, code: Code, key: string)
    requires LeavesAlone(code, key)
    ensures var e := Apply(d, code).0;
      && (key in e.meta <==> key in d.meta)
      && (key in d.meta ==> e.meta[key] == d.meta[key])
    decreases code
  {
    match code
    case Done =>
    case Write(change, next) => KeyStays(Changed(d, change), next, key);
    case Fail(_) =>
    case Nested(body, _, catches, next) =>
      KeyStays(d, body, key);
      KeyStays(Apply(d, body).0, next, key);
  }

  // ---- migrate ----

  function SchemaKey(component: string): string { "schema:" + component }

  function Version(d: Data, component: string): nat {
    if SchemaKey(component) in d.meta then d.meta[SchemaKey(component)] else 0
  }

  /** What the transaction's body does once it has read the current version. */
  function MigrateBody(d: Data, component: string, version: nat, step: Code): Code {
    if Version(d, component) >= version then Done
    else if version != Version(d, component) + 1 then Fail(false)
    else Then(step, SetMeta(SchemaKey(component), version))
  }

  /** What a read sees: inside a transaction, its uncommitted copy. */
  function Current(s: Db): Data { if s.conn.Open? then s.conn.working else s.durable }

  function Migrate(s: Db, component: string, version: nat, step: Code, f: Faults): (Db, bool) {
    Transaction(s, MigrateBody(Current(s), component, version, step), f)
  }

  datatype Call = Call(version: nat, faults: Faults)

  function Migrations(s: Db, component: string, steps: nat -> Code, calls: seq<Call>): Db {
    if calls == [] then s
    else
      var call := calls[|calls| - 1];
      Migrate(Migrations(s, component, steps, calls[..|calls| - 1]), component, call.version, steps(call.version),
        call.faults).0
  }

  /** The steps after version `from` up to n, each whole and followed by its version. */
  function StepsBetween(d: Data, component: string, steps: nat -> Code, from: nat, n: nat): Data
    decreases n
  {
    if n <= from then d
    else Changed(Apply(StepsBetween(d, component, steps, from, n - 1), steps(n)).0, SetMeta(SchemaKey(component), n))
  }

  lemma MigrateIsOneStep(s: Db, component: string, version: nat, step: Code, f: Faults)
    requires Steady(step) && LeavesAlone(step, SchemaKey(component))
    ensures var t := Migrate(s, component, version, step, f).0;
      t.durable == s.durable ||
      (version == Version(s.durable, component) + 1 && Version(t.durable, component) == version
       && t.durable == Changed(Apply(s.durable, step).0, SetMeta(SchemaKey(component), version)))
    ensures !s.conn.Open? && !Stuck(f) ==> !Migrate(s, component, version, step, f).0.conn.Open?
  {
    var body := MigrateBody(Current(s), component, version, step);
    ThenAppends(Current(s), step, SetMeta(SchemaKey(component), version));
    if s.conn.Idle? {
      OutermostIsAtomic(s, body, f);
      NothingStaysOpen(s, body, f);
    } else {
      NothingDurableOutsideIdle(s, body, f);
    }
  }

  /** Outside any transaction a step is taken exactly when it is the next one and
      neither it nor its transaction fails, and the call raises exactly when the
      transaction fails, the step does, or a step would be left out. */
  lemma WhenAStepIsTaken(s: Db, component: string, version: nat, step: Code, f: Faults)
    requires s.conn.Idle? && Steady(step) && LeavesAlone(step, SchemaKey(component))
    ensures var key := "schema:" + component;
      var current := if key in s.durable.meta then s.durable.meta[key] else 0;
      var (t, raised) := Migrate(s, component, version, step, f);
      var (e, failed) := Apply(s.durable, step);
      && (raised <==> !f.begins || f.commit != Works
                      || (current < version && (version > current + 1 || failed)))
      && t.durable == if !raised && version == current + 1 then e.(meta := e.meta[key := version]) else s.durable
  {
    ThenAppends(s.durable, step, SetMeta(SchemaKey(component), version));
    OutermostIsAtomic(s, MigrateBody(s.durable, component, version, step), f);
    hide Transaction, FateOf;
  }

  /** From whatever version the database starts, whatever versions are asked for
      and whatever fails: the version never falls, and the data has been through
      exactly the steps between the two, each once, whole, in order. */
  lemma {:induction false} MigrationsRunInOrder(s: Db, component: string, steps: nat -> Code, calls: seq<Call>)
    requires s.conn.Idle?
    requires forall v :: Steady(steps(v)) && LeavesAlone(steps(v), SchemaKey(component))
    ensures var t := Migrations(s, component, steps, calls);
      var from, to := Version(s.durable, component), Version(t.durable, component);
      && from <= to && t.durable == StepsBetween(s.durable, component, steps, from, to)
      && ((forall i :: 0 <= i < |calls| ==> !Stuck(calls[i].faults)) ==> !t.conn.Open?)
  {
    hide Migrate, Apply, Steady, LeavesAlone, Changed, SchemaKey, Version;
    if calls != [] {
      var init, call := calls[..|calls| - 1], calls[|calls| - 1];
      MigrationsRunInOrder(s, component, steps, init);
      var t := Migrations(s, component, steps, init);
      MigrateIsOneStep(t, component, call.version, steps(call.version), call.faults);
    }
  }

  // ---- Retiring the source ----

  type Files = map<string, string>

  function Digits(n: nat): string
    requires n < 100
  {
    if n < 10 then ['0' + n as char] else ['0' + (n / 10) as char, '0' + (n % 10) as char]
  }

  /** `<name>.migrated-v1`, then `<name>.migrated-v1-2` and so on. */
  function Candidate(source: string, k: nat): string
    requires 1 <= k <= 99
  {
    source + ".migrated-v1" + if k == 1 then "" else "-" + Digits(k)
  }

  function FirstFree(files: Files, source: string, k: nat): (r: Option<nat>)
    requires 1 <= k <= 100
    ensures r.Some? ==> k <= r.value <= 99 && Candidate(source, r.value) !in files
    ensures r.Some? ==> forall j :: k <= j < r.value ==> Candidate(source, j) in files
    ensures r.None? ==> forall j :: k <= j <= 99 ==> Candidate(source, j) in files
    decreases 100 - k
  {
    if k == 100 then None
    else if Candidate(source, k) !in files then Some(k)
    else FirstFree(files, source, k + 1)
  }

  function Retire(files: Files, source: string, renames: bool): Files {
    var free := FirstFree(files, source, 1);
    if source !in files || free.None? || !renames then files
    else (files - {source})[Candidate(source, free.value) := files[source]]
  }

  /** Retiring overwrites nothing and loses nothing; it fails to clear the source
      only when the rename fails or all 99 names are taken. */
  lemma RetireLosesNothing(files: Files, source: string, renames: bool)
    ensures var after := Retire(files, source, renames);
      && (forall n :: n in files && n != source ==> n in after && after[n] == files[n])
      && (source in files ==> exists n :: n in after && after[n] == files[source] && (n == source || n !in files))
      && (source in after <==>
            source in files && (!renames || forall k :: 1 <= k <= 99 ==> Candidate(source, k) in files))
  {
  }

  /** The content goes under the first unused of these names. */
  lemma WhereTheSourceGoes(files: Files, source: string, n: nat)
    requires source in files && 1 <= n <= 99 && Candidate(source, n) !in files
    requires forall k :: 1 <= k < n ==> Candidate(source, k) in files
    ensures Retire(files, source, true) == (files - {source})[Candidate(source, n) := files[source]]
  {
    hide Candidate;
  }

  lemma BackupNames(source: string, n: nat)
    requires 1 <= n <= 99
    ensures n == 1 ==> Candidate(source, n) == source + ".migrated-v1"
    ensures 2 <= n < 10 ==> Candidate(source, n) == source + (".migrated-v1" + "-" + ["0123456789"[n]])
    ensures 10 <= n ==>
      Candidate(source, n) == source + (".migrated-v1" + "-" + ["0123456789"[n / 10], "0123456789"[n % 10]])
  {
  }

  // ---- import_json ----

  function ImportKey(marker: string): string { "import:" + marker }

  predicate Marked(d: Data, marker: string) { ImportKey(marker) in d.meta }

  function Mark(d: Data, marker: string): Data { Changed(d, SetMeta(ImportKey(marker), 1)) }

  /** The marker's name, the legacy file, and the caller's two callbacks. */
  datatype Legacy = Legacy(marker: string, source: string, parse: string -> Option<string>, load: string -> Code)

  datatype World = World(data: Data, files: Files)

  /** Where the process dies, if it does. A transaction that has not committed is gone with it. */
  datatype Crash = No | BeforeCommit | BeforeRetire

  /** One start of the program: does the read succeed, what fails, where does it die. */
  datatype Start = Start(readable: bool, faults: Faults, renames: bool, crash: Crash)

  /** A source is legible when it is there, can be read and parses. */
  predicate Legible(files: Files, legacy: Legacy, readable: bool) {
    legacy.source in files && readable && legacy.parse(files[legacy.source]).Some?
  }

  function Body(w: World, legacy: Legacy, readable: bool): Code {
    Then(if Legible(w.files, legacy, readable) then legacy.load(legacy.parse(w.files[legacy.source]).value) else Done,
         SetMeta(ImportKey(legacy.marker), 1))
  }

  function Import(w: World, legacy: Legacy, r: Start): World {
    if Marked(w.data, legacy.marker) then
      if r.crash.No? then w.(files := Retire(w.files, legacy.source, r.renames)) else w
    else
      var (t, raised) := Transaction(Db(w.data, Idle), Body(w, legacy, r.readable), r.faults);
      if r.crash.BeforeCommit? then w
      else if raised || r.crash.BeforeRetire? || !Legible(w.files, legacy, r.readable) then w.(data := t.durable)
      else World(t.durable, Retire(w.files, legacy.source, r.renames))
  }

  /** What a completed first import makes durable. */
  function Imported(w: World, legacy: Legacy, readable: bool): Data {
    if Legible(w.files, legacy, readable)
    then Mark(Apply(w.data, legacy.load(legacy.parse(w.files[legacy.source]).value)).0, legacy.marker)
    else Mark(w.data, legacy.marker)
  }

  ghost predicate Loads(legacy: Legacy) {
    forall doc :: Steady(legacy.load(doc)) && LeavesAlone(legacy.load(doc), ImportKey(legacy.marker))
  }

  predicate Completes(w: World, legacy: Legacy, r: Start) {
    && !r.crash.BeforeCommit? && r.faults.begins && r.faults.commit.Works?
    && (Legible(w.files, legacy, r.readable) ==>
        !Apply(w.data, legacy.load(legacy.parse(w.files[legacy.source]).value)).1)
  }

  /** One start of an unfinished import does all of it or nothing, and all of it
      exactly when neither the load nor the transaction fails. */
  lemma StartIsAtomic(w: World, legacy: Legacy, r: Start)
    requires Loads(legacy) && !Marked(w.data, legacy.marker)
    ensures var after := Import(w, legacy, r);
      && (Marked(after.data, legacy.marker) <==> Completes(w, legacy, r))
      && (Completes(w, legacy, r) <==>
          !r.crash.BeforeCommit? && !Transaction(Db(w.data, Idle), Body(w, legacy, r.readable), r.faults).1)
      && after.data == if Completes(w, legacy, r) then Imported(w, legacy, r.readable) else w.data
  {
    var legible := Legible(w.files, legacy, r.readable);
    var doc := if legible then legacy.load(legacy.parse(w.files[legacy.source]).value) else Done;
    ThenAppends(w.data, doc, SetMeta(ImportKey(legacy.marker), 1));
    KeyStays(w.data, doc, ImportKey(legacy.marker));
    OutermostIsAtomic(Db(w.data, Idle), Body(w, legacy, r.readable), r.faults);
  }

  /** What a start that goes through stores, in full: the load of a source that is
      there, readable and parses, and the marker, or the marker alone. */
  lemma WhatAStartStores(w: World, legacy: Legacy, r: Start)
    requires Loads(legacy) && ImportKey(legacy.marker) !in w.data.meta
    requires !r.crash.BeforeCommit? && r.faults.begins && r.faults.commit.Works?
    ensures var parsed := if legacy.source in w.files then legacy.parse(w.files[legacy.source]) else None;
      var code := if r.readable && parsed.Some? then legacy.load(parsed.value) else Done;
      var (e, failed) := Apply(w.data, code);
      Import(w, legacy, r).data ==
        if failed then w.data else Data(e.meta["import:" + legacy.marker := 1], e.ledger)
  {
    StartIsAtomic(w, legacy, r);
    hide Import, Transaction, Steady, LeavesAlone;
  }

  /** When a start retires the source: it ends, a name is free and the rename
      works; and either the import was done before, or this start loaded it. */
  lemma SourceIsRetiredIff(w: World, legacy: Legacy, r: Start)
    requires Loads(legacy) && legacy.source in w.files
    ensures var parsed := legacy.parse(w.files[legacy.source]);
      legacy.source !in Import(w, legacy, r).files <==>
        && r.crash.No? && r.renames && (exists k :: 1 <= k <= 99 && Candidate(legacy.source, k) !in w.files)
        && (ImportKey(legacy.marker) in w.data.meta
            || (r.readable && parsed.Some? && !Apply(w.data, legacy.load(parsed.value)).1
                && r.faults.begins && r.faults.commit.Works?))
  {
    RetireLosesNothing(w.files, legacy.source, r.renames);
    if !Marked(w.data, legacy.marker) {
      StartIsAtomic(w, legacy, r);
    }
    hide Retire, Transaction, Steady, LeavesAlone, FirstFree;
  }

  /** Between starts an older version of the program may write the source again. */
  datatype Event = Started(start: Start) | Regenerated(content: string)

  function Next(w: World, legacy: Legacy, e: Event): World {
    match e
    case Started(r) => Import(w, legacy, r)
    case Regenerated(content) => w.(files := w.files[legacy.source := content])
  }

  function History(w: World, legacy: Legacy, events: seq<Event>): World {
    if events == [] then w
    else Next(History(w, legacy, events[..|events| - 1]), legacy, events[|events| - 1])
  }

  /** Start number i is the one that completes the import, and `d` is what it leaves. */
  ghost predicate CompletesAt(w: World, legacy: Legacy, events: seq<Event>, i: nat, d: Data) {
    && i < |events| && events[i].Started?
    && var before := History(w, legacy, events[..i]);
      && before.data == w.data && Completes(before, legacy, events[i].start)
      && d == Imported(before, legacy, events[i].start.readable)
  }

  /** Over any starts, failures, crashes and regenerated sources: until one start
      completes nothing is stored, that start stores the load (if the source was
      legible then) and the marker, and no later start stores anything. */
  lemma {:induction false} LoadedExactlyOnce(w: World, legacy: Legacy, events: seq<Event>)
    requires Loads(legacy) && !Marked(w.data, legacy.marker)
    ensures var d := History(w, legacy, events).data;
      if Marked(d, legacy.marker) then exists i :: CompletesAt(w, legacy, events, i, d) else d == w.data
  {
    if events != [] {
      var n := |events| - 1;
      var init := events[..n];
      LoadedExactlyOnce(w, legacy, init);
      var before := History(w, legacy, init);
      var after := History(w, legacy, events);
      if Marked(before.data, legacy.marker) {
        var i: nat :| CompletesAt(w, legacy, init, i, before.data);
        assert init[..i] == events[..i];
        assert CompletesAt(w, legacy, events, i, after.data);
      } else if events[n].Started? {
        StartIsAtomic(before, legacy, events[n].start);
        if Marked(after.data, legacy.marker) {
          assert CompletesAt(w, legacy, events, n, after.data);
        }
      }
    }
  }

  /** And no file but the source itself is ever changed: backups stay. */
  lemma {:induction false} BackupsStay(w: World, legacy: Legacy, events: seq<Event>, n: string)
    requires n in w.files && n != legacy.source
    ensures var files := History(w, legacy, events).files; n in files && files[n] == w.files[n]
  {
    if events != [] {
      BackupsStay(w, legacy, events[..|events| - 1], n);
    }
  }

  /** A start keeps the source's content under some name, also when it crashes. */
  lemma ContentIsKept(w: World, legacy: Legacy, r: Start)
    requires legacy.source in w.files
    ensures var files := Import(w, legacy, r).files;
      exists n :: n in files && files[n] == w.files[legacy.source] && (n == legacy.source || n !in w.files)
  {
  }
}
