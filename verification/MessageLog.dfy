/** The persisted message log over whole runs: batches, patches and restarts,
    any of which may fail. */
module MessageLog {
  import opened Wrappers
  import opened MessageTable

  // ---- Runs ----

  /** `ok` says whether the transaction committed, `seed` what the restarted
      store's counter was set to. */
  datatype Event =
    | Append(rows: seq<Input>, ok: bool)
    | Update(patches: seq<Patch>, ok: bool)
    | Restart(seed: nat)

  datatype State = State(table: Table, counter: nat)

  function AppendTo(s: State, rows: seq<Input>): State {
    var b := Clean(Capped(rows));
    if b.order == [] then s
    else State(Newest(UpsertAll(s.table, b, s.counter), MAX_ROWS), s.counter + |b.order|)
  }

  function Step(s: State, e: Event): State {
    match e
    case Append(rows, ok) => if ok then AppendTo(s, rows) else s
    case Update(patches, ok) => if ok then s.(table := Patched(s.table, patches)) else s
    case Restart(seed) => s.(counter := seed)
  }

  /** The log that never prunes; `counter` is the store's. */
  function StepAll(all: Table, counter: nat, e: Event): Table {
    match e
    case Append(rows, ok) => if ok then UpsertAll(all, Clean(Capped(rows)), counter) else all
    case Update(patches, ok) => if ok then Patched(all, patches) else all
    case Restart(_) => all
  }

  /** What the callers owe: rows that are new or still there, once the batch is
      cut to its newest 1000, and a restart that could read the greatest number. */
  ghost predicate Admissible(s: State, all: Table, e: Event) {
    match e
    case Append(rows, ok) => FreshOrKept(s.table, all, Clean(Capped(rows)))
    case Update(patches, ok) => true
    case Restart(seed) => Seeded(s.table, true, seed)
  }

  function Run(s: State, events: seq<Event>): State {
    if events == [] then s else Step(Run(s, events[..|events| - 1]), events[|events| - 1])
  }

  function RunAll(s: State, all: Table, events: seq<Event>): Table {
    if events == [] then all
    else
      var init := events[..|events| - 1];
      StepAll(RunAll(s, all, init), Run(s, init).counter, events[|events| - 1])
  }

  ghost predicate AllAdmissible(s: State, all: Table, events: seq<Event>) {
    events == [] ||
    var init := events[..|events| - 1];
    AllAdmissible(s, all, init) && Admissible(Run(s, init), RunAll(s, all, init), events[|events| - 1])
  }

  /** The table holds the 500 newest rows ever appended, under distinct numbers. */
  ghost predicate Faithful(s: State, all: Table) {
    IsTop(s.table, all, MAX_ROWS) && Numbered(s.table, s.counter)
  }

  // ---- Pruning batch by batch equals pruning once ----

  lemma {:induction false} PatchesAgree(t: Table, all: Table, patches: seq<Patch>)
    requires t.Keys <= all.Keys && forall u :: u in t ==> t[u] == all[u]
    ensures var p, q := Patched(t, patches), Patched(all, patches);
      p.Keys <= q.Keys && forall u :: u in p ==> p[u] == q[u]
  {
    if patches != [] {
      PatchesAgree(t, all, patches[..|patches| - 1]);
    }
  }

  lemma SamePlacesSameTop(t: Table, all: Table, p: Table, q: Table, k: nat)
    requires IsTop(t, all, k) && SamePlaces(t, p) && SamePlaces(all, q)
    requires forall u :: u in p ==> p[u] == q[u]
    ensures IsTop(p, q, k)
  {
  }

  lemma PatchesRefine(s: State, all: Table, patches: seq<Patch>)
    requires Faithful(s, all)
    ensures Faithful(s.(table := Patched(s.table, patches)), Patched(all, patches))
  {
    var p, q := Patched(s.table, patches), Patched(all, patches);
    PatchesMoveNothing(s.table, patches);
    PatchesMoveNothing(all, patches);
    PatchesAgree(s.table, all, patches);
    hide Patched, TopKeys;
    SamePlacesSameTop(s.table, all, p, q, MAX_ROWS);
    FewerNumbered(s.table, p, s.counter);
  }

  lemma StepRefines(s: State, all: Table, e: Event)
    requires Faithful(s, all) && Admissible(s, all, e)
    ensures Faithful(Step(s, e), StepAll(all, s.counter, e))
    ensures !e.Restart? && !e.ok ==> Step(s, e) == s
  {
    match e
    case Append(rows, ok) =>
      hide IsTop, Numbered, Newest;
      BatchRefines(s.table, all, s.counter, Clean(Capped(rows)));
    case Update(patches, ok) =>
      PatchesRefine(s, all, patches);
    case Restart(seed) =>
  }

  /** Over any run, with any commits failing, the table is what one prune of
      everything ever appended would leave. */
  lemma {:induction false} RunKeepsTheNewest(s: State, all: Table, events: seq<Event>)
    requires Faithful(s, all) && AllAdmissible(s, all, events)
    ensures Faithful(Run(s, events), RunAll(s, all, events))
  {
    if events != [] {
      var init := events[..|events| - 1];
      RunKeepsTheNewest(s, all, init);
      StepRefines(Run(s, init), RunAll(s, all, init), events[|events| - 1]);
    }
  }

  /** Even when rows no longer in the table carry a reused number, only one
      choice of k newest rows can be right: the one a prune makes. */
  lemma TopIsNewest(top: Table, t: Table, k: nat)
    requires IsTop(top, t, k)
    ensures top == Newest(t, k)
  {
    forall u | u in t ensures |Later(t, u)| < k <==> u in top {
      if u in top {
        assert Later(t, u) <= top.Keys - {u};
        SubsetSize(Later(t, u), top.Keys - {u});
      } else {
        assert top.Keys <= Later(t, u);
        SubsetSize(top.Keys, Later(t, u));
      }
    }
  }

  /** The same for a run from an empty table, as an equation: pruning after each
      batch equals one prune of everything ever appended. */
  lemma OnePruneAtTheEnd(events: seq<Event>)
    requires AllAdmissible(State(map[], 0), map[], events)
    ensures Run(State(map[], 0), events).table == Newest(RunAll(State(map[], 0), map[], events), 500)
  {
    var s, all := Run(State(map[], 0), events), RunAll(State(map[], 0), map[], events);
    RunKeepsTheNewest(State(map[], 0), map[], events);
    TopIsNewest(s.table, all, MAX_ROWS);
  }

  // ---- Restarts ----

  /** A failed read seeds the counter with 0; that is safe exactly when the table is empty. */
  lemma SeedIsSafe(t: Table, counter: nat, readOk: bool, seed: nat)
    requires Numbered(t, counter) && Seeded(t, readOk, seed)
    ensures Numbered(t, seed) <==> readOk || t == map[]
  {
  }

  /** After such a restart the next row can repeat a number. */
  lemma FailedSeedRepeatsANumber(t: Table, u: string, v: string, body: Body)
    requires u in t && t[u].seqNo == 1 && v !in t && |t.Keys| < MAX_ROWS
    ensures !DistinctSeqs(AppendTo(State(t, 0), [Usable(v, t[u].createdAt, body)]).table)
  {
    var row := Usable(v, t[u].createdAt, body);
    var grown := Upsert(t, row, 1);
    OneRow(t, row);
    SmallTableKeepsAll(grown) by {
      assert grown.Keys == t.Keys + {v};
    }
    hide AppendTo, Newest;
    assert grown[u].seqNo == grown[v].seqNo;
  }

  lemma OneRow(t: Table, row: Input)
    requires row.Usable?
    ensures AppendTo(State(t, 0), [row]).table == Newest(Upsert(t, row, 1), MAX_ROWS)
  {
    var b := Batch([row.uid], map[row.uid := row]);
    CleanOne(row);
    assert UpsertAll(t, b.(order := b.order[..|b.order| - 1]), 0) == t;
    hide Clean, Newest;
  }

  lemma CleanOne(row: Input)
    requires row.Usable?
    ensures Clean([row]) == Batch([row.uid], map[row.uid := row])
  {
  }

  lemma SmallTableKeepsAll(t: Table)
    requires |t.Keys| <= MAX_ROWS
    ensures Newest(t, MAX_ROWS) == t
  {
    forall u | u in t ensures |Later(t, u)| < MAX_ROWS {
      SubsetSize(Later(t, u), t.Keys - {u});
    }
  }

  // ---- tail ----

  ghost predicate InOrder(order: seq<string>, t: Table) {
    && (forall i :: 0 <= i < |order| ==> order[i] in t)
    && forall i, j :: 0 <= i < j < |order| ==> Earlier(t[order[i]], t[order[j]])
  }

  ghost function KeysOf(order: seq<string>): set<string> { set u | u in order }

  /** Rows a sequence of patches touched: one per patch that writes a field of
      a row that exists. */
  function Touched(t: Table, patches: seq<Patch>): nat {
    if patches == [] then 0
    else
      var init, p := patches[..|patches| - 1], patches[|patches| - 1];
      var writes := p.status.Some? || p.reason.Some? || p.deliveredAt.Some?;
      Touched(t, init) + if p.uid != "" && writes && p.uid in Patched(t, init) then 1 else 0
  }

  /** The last n rows, newest last. */
  ghost predicate IsTail(order: seq<string>, t: Table, n: nat) {
    InOrder(order, t) && TopKeys(KeysOf(order), t, n)
  }

  /** A tail is in order of creation, and of insertion where that is equal, and a
      row left out is before all of it. */
  lemma TailInPlainTerms(order: seq<string>, t: Table, n: nat, i: nat, older: string)
    requires IsTail(order, t, n) && i < |order|
    ensures order[i] in t
    ensures forall j :: i < j < |order| ==> order[j] in t && t[order[i]].createdAt <= t[order[j]].createdAt
    ensures forall j :: i < j < |order| && t[order[i]].createdAt == t[order[j]].createdAt ==>
      t[order[i]].seqNo < t[order[j]].seqNo
    ensures older in t && older !in order ==>
      (t[older].createdAt < t[order[i]].createdAt
       || (t[older].createdAt == t[order[i]].createdAt && t[older].seqNo < t[order[i]].seqNo))
  {
    assert order[i] in KeysOf(order);
    if older in t && older !in order {
      assert older in t.Keys - KeysOf(order);
    }
  }

  /** A tail of the table is a tail of everything ever appended. */
  lemma TailIsOfTheWholeLog(order: seq<string>, s: State, all: Table, n: nat)
    requires Faithful(s, all) && n <= MAX_ROWS && IsTail(order, s.table, n)
    ensures IsTail(order, all, n)
  {
  }

  lemma EmptyHasNoKeys(order: seq<string>)
    ensures KeysOf(order) == {} <==> order == []
  {
    if order != [] {
      assert order[0] in KeysOf(order);
    }
  }

  /** There is only one tail. */
  lemma {:induction false} OrderIsUnique(a: seq<string>, b: seq<string>, t: Table)
    requires InOrder(a, t) && InOrder(b, t) && KeysOf(a) == KeysOf(b)
    ensures a == b
  {
    if a == [] {
      EmptyHasNoKeys(b);
    } else {
      EmptyHasNoKeys(a);
      EmptyHasNoKeys(b);
      LastIsLatest(a, b, t);
      DropLast(a, t);
      DropLast(b, t);
      hide InOrder, KeysOf, Earlier;
      OrderIsUnique(a[..|a| - 1], b[..|b| - 1], t);
      assert a == a[..|a| - 1] + [a[|a| - 1]] && b == b[..|b| - 1] + [a[|a| - 1]];
    }
  }

  lemma LastIsLatest(a: seq<string>, b: seq<string>, t: Table)
    requires a != [] && b != [] && InOrder(a, t) && InOrder(b, t) && KeysOf(a) == KeysOf(b)
    ensures a[|a| - 1] == b[|b| - 1]
  {
    assert a[|a| - 1] in KeysOf(b) && b[|b| - 1] in KeysOf(a);
  }

  lemma DropLast(a: seq<string>, t: Table)
    requires a != [] && InOrder(a, t)
    ensures InOrder(a[..|a| - 1], t) && KeysOf(a[..|a| - 1]) == KeysOf(a) - {a[|a| - 1]}
  {
  }

  /** Sending rows again that are all still there changes nothing. */
  lemma ResendingChangesNothing(s: State, rows: seq<Input>)
    requires Numbered(s.table, s.counter) && |s.table.Keys| <= MAX_ROWS
    requires var b := Clean(Capped(rows)); forall u :: u in b.order ==>
      u in s.table && s.table[u] == Row(b.rows[u].createdAt, s.table[u].seqNo, b.rows[u].body)
    ensures AppendTo(s, rows).table == s.table && Numbered(s.table, AppendTo(s, rows).counter)
  {
    var b := Clean(Capped(rows));
    UpsertAllEffect(s.table, b, s.counter);
    NothingNew(s.table, b, s.counter, UpsertAll(s.table, b, s.counter));
    hide UpsertAll, Effect, Later;
    SmallTableKeepsAll(s.table);
  }

  lemma NothingNew(t: Table, b: Batch, counter: nat, r: Table)
    requires Effect(t, b, counter, r)
    requires forall u :: u in b.order ==> u in b.rows && b.rows[u].Usable?
    requires forall u :: u in b.order ==> u in t && t[u] == Row(b.rows[u].createdAt, t[u].seqNo, b.rows[u].body)
    ensures r == t
  {
  }
}
