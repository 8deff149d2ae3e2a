/** The generation-guarded scan cache: callers, refresh tasks and root changes
    interleave; code between two awaits runs as one step. */
module ScanCache {
  import opened Wrappers

  const CACHE_SECONDS: real := 60.0

  /** The roots a user configured, as one value. */
  type Roots = string

  /** A scan result: the roots it was computed from, and the generation they
      belonged to when they were read. */
  datatype Raw = Raw(roots: Roots, readAt: nat)

  /** A refresh task: scheduled under a generation, then running its steps. */
  datatype Phase =
    | Scheduled
    | Begun(generation: nat)
    | RootsRead(generation: nat, raw: Raw)
    | Finished(result: Option<Raw>)

  datatype Task = Task(scheduledAt: nat, phase: Phase)

  datatype Service = Service(
    roots: Roots, generation: nat,
    cache: Option<(real, Raw)>,
    inflight: Option<nat>, inflightGeneration: nat,
    tasks: seq<Task>)

  /** What a caller of `scan` gets right away: a cached result, or a task to wait
      for. */
  datatype Answer = Served(raw: Raw) | Waits(task: nat)

  function RootsSet(s: Service, roots: Roots): Service {
    s.(roots := roots, generation := s.generation + 1, cache := None)
  }

  predicate ServesCached(s: Service, force: bool, now: real) {
    !force && s.cache.Some? && (now - s.cache.value.0 < CACHE_SECONDS || s.inflight.Some?)
  }

  function Scan(s: Service, force: bool, now: real): (Service, Answer) {
    if ServesCached(s, force, now) then (s, Served(s.cache.value.1))
    else if s.inflight.None? || s.inflightGeneration != s.generation then
      var id := |s.tasks|;
      (s.(inflightGeneration := s.generation, inflight := Some(id), tasks := s.tasks + [Task(s.generation, Scheduled)]),
       Waits(id))
    else (s, Waits(s.inflight.value))
  }

  function Begin(s: Service, id: nat): Service
    requires id < |s.tasks|
  {
    if s.tasks[id].phase.Scheduled? then s.(tasks := s.tasks[id := s.tasks[id].(phase := Begun(s.generation))]) else s
  }

  function ReadRoots(s: Service, id: nat): Service
    requires id < |s.tasks|
  {
    match s.tasks[id].phase
    case Begun(g) => s.(tasks := s.tasks[id := s.tasks[id].(phase := RootsRead(g, Raw(s.roots, s.generation)))])
    case _ => s
  }

  /** The end of `_refresh`, whether the scan succeeded or raised. */
  function Finish(s: Service, id: nat, now: real, ok: bool): Service
    requires id < |s.tasks|
  {
    match s.tasks[id].phase
    case RootsRead(g, raw) =>
      s.(cache := if ok && g == s.generation then Some((now, raw)) else s.cache,
         inflight := if s.inflightGeneration == g then None else s.inflight,
         tasks := s.tasks[id := s.tasks[id].(phase := Finished(if ok then Some(raw) else None))])
    case _ => s
  }

  datatype Event =
    | SetRoots(newRoots: Roots)
    | Call(force: bool, calledAt: real)
    | BeginTask(id: nat)
    | ReadTask(id: nat)
    | FinishTask(id: nat, finishedAt: real, ok: bool)

  function Step(s: Service, e: Event): Service {
    match e
    case SetRoots(roots) => RootsSet(s, roots)
    case Call(force, now) => Scan(s, force, now).0
    case BeginTask(id) => if id < |s.tasks| then Begin(s, id) else s
    case ReadTask(id) => if id < |s.tasks| then ReadRoots(s, id) else s
    case FinishTask(id, now, ok) => if id < |s.tasks| then Finish(s, id, now, ok) else s
  }

  /** `trace[i]` is the service before the i-th event. */
  ghost predicate IsRun(trace: seq<Service>, events: seq<Event>) {
    && |trace| == |events| + 1
    && trace[0].generation == 0 && trace[0].cache.None? && trace[0].inflight.None? && trace[0].inflightGeneration == 0
    && trace[0].tasks == []
    && forall i :: 0 <= i < |events| ==> trace[i + 1] == Step(trace[i], events[i])
  }

  // ---- What every step keeps ----

  /** A result read under the current generation was computed from the current
      roots. */
  ghost predicate RawOk(s: Service, raw: Raw) {
    raw.readAt <= s.generation && (raw.readAt == s.generation ==> raw.roots == s.roots)
  }

  ghost predicate TaskOk(s: Service, t: Task) {
    t.scheduledAt <= s.generation &&
    match t.phase
    case Scheduled => true
    case Begun(g) => t.scheduledAt <= g <= s.generation
    case RootsRead(g, raw) => t.scheduledAt <= g <= raw.readAt && RawOk(s, raw)
    case Finished(result) => result.Some? ==> t.scheduledAt <= result.value.readAt && RawOk(s, result.value)
  }

  ghost predicate Coherent(s: Service) {
    && (s.cache.Some? ==> s.cache.value.1.readAt == s.generation && s.cache.value.1.roots == s.roots)
    && (forall id :: 0 <= id < |s.tasks| ==> TaskOk(s, s.tasks[id]))
    && s.inflightGeneration <= s.generation
    && (s.inflight.Some? ==>
          && s.inflight.value < |s.tasks|
          && s.tasks[s.inflight.value].scheduledAt == s.inflightGeneration)
  }

  lemma CallKeepsCoherent(s: Service, force: bool, now: real)
    requires Coherent(s)
    ensures Coherent(Scan(s, force, now).0)
  {
    var t := Scan(s, force, now).0;
    forall id | 0 <= id < |t.tasks| ensures TaskOk(t, t.tasks[id]) {
      if id < |s.tasks| {
        assert TaskOk(s, s.tasks[id]);
      }
    }
  }

  lemma StepKeepsCoherent(s: Service, e: Event)
    requires Coherent(s)
    ensures Coherent(Step(s, e))
  {
    match e
    case SetRoots(roots) =>
      forall id | 0 <= id < |s.tasks| ensures TaskOk(RootsSet(s, roots), s.tasks[id]) {
        assert TaskOk(s, s.tasks[id]);
      }
    case Call(force, now) => CallKeepsCoherent(s, force, now);
    case BeginTask(id) =>
    case ReadTask(id) =>
    case FinishTask(id, now, ok) =>
  }

  /** Over any interleaving a cached result was computed from the roots that are
      configured now. */
  lemma {:induction false} CacheIsCoherent(trace: seq<Service>, events: seq<Event>, i: nat)
    requires IsRun(trace, events) && i < |trace|
    ensures Coherent(trace[i])
    ensures trace[i].cache.Some? ==> trace[i].cache.value.1.roots == trace[i].roots
  {
    if i > 0 {
      CacheIsCoherent(trace, events, i - 1);
      assert trace[i - 1 + 1] == Step(trace[i - 1], events[i - 1]);
      StepKeepsCoherent(trace[i - 1], events[i - 1]);
    }
  }

  lemma {:induction false} TasksStay(trace: seq<Service>, events: seq<Event>, i: nat, j: nat, id: nat)
    requires IsRun(trace, events) && i <= j < |trace| && id < |trace[i].tasks|
    ensures id < |trace[j].tasks| && trace[j].tasks[id].scheduledAt == trace[i].tasks[id].scheduledAt
    ensures trace[i].tasks[id].phase.Finished? ==> trace[j].tasks[id] == trace[i].tasks[id]
  {
    if i < j {
      TasksStay(trace, events, i, j - 1, id);
      assert trace[j - 1 + 1] == Step(trace[j - 1], events[j - 1]);
    }
  }

  /** A caller that waits receives a result whose roots were read no earlier than
      the generation at its call; a caller that does not wait gets one computed
      from the roots of that very moment. */
  lemma AnswersAreCurrent(trace: seq<Service>, events: seq<Event>, i: nat, j: nat)
    requires IsRun(trace, events) && i < j < |trace| && events[i].Call?
    ensures match Scan(trace[i], events[i].force, events[i].calledAt).1
      case Served(raw) => raw.roots == trace[i].roots && raw.readAt == trace[i].generation
      case Waits(id) =>
        && id < |trace[j].tasks|
        && var phase := trace[j].tasks[id].phase;
           phase.Finished? && phase.result.Some? ==> phase.result.value.readAt >= trace[i].generation
  {
    CacheIsCoherent(trace, events, i);
    CacheIsCoherent(trace, events, i + 1);
    CacheIsCoherent(trace, events, j);
    assert trace[i + 1] == Step(trace[i], events[i]);
    match Scan(trace[i], events[i].force, events[i].calledAt).1
    case Served(raw) =>
    case Waits(id) =>
      assert trace[i + 1].tasks[id].scheduledAt == trace[i].generation;
      TasksStay(trace, events, i + 1, j, id);
      assert TaskOk(trace[j], trace[j].tasks[id]);
  }

  // ---- Which result a call is served ----

  /** The m-th event of a run is a task ending well under the roots it began with. */
  ghost predicate Caches(trace: seq<Service>, events: seq<Event>, m: nat, at: real, raw: Raw)
    requires |trace| == |events| + 1 && m < |events|
  {
    && events[m].FinishTask? && events[m].ok && events[m].finishedAt == at
    && events[m].id < |trace[m].tasks|
    && trace[m].tasks[events[m].id].phase == RootsRead(trace[m].generation, raw)
  }

  /** The latest such event before the i-th, with no change of roots since. */
  ghost predicate LastCached(trace: seq<Service>, events: seq<Event>, m: nat, i: nat, at: real, raw: Raw)
    requires |trace| == |events| + 1 && i < |trace|
  {
    && m < i && Caches(trace, events, m, at, raw)
    && (forall k: nat :: m < k < i ==> !events[k].SetRoots?)
    && forall k: nat, later, other :: m < k < i ==> !Caches(trace, events, k, later, other)
  }

  lemma OneStepOfCache(trace: seq<Service>, events: seq<Event>, i: nat, at: real, raw: Raw)
    requires IsRun(trace, events) && i < |events|
    ensures trace[i + 1].cache == Some((at, raw)) <==>
      Caches(trace, events, i, at, raw)
      || (trace[i].cache == Some((at, raw)) && !events[i].SetRoots?
          && forall later, other :: !Caches(trace, events, i, later, other))
  {
    assert trace[i + 1] == Step(trace[i], events[i]);
    var e, s := events[i], trace[i];
    if e.FinishTask? && e.id < |s.tasks| && s.tasks[e.id].phase.RootsRead? {
      var phase := s.tasks[e.id].phase;
      assert Caches(trace, events, i, e.finishedAt, phase.raw) <==> e.ok && phase.generation == s.generation;
    }
  }

  /** The cache holds the latest result that was scanned under the present roots. */
  lemma {:induction false} CacheIsLastResult(trace: seq<Service>, events: seq<Event>, i: nat, at: real, raw: Raw)
    requires IsRun(trace, events) && i < |trace|
    ensures trace[i].cache == Some((at, raw)) <==> exists m: nat :: LastCached(trace, events, m, i, at, raw)
  {
    if i > 0 {
      hide Caches, Step;
      var j := i - 1;
      CacheIsLastResult(trace, events, j, at, raw);
      OneStepOfCache(trace, events, j, at, raw);
      if Caches(trace, events, j, at, raw) {
        assert LastCached(trace, events, j, i, at, raw);
      }
      if m: nat :| LastCached(trace, events, m, j, at, raw) {
        if trace[i].cache == Some((at, raw)) && !Caches(trace, events, j, at, raw) {
          assert LastCached(trace, events, m, i, at, raw);
        }
      }
      if m: nat :| LastCached(trace, events, m, i, at, raw) {
        assert m == j || LastCached(trace, events, m, j, at, raw);
      }
    }
  }

  /** A call gets a result at once exactly when it does not force a scan and the
      latest result under the present roots is less than a minute old, or a scan
      is under way. Otherwise it waits: for the slot's task if that was started
      under the present generation of roots, else for a new one. */
  lemma AnswerIsExact(trace: seq<Service>, events: seq<Event>, i: nat, raw: Raw)
    requires IsRun(trace, events) && i < |events| && events[i].Call?
    ensures Scan(trace[i], events[i].force, events[i].calledAt).1 == Served(raw) <==>
      && !events[i].force
      && exists m: nat, at :: LastCached(trace, events, m, i, at, raw)
           && (events[i].calledAt - at < 60.0 || trace[i].inflight.Some?)
    ensures Scan(trace[i], events[i].force, events[i].calledAt).1.Served? ==> trace[i + 1] == trace[i]
    ensures var s, answer := trace[i], Scan(trace[i], events[i].force, events[i].calledAt).1;
      answer.Waits? ==>
        if s.inflight.Some? && s.inflightGeneration == s.generation then
          answer.task == s.inflight.value && trace[i + 1] == s
        else
          && answer.task == |s.tasks| && trace[i + 1].tasks == s.tasks + [Task(s.generation, Scheduled)]
          && trace[i + 1].inflight == Some(|s.tasks|) && trace[i + 1].cache == s.cache
  {
    assert trace[i + 1] == Step(trace[i], events[i]);
    var cache := trace[i].cache;
    if cache.Some? {
      CacheIsLastResult(trace, events, i, cache.value.0, cache.value.1);
    }
    forall m: nat, at | LastCached(trace, events, m, i, at, raw) ensures cache == Some((at, raw)) {
      CacheIsLastResult(trace, events, i, at, raw);
    }
    hide LastCached;
  }

  // ---- The task slot ----

  /** The slot callers join holds a task that can still finish. */
  ghost predicate SlotIsLive(s: Service) {
    s.inflight.Some? ==> s.inflight.value < |s.tasks| && !s.tasks[s.inflight.value].phase.Finished?
  }

  /** Roots changed between this task's scheduling and its first step. */
  predicate Overtaken(s: Service, e: Event) {
    e.FinishTask? && s.inflight == Some(e.id) && e.id < |s.tasks| && s.tasks[e.id].phase.RootsRead?
      && s.tasks[e.id].phase.generation != s.tasks[e.id].scheduledAt
  }

  /** A step leaves a finished task in the slot exactly when the slot's task was
      overtaken by a change of roots before it began. */
  lemma SlotStaysLive(s: Service, e: Event)
    requires Coherent(s) && SlotIsLive(s)
    ensures SlotIsLive(Step(s, e)) <==> !Overtaken(s, e)
  {
  }

  function After(s: Service, events: seq<Event>): Service {
    if events == [] then s else Step(After(s, events[..|events| - 1]), events[|events| - 1])
  }

  /** Nobody forces a scan or changes the roots. */
  predicate Quiet(e: Event) { !e.SetRoots? && (e.Call? ==> !e.force) }

  predicate AllQuiet(events: seq<Event>) { forall i :: 0 <= i < |events| ==> Quiet(events[i]) }

  /** This task, once it finishes, empties the slot: it runs under the slot's
      generation, or would if it began now. */
  predicate CanClear(s: Service, id: nat) {
    && id < |s.tasks|
    && match s.tasks[id].phase
       case Scheduled => s.generation == s.inflightGeneration
       case Begun(g) => g == s.inflightGeneration
       case RootsRead(g, _) => g == s.inflightGeneration
       case Finished(_) => false
  }

  /** Calls are answered from the cache and no task can empty the slot. */
  ghost predicate Frozen(s: Service) {
    s.cache.Some? && s.inflight.Some? && forall id: nat :: !CanClear(s, id)
  }

  lemma FrozenStep(s: Service, e: Event)
    requires Frozen(s) && Quiet(e)
    ensures var t := Step(s, e); Frozen(t) && t.inflight == s.inflight && |t.tasks| == |s.tasks|
    ensures (forall id :: 0 <= id < |s.tasks| ==> s.tasks[id].phase.Finished?) ==> Step(s, e) == s
  {
    var t := Step(s, e);
    if e.FinishTask? {
      assert !CanClear(s, e.id);
    }
    forall id: nat ensures !CanClear(t, id) {
      assert !CanClear(s, id);
    }
  }

  /** From a frozen state, whatever unforced calls and task steps follow, every
      call is answered from the cache, at whatever age, and none starts a
      refresh; once all tasks have finished nothing changes any more, so every
      answer is the same. */
  lemma {:induction false} StaleForever(s: Service, events: seq<Event>, now: real)
    requires Frozen(s) && AllQuiet(events)
    ensures var t := After(s, events);
      && Frozen(t) && t.inflight == s.inflight && |t.tasks| == |s.tasks|
      && Scan(t, false, now) == (t, Served(t.cache.value.1))
      && ((forall id :: 0 <= id < |s.tasks| ==> s.tasks[id].phase.Finished?) ==> t == s)
  {
    if events != [] {
      var init := events[..|events| - 1];
      StaleForever(s, init, now);
      FrozenStep(After(s, init), events[|events| - 1]);
    }
  }

  /** The way out: the task's remaining steps. */
  lemma ClearingRun(s: Service, id: nat) returns (events: seq<Event>)
    requires CanClear(s, id)
    ensures AllQuiet(events) && After(s, events).inflight.None?
  {
    events := [BeginTask(id), ReadTask(id), FinishTask(id, 0.0, false)];
    var s1 := Step(s, events[0]);
    var s2 := Step(s1, events[1]);
    assert events[..2] == [BeginTask(id), ReadTask(id)];
    assert events[..2][..1] == [BeginTask(id)] && events[..2][..1][..0] == [];
    assert After(s, events[..2][..1]) == s1;
    assert After(s, events[..2]) == s2;
    assert After(s, events) == Step(s2, events[2]);
  }

  /** With a result cached and a task in the slot, unforced calls and task steps
      can empty the slot if and only if some unfinished task runs under its
      generation. */
  lemma SlotCanBeFreedIff(s: Service)
    requires s.cache.Some? && s.inflight.Some?
    ensures (exists events :: AllQuiet(events) && After(s, events).inflight.None?) <==>
      exists id: nat :: CanClear(s, id)
  {
    if id: nat :| CanClear(s, id) {
      var events := ClearingRun(s, id);
    } else {
      forall events | AllQuiet(events) ensures After(s, events).inflight.Some? {
        StaleForever(s, events, 0.0);
      }
    }
  }

  /** A frozen state is reachable: one call, a change of roots, then the task's
      steps. */
  lemma OvertakenRun(start: Service, roots: Roots, now: real) returns (events: seq<Event>, trace: seq<Service>)
    requires start == Service(start.roots, 0, None, None, 0, [])
    ensures IsRun(trace, events) && trace[0] == start && |events| == 5
    ensures var s := trace[5];
      && !SlotIsLive(s) && Frozen(s)
      && forall id :: 0 <= id < |s.tasks| ==> s.tasks[id].phase.Finished?
  {
    events := [Call(false, now), SetRoots(roots), BeginTask(0), ReadTask(0), FinishTask(0, now, true)];
    var s1 := Step(start, events[0]);
    var s2 := Step(s1, events[1]);
    var s3 := Step(s2, events[2]);
    var s4 := Step(s3, events[3]);
    var s5 := Step(s4, events[4]);
    trace := [start, s1, s2, s3, s4, s5];
    assert s1.tasks == [Task(0, Scheduled)];
    assert s3.tasks == [Task(0, Begun(1))];
    assert s4.tasks == [Task(0, RootsRead(1, Raw(roots, 1)))];
    assert s5.tasks == [Task(0, Finished(Some(Raw(roots, 1))))];
  }

  // ---- The service object ----

  class CredentialsService {
    var roots: Roots
    var generation: nat
    var cache: Option<(real, Raw)>
    var inflight: Option<nat>
    var inflightGeneration: nat
    var tasks: seq<Task>

    ghost function Value(): Service
      reads this
    {
      Service(roots, generation, cache, inflight, inflightGeneration, tasks)
    }

    constructor (roots: Roots)
      ensures Value() == Service(roots, 0, None, None, 0, [])
    {
      this.roots, generation, cache, inflight, inflightGeneration, tasks := roots, 0, None, None, 0, [];
    }

    method SetUserRoots(newRoots: Roots)
      modifies this
      ensures Value() == RootsSet(old(Value()), newRoots)
    {
      roots := newRoots;
      generation := generation + 1;
      cache := None;
    }

    method RequestScan(force: bool, now: real) returns (answer: Answer)
      modifies this
      ensures (Value(), answer) == Scan(old(Value()), force, now)
    {
      var cached := cache;
      var isFresh := cached.Some? && now - cached.value.0 < CACHE_SECONDS;
      if !force && cached.Some? && (isFresh || inflight.Some?) {
        return Served(cached.value.1);
      }
      if inflight.None? || inflightGeneration != generation {
        inflightGeneration := generation;
        inflight := Some(|tasks|);
        tasks := tasks + [Task(generation, Scheduled)];
      }
      answer := Waits(inflight.value);
    }

    method BeginRefresh(id: nat)
      requires id < |tasks|
      modifies this
      ensures Value() == Begin(old(Value()), id)
    {
      if tasks[id].phase.Scheduled? {
        tasks := tasks[id := tasks[id].(phase := Begun(generation))];
      }
    }

    method ReadUserRoots(id: nat)
      requires id < |tasks|
      modifies this
      ensures Value() == ReadRoots(old(Value()), id)
    {
      if tasks[id].phase.Begun? {
        tasks := tasks[id := tasks[id].(phase := RootsRead(tasks[id].phase.generation, Raw(roots, generation)))];
      }
    }

    method FinishRefresh(id: nat, now: real, ok: bool)
      requires id < |tasks|
      modifies this
      ensures Value() == Finish(old(Value()), id, now, ok)
    {
      if !tasks[id].phase.RootsRead? {
        return;
      }
      var started, raw := tasks[id].phase.generation, tasks[id].phase.raw;
      if ok && started == generation {
        cache := Some((now, raw));
      }
      tasks := tasks[id := tasks[id].(phase := Finished(if ok then Some(raw) else None))];
      if inflightGeneration == started {
        inflight := None;
      }
    }
  }
}
