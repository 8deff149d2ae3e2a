/** Disk findings of one scanned root: what each sample does to the inventory and
    the signals, and what a signal therefore says about the history of scans. */
module DiskRisk {
  import opened Wrappers

  const MIB100: nat := 100 * 1024 * 1024
  const DAY: int := 86400

  datatype File = File(size: nat, opaqueContent: bool)

  datatype Sample = Sample(now: int, successful: bool, files: map<string, File>)

  /** `flagged` maps a size class to the time the path was last seen to vanish. */
  datatype Entry = Entry(present: bool, firstSeen: Option<int>, flagged: map<nat, Option<int>>)

  datatype Signal = Signal(active: bool, red: bool, firstObserved: int, lastObserved: int, bytes: nat)

  datatype Availability = Availability(successful: bool, observedAt: int, lastSuccess: Option<int>)

  type SignalKey = (string, nat)

  datatype Store = Store(
    scanned: bool, inventory: map<string, Entry>, signals: map<SignalKey, Signal>,
    availability: Option<Availability>)

  const EMPTY := Store(false, map[], map[], None)

  function SizeClass(f: File): nat { f.size / MIB100 }

  // ---- One sample ----

  function Observed(a: Option<Availability>, s: Sample): Availability {
    Availability(s.successful, s.now,
                 if s.successful then Some(s.now) else if a.Some? then a.value.lastSuccess else None)
  }

  function Gone(e: Entry, now: int): Entry {
    if e.present then Entry(false, e.firstSeen, map c | c in e.flagged :: Some(now)) else e
  }

  function Present(e: Option<Entry>, scanned: bool, now: int): Entry {
    match e
    case None => Entry(true, if scanned then Some(now) else None, map[])
    case Some(entry) => if entry.present then entry else entry.(present := true, firstSeen := Some(now))
  }

  predicate IsActive(signals: map<SignalKey, Signal>, k: SignalKey) { k in signals && signals[k].active }

  predicate Recent(firstSeen: Option<int>, now: int) { firstSeen.Some? && 0 <= now - firstSeen.value <= DAY }

  predicate Flags(f: File, e: Entry, wasActive: bool, now: int) {
    f.size > MIB100 && f.opaqueContent && (Recent(e.firstSeen, now) || wasActive)
  }

  function WithFlag(e: Entry, c: nat): Entry {
    if c in e.flagged then e else e.(flagged := e.flagged[c := None])
  }

  function Raise(signals: map<SignalKey, Signal>, k: SignalKey, e: Entry, f: File, now: int): Signal
    requires k.1 in e.flagged
  {
    var was := IsActive(signals, k);
    Signal(true, e.flagged[k.1].Some? || (was && signals[k].red),
           if was then signals[k].firstObserved else now, now, f.size)
  }

  /** The entry of a path the scan found, before and after it is flagged. */
  function Found(s: Store, p: string, now: int): Entry { Present(Lookup(s.inventory, p), s.scanned, now) }

  predicate Raises(s: Store, p: string, f: File, now: int) {
    Flags(f, Found(s, p, now), IsActive(s.signals, (p, SizeClass(f))), now)
  }

  function FoundEntry(s: Store, p: string, f: File, now: int): Entry {
    if Raises(s, p, f, now) then WithFlag(Found(s, p, now), SizeClass(f)) else Found(s, p, now)
  }

  /** The keys that a scan's files raise. */
  function RaisedKeys(s: Store, sample: Sample): (r: set<SignalKey>)
    ensures forall p, c :: (p, c) in r <==>
      p in sample.files && c == SizeClass(sample.files[p]) && Raises(s, p, sample.files[p], sample.now)
  {
    set p | p in sample.files && Raises(s, p, sample.files[p], sample.now) :: (p, SizeClass(sample.files[p]))
  }

  function SignalsAfter(s: Store, sample: Sample): map<SignalKey, Signal> {
    map k | k in s.signals.Keys + RaisedKeys(s, sample) ::
      if k in RaisedKeys(s, sample)
      then Raise(s.signals, k, FoundEntry(s, k.0, sample.files[k.0], sample.now), sample.files[k.0], sample.now)
      else s.signals[k].(active := false)
  }

  function InventoryAfter(s: Store, sample: Sample): map<string, Entry> {
    map p | p in s.inventory.Keys + sample.files.Keys ::
      if p in sample.files then FoundEntry(s, p, sample.files[p], sample.now) else Gone(s.inventory[p], sample.now)
  }

  function Apply(s: Store, sample: Sample): Store {
    var a := Some(Observed(s.availability, sample));
    if !sample.successful then s.(availability := a)
    else Store(true, InventoryAfter(s, sample), SignalsAfter(s, sample), a)
  }

  // ---- What a signal means, in terms of the scans alone ----

  /** What one scan saw of one path. */
  datatype Look = Look(now: int, file: Option<File>)

  function Last(t: seq<Look>): Look
    requires t != []
  {
    t[|t| - 1]
  }

  function Init(t: seq<Look>): seq<Look>
    requires t != []
  {
    t[..|t| - 1]
  }

  /** When the path's current stretch of presence began, if a scan saw it begin. */
  function Appeared(t: seq<Look>): Option<int>
    requires t != []
  {
    if |t| == 1 then None
    else if Last(Init(t)).file.None? then Some(Last(t).now)
    else Appeared(Init(t))
  }

  /** The last scan shows an opaque file of more than 100 MiB, of this size class,
      that appeared within a day, or that was raised by the scan before. */
  predicate Raised(t: seq<Look>, c: nat) {
    && t != []
    && Last(t).file.Some?
    && var f := Last(t).file.value;
      && f.size > 104857600 && f.opaqueContent && f.size / 104857600 == c
      && ((Appeared(t).Some? && 0 <= Last(t).now - Appeared(t).value <= 86400) || Raised(Init(t), c))
  }

  /** When the current unbroken stretch of raises began. */
  function RaisedSince(t: seq<Look>, c: nat): int
    requires t != []
  {
    if Raised(Init(t), c) then RaisedSince(Init(t), c) else Last(t).now
  }

  ghost predicate EverRaised(t: seq<Look>, c: nat) {
    exists i :: 1 <= i <= |t| && Raised(t[..i], c)
  }

  /** The class was raised for the path, and a later scan did not find the path. */
  ghost predicate Lost(t: seq<Look>, c: nat) {
    exists i, j :: 1 <= i <= j < |t| && Raised(t[..i], c) && t[j].file.None?
  }

  lemma EverRaisedStep(t: seq<Look>, c: nat)
    requires t != []
    ensures EverRaised(t, c) <==> EverRaised(Init(t), c) || Raised(t, c)
  {
    hide Raised;
    if EverRaised(t, c) && !Raised(t, c) {
      var i :| 1 <= i <= |t| && Raised(t[..i], c);
      assert t[..|t|] == t && Init(t)[..i] == t[..i];
    }
    if EverRaised(Init(t), c) {
      var i :| 1 <= i <= |Init(t)| && Raised(Init(t)[..i], c);
      assert Init(t)[..i] == t[..i];
    }
    assert t[..|t|] == t;
  }

  lemma LostStep(t: seq<Look>, c: nat)
    requires t != []
    ensures Lost(t, c) <==> Lost(Init(t), c) || (EverRaised(Init(t), c) && Last(t).file.None?)
  {
    hide Raised;
    var u := Init(t);
    if Lost(t, c) {
      var i, j :| 1 <= i <= j < |t| && Raised(t[..i], c) && t[j].file.None?;
      assert u[..i] == t[..i];
      if j < |u| {
        assert u[j].file.None?;
      }
    }
    if Lost(u, c) {
      var i, j :| 1 <= i <= j < |u| && Raised(u[..i], c) && u[j].file.None?;
      assert u[..i] == t[..i] && t[j].file.None?;
    }
    if EverRaised(u, c) && Last(t).file.None? {
      var i :| 1 <= i <= |u| && Raised(u[..i], c);
      assert u[..i] == t[..i] && t[|u|].file.None?;
    }
  }

  // ---- The store tracks the scans ----

  ghost predicate EverFound(t: seq<Look>) { exists i :: 0 <= i < |t| && t[i].file.Some? }

  ghost predicate FlagTracks(flagged: map<nat, Option<int>>, c: nat, t: seq<Look>) {
    && (c in flagged <==> EverRaised(t, c))
    && (c in flagged ==> (flagged[c].Some? <==> Lost(t, c)))
  }

  ghost predicate EntryTracks(e: Option<Entry>, t: seq<Look>) {
    && (e.Some? <==> EverFound(t))
    && (e.Some? ==>
      && e.value.present == Last(t).file.Some?
      && (e.value.present ==> e.value.firstSeen == Appeared(t))
      && forall c :: FlagTracks(e.value.flagged, c, t))
  }

  ghost predicate SignalTracks(signals: map<SignalKey, Signal>, p: string, c: nat, t: seq<Look>) {
    && (IsActive(signals, (p, c)) <==> Raised(t, c))
    && (Raised(t, c) ==>
      && (signals[(p, c)].red <==> Lost(t, c))
      && signals[(p, c)].firstObserved == RaisedSince(t, c)
      && signals[(p, c)].lastObserved == Last(t).now && signals[(p, c)].bytes == Last(t).file.value.size)
  }

  ghost predicate Tracks(s: Store, p: string, t: seq<Look>) {
    && (s.scanned <==> t != [])
    && EntryTracks(Lookup(s.inventory, p), t)
    && forall c :: SignalTracks(s.signals, p, c, t)
  }

  /** A file on top of what the path's history says is raised exactly when the code raises it. */
  lemma RaisesWhenRaised(s: Store, p: string, f: File, now: int, t: seq<Look>)
    requires t != [] && Last(t) == Look(now, Some(f)) && Tracks(s, p, Init(t))
    ensures Found(s, p, now).present && Found(s, p, now).firstSeen == Appeared(t)
    ensures Raises(s, p, f, now) <==> Raised(t, SizeClass(f))
  {
    var u := Init(t);
    assert SignalTracks(s.signals, p, SizeClass(f), u);
    if Lookup(s.inventory, p).None? && u != [] {
      assert u[|u| - 1].file.None?;
    }
  }

  lemma EverFoundStep(t: seq<Look>)
    requires t != []
    ensures EverFound(t) <==> EverFound(Init(t)) || Last(t).file.Some?
  {
  }

  lemma LostWasRaised(t: seq<Look>, c: nat)
    ensures Lost(t, c) ==> EverRaised(t, c)
  {
  }

  lemma GoneFlag(flagged: map<nat, Option<int>>, c: nat, t: seq<Look>)
    requires t != [] && Last(t).file.None? && FlagTracks(flagged, c, Init(t))
    ensures FlagTracks(map k | k in flagged :: Some(Last(t).now), c, t)
    ensures Init(t) != [] && Last(Init(t)).file.None? ==> FlagTracks(flagged, c, t)
  {
    EverRaisedStep(t, c);
    LostStep(t, c);
    assert !Raised(t, c);
    if Init(t) != [] && Last(Init(t)).file.None? {
      var u := Init(t);
      EverRaisedStep(u, c);
      LostStep(u, c);
      assert !Raised(u, c);
    }
    hide EverRaised, Lost, Raised;
  }

  lemma GoneTracks(e: Option<Entry>, t: seq<Look>)
    requires t != [] && Last(t).file.None? && EntryTracks(e, Init(t))
    ensures EntryTracks(if e.Some? then Some(Gone(e.value, Last(t).now)) else None, t)
  {
    EverFoundStep(t);
    if e.Some? {
      assert Init(t) != [];
      hide EverFound, FlagTracks, Appeared;
      forall c ensures FlagTracks(Gone(e.value, Last(t).now).flagged, c, t) {
        GoneFlag(e.value.flagged, c, t);
      }
    }
  }

  lemma FoundFlag(flagged: map<nat, Option<int>>, c: nat, its: nat, t: seq<Look>)
    requires t != [] && Last(t).file.Some? && its == SizeClass(Last(t).file.value)
    requires FlagTracks(flagged, c, Init(t))
    ensures FlagTracks(if Raised(t, its) && its !in flagged then flagged[its := None] else flagged, c, t)
  {
    OnlyItsClass(t);
    EverRaisedStep(t, c);
    LostStep(t, c);
    LostWasRaised(Init(t), c);
    hide EverRaised, Lost, Raised, SizeClass;
  }

  lemma FoundTracks(e: Entry, was: Option<Entry>, f: File, t: seq<Look>)
    requires t != [] && Last(t).file == Some(f) && EntryTracks(was, Init(t))
    requires e.present && e.firstSeen == Appeared(t)
    requires e.flagged == if was.Some? then was.value.flagged else map[]
    ensures EntryTracks(Some(if Raised(t, SizeClass(f)) then WithFlag(e, SizeClass(f)) else e), t)
  {
    EverFoundStep(t);
    NeverFound(Init(t));
    var its := SizeClass(f);
    var after := if Raised(t, its) then WithFlag(e, its) else e;
    forall c ensures FlagTracks(e.flagged, c, Init(t)) {
      LostWasRaised(Init(t), c);
    }
    hide EverFound, FlagTracks, Appeared, Raised, EverRaised, SizeClass;
    forall c ensures FlagTracks(after.flagged, c, t) {
      FoundFlag(e.flagged, c, its, t);
    }
  }

  lemma OnlyItsClass(t: seq<Look>)
    ensures forall c :: Raised(t, c) ==> Last(t).file.Some? && c == SizeClass(Last(t).file.value)
  {
  }

  lemma NeverFound(t: seq<Look>)
    ensures !EverFound(t) ==> forall c :: !EverRaised(t, c)
  {
  }

  lemma EntryAfterTracks(s: Store, p: string, sample: Sample, t: seq<Look>)
    requires sample.successful && t != [] && Last(t) == Look(sample.now, Lookup(sample.files, p))
      && Tracks(s, p, Init(t))
    ensures EntryTracks(Lookup(Apply(s, sample).inventory, p), t)
  {
    if p in sample.files {
      var f := sample.files[p];
      RaisesWhenRaised(s, p, f, sample.now, t);
      FoundTracks(Found(s, p, sample.now), Lookup(s.inventory, p), f, t);
    } else {
      GoneTracks(Lookup(s.inventory, p), t);
    }
  }

  lemma SignalAfterTracks(s: Store, p: string, c: nat, sample: Sample, t: seq<Look>)
    requires sample.successful && t != [] && Last(t) == Look(sample.now, Lookup(sample.files, p))
      && Tracks(s, p, Init(t))
    ensures SignalTracks(Apply(s, sample).signals, p, c, t)
  {
    EntryAfterTracks(s, p, sample, t);
    assert SignalTracks(s.signals, p, c, Init(t));
    if p in sample.files {
      RaisesWhenRaised(s, p, sample.files[p], sample.now, t);
    }
    OnlyItsClass(t);
    if Raised(t, c) {
      assert (p, c) in RaisedKeys(s, sample);
      LostStep(t, c);
      assert FlagTracks(Apply(s, sample).inventory[p].flagged, c, t);
    }
    hide EverRaised, Lost, Raised, Appeared, Raises;
  }

  // ---- Whole runs ----

  /** A sample reaches the store, its commit fails, or the backend restarts. */
  datatype Event = Sampled(sample: Sample, commits: bool) | Restarted

  function Step(s: Store, e: Event): Store {
    match e
    case Sampled(sample, commits) => if commits then Apply(s, sample) else s
    case Restarted =>
      if s.availability.None? then s else s.(availability := Some(s.availability.value.(successful := false)))
  }

  function Run(events: seq<Event>): Store {
    if events == [] then EMPTY else Step(Run(events[..|events| - 1]), events[|events| - 1])
  }

  function Seen(t: seq<Look>, e: Event, p: string): seq<Look> {
    if e.Sampled? && e.commits && e.sample.successful then t + [Look(e.sample.now, Lookup(e.sample.files, p))] else t
  }

  /** What the successful committed scans saw of a path, in order. */
  function Trace(events: seq<Event>, p: string): seq<Look> {
    if events == [] then []
    else
      Seen(Trace(events[..|events| - 1], p), events[|events| - 1], p)
  }

  lemma StepTracks(s: Store, e: Event, p: string, t: seq<Look>)
    requires Tracks(s, p, t)
    ensures Tracks(Step(s, e), p, Seen(t, e, p))
  {
    if e.Sampled? && e.commits && e.sample.successful {
      var u := Seen(t, e, p);
      assert Init(u) == t;
      EntryAfterTracks(s, p, e.sample, u);
      forall c ensures SignalTracks(Apply(s, e.sample).signals, p, c, u) {
        SignalAfterTracks(s, p, c, e.sample, u);
      }
    }
  }

  /** After any run, a (path, class) signal is active exactly when the last scan
      raised it, red exactly when the path had been raised and then lost before,
      and dated from the start of the unbroken stretch. Samples that were not
      successful or not committed leave no trace in any of this. */
  lemma {:induction false} RunTracks(events: seq<Event>, p: string)
    ensures Tracks(Run(events), p, Trace(events, p))
  {
    if events == [] {
    } else {
      hide Tracks, Apply;
      RunTracks(events[..|events| - 1], p);
      StepTracks(Run(events[..|events| - 1]), events[|events| - 1], p, Trace(events[..|events| - 1], p));
    }
  }

  /** The availability row says when the last successful scan was, through
      failures and restarts. */
  lemma {:induction false} LastSuccessIsTheLastScan(events: seq<Event>, p: string)
    ensures var a, t := Run(events).availability, Trace(events, p);
      if a.None? then t == [] else a.value.lastSuccess == if t == [] then None else Some(Last(t).now)
  {
    if events != [] {
      hide InventoryAfter, SignalsAfter;
      LastSuccessIsTheLastScan(events[..|events| - 1], p);
    }
  }

  /** Between commits the row reports the last sample that committed, and a
      restart marks it as no longer current. */
  lemma AvailabilityReportsTheLastSample(events: seq<Event>, sample: Sample, commits: bool)
    ensures Run(events + [Sampled(sample, true)]).availability.Some?
    ensures var a := Run(events + [Sampled(sample, true)]).availability.value;
      a.successful == sample.successful && a.observedAt == sample.now
    ensures Run(events + [Sampled(sample, false)]) == Run(events)
    ensures var a, b := Run(events).availability, Run(events + [Restarted]).availability;
      a.Some? == b.Some? && (a.Some? ==> b.value == Availability(false, a.value.observedAt, a.value.lastSuccess))
  {
    assert (events + [Sampled(sample, true)])[..|events|] == events;
    assert (events + [Sampled(sample, false)])[..|events|] == events;
    assert (events + [Restarted])[..|events|] == events;
  }

  /** Until a second scan succeeds and commits, no signal is active, whatever the
      first one found. */
  lemma FirstScanIsQuiet(events: seq<Event>, p: string, c: nat)
    requires |Trace(events, p)| <= 1
    ensures !IsActive(Run(events).signals, (p, c))
  {
    RunTracks(events, p);
    assert SignalTracks(Run(events).signals, p, c, Trace(events, p));
  }

  /** A signal that is red once is red whenever it is active again. */
  lemma OnceRedAlwaysRed(before: seq<Event>, more: seq<Event>, p: string, c: nat)
    requires IsActive(Run(before).signals, (p, c)) && Run(before).signals[(p, c)].red
    requires IsActive(Run(before + more).signals, (p, c))
    ensures Run(before + more).signals[(p, c)].red
  {
    RunTracks(before, p);
    RunTracks(before + more, p);
    assert SignalTracks(Run(before).signals, p, c, Trace(before, p));
    assert SignalTracks(Run(before + more).signals, p, c, Trace(before + more, p));
    TraceGrows(before, more, p);
    LostStays(Trace(before, p), Trace(before + more, p), c);
  }

  lemma {:induction false} TraceGrows(before: seq<Event>, more: seq<Event>, p: string)
    ensures Trace(before, p) <= Trace(before + more, p)
  {
    if more == [] {
      assert before + more == before;
    } else {
      TraceGrows(before, more[..|more| - 1], p);
      assert (before + more)[..|before + more| - 1] == before + more[..|more| - 1];
    }
  }

  lemma LostStays(t: seq<Look>, u: seq<Look>, c: nat)
    requires t <= u && Lost(t, c)
    ensures Lost(u, c)
  {
    var i, j :| 1 <= i <= j < |t| && Raised(t[..i], c) && t[j].file.None?;
    assert t[..i] == u[..i] && u[j] == t[j];
  }
}
