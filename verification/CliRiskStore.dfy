/** The record store: one sample applied in loops, committed or dropped whole. */
module CliRiskStore {
  import opened Wrappers
  import opened DiskRisk

  class RiskStore {
    var scanned: bool
    var inventory: map<string, Entry>
    var signals: map<SignalKey, Signal>
    var availability: Option<Availability>

    ghost function Now(): Store
      reads this
    {
      Store(scanned, inventory, signals, availability)
    }

    constructor ()
      ensures Now() == EMPTY
    {
      scanned, inventory, signals, availability := false, map[], map[], None;
    }

    static method SweepAbsent(inventory: map<string, Entry>, current: map<string, File>, now: int)
      returns (swept: map<string, Entry>)
      ensures swept == map p | p in inventory :: if p in current then inventory[p] else Gone(inventory[p], now)
    {
      swept := inventory;
      var left := inventory.Keys;
      while left != {}
        invariant left <= inventory.Keys && swept.Keys == inventory.Keys
        invariant forall p :: p in inventory ==>
          swept[p] == if p in left || p in current then inventory[p] else Gone(inventory[p], now)
      {
        var p :| p in left;
        if p !in current && inventory[p].present {
          var flagged := inventory[p].flagged;
          swept := swept[p := Entry(false, inventory[p].firstSeen, map c | c in flagged :: Some(now))];
        }
        left := left - {p};
      }
    }

    static method Deactivate(signals: map<SignalKey, Signal>) returns (r: map<SignalKey, Signal>)
      ensures r == map k | k in signals :: signals[k].(active := false)
    {
      r := map[];
      var left := signals.Keys;
      while left != {}
        invariant left <= signals.Keys && r.Keys == signals.Keys - left
        invariant forall k :: k in r ==> r[k] == signals[k].(active := false)
      {
        var k :| k in left;
        r, left := r[k := signals[k].(active := false)], left - {k};
      }
    }

    /** One path the scan found. */
    static method Observe(s: Store, known: Option<Entry>, p: string, f: File, now: int)
      returns (e: Entry, raised: Option<Signal>)
      requires known == Lookup(s.inventory, p)
      ensures e == FoundEntry(s, p, f, now)
      ensures raised == if Raises(s, p, f, now) then Some(Raise(s.signals, (p, SizeClass(f)), e, f, now)) else None
    {
      match known {
        case None => e := Entry(true, if s.scanned then Some(now) else None, map[]);
        case Some(entry) => e := if entry.present then entry else entry.(present := true, firstSeen := Some(now));
      }
      raised := None;
      var its := f.size / MIB100;
      var was := IsActive(s.signals, (p, its));
      if f.size <= MIB100 || !f.opaqueContent || !(Recent(e.firstSeen, now) || was) {
        return;
      }
      if its !in e.flagged {
        e := e.(flagged := e.flagged[its := None]);
      }
      var red := e.flagged[its].Some? || (was && s.signals[(p, its)].red);
      raised := Some(Signal(true, red, if was then s.signals[(p, its)].firstObserved else now, now, f.size));
    }

    static method ObserveAll(s: Store, sample: Sample)
      returns (inventory: map<string, Entry>, signals: map<SignalKey, Signal>)
      ensures inventory == InventoryAfter(s, sample) && signals == SignalsAfter(s, sample)
    {
      signals := Deactivate(s.signals);
      inventory := SweepAbsent(s.inventory, sample.files, sample.now);
      var left := sample.files.Keys;
      PartlyStart(s, sample, inventory, signals);
      hide FoundEntry, Raise, Raises, Gone, Partly, SizeClass, InventoryAfter, SignalsAfter;
      while left != {}
        invariant left <= sample.files.Keys
        invariant Partly(s, sample, left, inventory, signals)
      {
        var p :| p in left;
        LeftIsUntouched(s, sample, left, p, inventory, signals);
        var e, raised := Observe(s, Lookup(inventory, p), p, sample.files[p], sample.now);
        ghost var was := signals;
        if raised.Some? {
          signals := signals[(p, SizeClass(sample.files[p])) := raised.value];
        }
        PartlyNext(s, sample, left, p, inventory, was, raised);
        inventory, left := inventory[p := e], left - {p};
      }
      PartlyEnd(s, sample, inventory, signals);
    }

    method ApplyDisk(sample: Sample, commits: bool)
      modifies this
      ensures Now() == Step(old(Now()), Sampled(sample, commits))
    {
      var a := Observed(availability, sample);
      if sample.successful {
        var inv, sigs := ObserveAll(Store(scanned, inventory, signals, availability), sample);
        if commits {
          scanned, inventory, signals, availability := true, inv, sigs, Some(a);
        }
      } else if commits {
        availability := Some(a);
      }
    }
  }

  /** The loop has dealt with every found path but those in `left`. */
  ghost predicate Partly(s: Store, sample: Sample, left: set<string>,
                         inventory: map<string, Entry>, signals: map<SignalKey, Signal>)
  {
    && inventory.Keys == s.inventory.Keys + (sample.files.Keys - left)
    && (forall p :: p in inventory ==>
      inventory[p] == if p !in sample.files then Gone(s.inventory[p], sample.now)
      else if p in left then s.inventory[p]
      else FoundEntry(s, p, sample.files[p], sample.now))
    && (forall k :: k in signals <==> k in s.signals || (k in RaisedKeys(s, sample) && k.0 !in left))
    && (forall k :: k in signals ==>
      signals[k] == if k in RaisedKeys(s, sample) && k.0 !in left
      then Raise(s.signals, k, FoundEntry(s, k.0, sample.files[k.0], sample.now), sample.files[k.0], sample.now)
      else s.signals[k].(active := false))
  }

  lemma PartlyStart(s: Store, sample: Sample, inventory: map<string, Entry>, signals: map<SignalKey, Signal>)
    requires inventory == map p | p in s.inventory ::
      if p in sample.files then s.inventory[p] else Gone(s.inventory[p], sample.now)
    requires signals == map k | k in s.signals :: s.signals[k].(active := false)
    ensures Partly(s, sample, sample.files.Keys, inventory, signals)
  {
  }

  lemma PartlyEnd(s: Store, sample: Sample, inventory: map<string, Entry>, signals: map<SignalKey, Signal>)
    requires Partly(s, sample, {}, inventory, signals)
    ensures inventory == InventoryAfter(s, sample) && signals == SignalsAfter(s, sample)
  {
    hide FoundEntry, Raise, Raises, Gone, SizeClass;
  }

  lemma LeftIsUntouched(s: Store, sample: Sample, left: set<string>, p: string,
                        inventory: map<string, Entry>, signals: map<SignalKey, Signal>)
    requires left <= sample.files.Keys && p in left && Partly(s, sample, left, inventory, signals)
    ensures Lookup(inventory, p) == Lookup(s.inventory, p)
  {
  }

  lemma PartlyNext(s: Store, sample: Sample, left: set<string>, p: string,
                   inventory: map<string, Entry>, signals: map<SignalKey, Signal>, raised: Option<Signal>)
    requires left <= sample.files.Keys && p in left && Partly(s, sample, left, inventory, signals)
    requires var f := sample.files[p];
      raised == if Raises(s, p, f, sample.now)
                then Some(Raise(s.signals, (p, SizeClass(f)), FoundEntry(s, p, f, sample.now), f, sample.now)) else None
    ensures var f := sample.files[p];
      Partly(s, sample, left - {p}, inventory[p := FoundEntry(s, p, f, sample.now)],
             if raised.Some? then signals[(p, SizeClass(f)) := raised.value] else signals)
  {
    hide Raise, Raises, Gone, SizeClass;
  }
}
