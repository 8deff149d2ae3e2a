/** What every step of the pane registry keeps, and what holds over whole runs. */
module PaneInvariants {
  import opened Wrappers
  import opened Strings
  import opened PaneTables

  // ---- Entries, owners and forgotten ids ----

  /** Owned ids are registered, an offline pane has no owner, forgotten and
      registered ids are disjoint, and the forgotten memory is bounded. */
  ghost predicate Consistent(t: Tables) {
    && (forall id :: id in t.panes ==> t.panes[id].paneId == id)
    && t.owners.Keys <= t.panes.Keys
    && (forall id :: id in t.owners ==> !t.panes[id].Offline())
    && (forall id :: id in t.forgotten ==> id !in t.panes)
    && Distinct(t.forgotten)
    && |t.forgotten| <= 512
  }

  lemma GoneConsistent(t: Tables, id: string)
    requires Consistent(t)
    ensures Consistent(Gone(t, id))
  {
  }

  lemma {:induction false} PurgedConsistent(t: Tables, ids: seq<string>)
    requires Consistent(t)
    ensures Consistent(Purged(t, ids))
  {
    if ids != [] {
      PurgedConsistent(t, ids[..|ids| - 1]);
      GoneConsistent(Purged(t, ids[..|ids| - 1]), ids[|ids| - 1]);
    }
  }

  lemma StepKeepsConsistent(t: Tables, e: TimedEvent)
    requires Consistent(t)
    ensures Consistent(Step(t, e))
  {
    match e.event
    case Mirror(h, owner, declared) =>
    case Unregister(id, claimant) => GoneConsistent(t, id);
    case DropOwner(owner) =>
    case Purge(order) => PurgedConsistent(t, order);
    case SetBusy(id, busy, status) =>
  }

  lemma {:induction false} RunIsConsistent(trace: seq<Tables>, events: seq<TimedEvent>, i: nat)
    requires IsRun(trace, events) && i < |trace|
    ensures Consistent(trace[i])
  {
    if i > 0 {
      RunIsConsistent(trace, events, i - 1);
      assert trace[i - 1 + 1] == Step(trace[i - 1], events[i - 1]);
      StepKeepsConsistent(trace[i - 1], events[i - 1]);
    }
  }

  lemma {:induction false} WithoutKeepsPlace(s: seq<string>, x: string, i: nat) returns (k: nat)
    requires i < |s| && s[i] != x
    ensures k < |Without(s, x)| && Without(s, x)[k] == s[i] && |Without(s, x)| - k <= |s| - i
  {
    if i == 0 {
      k := 0;
    } else {
      k := WithoutKeepsPlace(s[1..], x, i - 1);
      k := if s[0] == x then k else k + 1;
    }
  }

  /** The memory of removed ids drops the oldest first: the id just removed comes
      last, and an id stays while fewer than 512 were removed after it. */
  lemma RecentlyForgottenStay(forgotten: seq<string>, id: string, i: nat)
    requires i < |forgotten| && forgotten[i] != id && |forgotten| - i < FORGOTTEN_IDS_MAX
    ensures var r := Remembered(forgotten, id); r[|r| - 1] == id && forgotten[i] in r
  {
    var k := WithoutKeepsPlace(forgotten, id, i);
    var all := Without(forgotten, id) + [id];
    var r := Remembered(forgotten, id);
    assert all[k] == forgotten[i];
    assert r[k - (|all| - |r|)] == all[k];
  }

  // ---- Aliases ----

  /** No alias points at itself, and every target is a registered pane of the
      alias's own workspace. */
  ghost predicate AliasesSound(t: Tables) {
    forall k :: k in t.aliases ==>
      && t.aliases[k].paneId != k
      && t.aliases[k].paneId in t.panes
      && t.panes[t.aliases[k].paneId].workspacePath == t.aliases[k].workspacePath
  }

  /** No alias target is itself an alias, so one lookup always suffices. */
  ghost predicate Flat(aliases: Aliases) {
    forall k :: k in aliases ==> aliases[k].paneId !in aliases
  }

  /** The ids a window declared, as `add_aliases` reads them. */
  function Stripped(declared: seq<string>): seq<string> {
    if declared == [] then [] else Stripped(declared[..|declared| - 1]) + [Strip(declared[|declared| - 1])]
  }

  /** The declared ids a claim accepts, read off the tables before the claim:
      neither blank nor the claimant's own, and in no other workspace. */
  function AcceptedIds(t: Tables, paneId: string, declared: seq<string>, workspace: string): set<string> {
    set f | f in Stripped(declared) && f != "" && f != paneId
            && (f in t.panes ==> t.panes[f].workspacePath == workspace)
            && (f in t.aliases ==> t.aliases[f].workspacePath == workspace)
  }

  /** All ids of `taken` claimed at once: they and everything that pointed at
      them now name the claimant, an alias of the claimant to one of them is
      gone, and nothing else changes. */
  function ClaimedTogether(aliases: Aliases, paneId: string, taken: set<string>, workspace: string): Aliases {
    map k | k in aliases.Keys + taken && (k in taken || !(k == paneId && aliases[k].paneId in taken)) ::
      if k in taken || aliases[k].paneId in taken then PaneAlias(paneId, workspace) else aliases[k]
  }

  lemma ClaimOneMore(aliases: Aliases, paneId: string, taken: set<string>, former: string, workspace: string)
    requires paneId !in taken && former != paneId
    requires paneId in aliases ==> aliases[paneId].paneId != paneId
    ensures Claimed(ClaimedTogether(aliases, paneId, taken, workspace), paneId, former, workspace)
         == ClaimedTogether(aliases, paneId, taken + {former}, workspace)
  {
  }

  lemma ClaimableUnaffected(t: Tables, paneId: string, taken: set<string>, former: string, workspace: string)
    requires AliasesSound(t)
    requires forall f :: f in taken ==> Claimable(t.panes, t.aliases, paneId, f, workspace)
    ensures Claimable(t.panes, ClaimedTogether(t.aliases, paneId, taken, workspace), paneId, former, workspace)
       <==> Claimable(t.panes, t.aliases, paneId, former, workspace)
  {
  }

  /** Claims one after the other equal one simultaneous claim of the ids that
      were claimable beforehand, whatever order they were declared in. */
  lemma {:induction false} ClaimAllIsSimultaneous(t: Tables, paneId: string, declared: seq<string>, workspace: string)
    requires AliasesSound(t)
    ensures ClaimAll(t.panes, t.aliases, paneId, declared, workspace).0
         == ClaimedTogether(t.aliases, paneId, AcceptedIds(t, paneId, declared, workspace), workspace)
    ensures forall f :: f in ClaimAll(t.panes, t.aliases, paneId, declared, workspace).1
                   <==> f in AcceptedIds(t, paneId, declared, workspace)
  {
    if declared == [] {
      assert ClaimedTogether(t.aliases, paneId, {}, workspace) == t.aliases;
    } else {
      var init, former := declared[..|declared| - 1], Strip(declared[|declared| - 1]);
      ClaimAllIsSimultaneous(t, paneId, init, workspace);
      AcceptedOneMore(t, paneId, declared, workspace);
      hide AcceptedIds, ClaimedTogether, Claimable, Claimed, Strip;
      var taken := AcceptedIds(t, paneId, init, workspace);
      ClaimableUnaffected(t, paneId, taken, former, workspace);
      if Claimable(t.panes, t.aliases, paneId, former, workspace) {
        ClaimOneMore(t.aliases, paneId, taken, former, workspace);
      }
    }
  }

  lemma AcceptedOneMore(t: Tables, paneId: string, declared: seq<string>, workspace: string)
    requires declared != []
    ensures var taken := AcceptedIds(t, paneId, declared[..|declared| - 1], workspace);
      var former := Strip(declared[|declared| - 1]);
      && paneId !in taken && (forall f :: f in taken ==> Claimable(t.panes, t.aliases, paneId, f, workspace))
      && (Claimable(t.panes, t.aliases, paneId, former, workspace) ==> former != paneId)
      && AcceptedIds(t, paneId, declared, workspace) ==
        if Claimable(t.panes, t.aliases, paneId, former, workspace) then taken + {former} else taken
  {
    hide Strip;
  }

  // ---- When a step keeps the alias table sound ----

  /** Re-registering a pane that has former ids keeps its workspace. */
  predicate KeepsWorkspace(t: Tables, e: Event) {
    e.Mirror? && e.handle.paneId in t.panes
      && t.panes[e.handle.paneId].workspacePath != NormalizeWorkspace(e.handle.workspacePath)
    ==> forall k :: k in t.aliases ==> t.aliases[k].paneId != e.handle.paneId
  }

  lemma {:induction false} ForeignAliasStays(panes: map<string, RegisteredPane>, aliases: Aliases,
                                             paneId: string, declared: seq<string>, workspace: string, k: string)
    requires k in aliases && aliases[k].paneId == paneId && aliases[k].workspacePath != workspace
    ensures var r := ClaimAll(panes, aliases, paneId, declared, workspace).0;
      k in r && r[k] == aliases[k]
  {
    hide Strip;
    if declared != [] {
      ForeignAliasStays(panes, aliases, paneId, declared[..|declared| - 1], workspace, k);
    }
  }

  lemma ClaimedTogetherSound(t: Tables, paneId: string, taken: set<string>, workspace: string)
    requires AliasesSound(t) && paneId !in taken
    requires paneId in t.panes && t.panes[paneId].workspacePath == workspace
    ensures AliasesSound(t.(aliases := ClaimedTogether(t.aliases, paneId, taken, workspace)))
  {
  }

  lemma MirrorKeepsAliasesSound(t: Tables, h: Handle, owner: Option<Owner>, declared: seq<string>)
    requires AliasesSound(t)
    ensures var e := Mirror(h, owner, declared);
      AliasesSound(Step(t, At(0.0, e))) <==> KeepsWorkspace(t, e)
  {
    var e := Mirror(h, owner, declared);
    var r, w := Registered(t, h, owner), NormalizeWorkspace(h.workspacePath);
    if KeepsWorkspace(t, e) {
      assert AliasesSound(r);
      ClaimAllIsSimultaneous(r, h.paneId, declared, w);
      var taken := AcceptedIds(r, h.paneId, declared, w);
      ClaimedTogetherSound(r, h.paneId, taken, w);
      assert Step(t, At(0.0, e)) == r.(aliases := ClaimedTogether(r.aliases, h.paneId, taken, w));
    } else {
      var k :| k in t.aliases && t.aliases[k].paneId == h.paneId;
      ForeignAliasStays(r.panes, r.aliases, h.paneId, declared, w, k);
    }
  }

  /** A step keeps the alias table sound exactly when it does not move a pane
      that still has former ids to another workspace. */
  lemma StepKeepsAliasesSound(t: Tables, e: TimedEvent)
    requires AliasesSound(t) && Consistent(t)
    ensures AliasesSound(Step(t, e)) <==> KeepsWorkspace(t, e.event)
  {
    match e.event
    case Mirror(h, owner, declared) => MirrorKeepsAliasesSound(t, h, owner, declared);
    case Unregister(id, claimant) =>
    case DropOwner(owner) =>
    case Purge(order) => PurgedTables(t, order);
    case SetBusy(id, busy, status) =>
  }

  // ---- When a step keeps the alias table flat ----

  /** The claiming pane is not left as a former id of another pane: it was none,
      or it takes over an id it was superseded by. */
  predicate LeavesNoKey(t: Tables, e: Event) {
    e.Mirror? ==>
      var taken := AcceptedIds(t, e.handle.paneId, e.declared, NormalizeWorkspace(e.handle.workspacePath));
      taken == {} || e.handle.paneId !in t.aliases || t.aliases[e.handle.paneId].paneId in taken
  }

  /** Registering the claimant does not change what it may claim. */
  lemma RegisteringKeepsAccepted(t: Tables, h: Handle, owner: Option<Owner>, declared: seq<string>, workspace: string)
    ensures AcceptedIds(Registered(t, h, owner), h.paneId, declared, workspace)
         == AcceptedIds(t, h.paneId, declared, workspace)
  {
    hide Entry, Stripped, Without;
  }

  lemma MirrorKeepsFlat(t: Tables, h: Handle, owner: Option<Owner>, declared: seq<string>)
    requires AliasesSound(t) && Flat(t.aliases) && KeepsWorkspace(t, Mirror(h, owner, declared))
    ensures Flat(WithAliases(Registered(t, h, owner), h.paneId, declared, h.workspacePath).aliases)
       <==> LeavesNoKey(t, Mirror(h, owner, declared))
  {
    var r, w := Registered(t, h, owner), NormalizeWorkspace(h.workspacePath);
    var taken := AcceptedIds(t, h.paneId, declared, w);
    assert AliasesSound(r);
    RegisteringKeepsAccepted(t, h, owner, declared, w);
    hide Flat, NormalizeWorkspace, AcceptedIds, Stripped;
    assert h.paneId !in taken && taken == AcceptedIds(t, h.paneId, declared, w);
    ClaimAllIsSimultaneous(r, h.paneId, declared, w);
    ClaimedTogetherFlat(t.aliases, h.paneId, taken, w);
  }

  /** Given a flat table, a step keeps it flat exactly under that condition. */
  lemma StepKeepsFlat(t: Tables, e: TimedEvent)
    requires AliasesSound(t) && Flat(t.aliases) && KeepsWorkspace(t, e.event)
    ensures Flat(Step(t, e).aliases) <==> LeavesNoKey(t, e.event)
  {
    hide AcceptedIds, ClaimAll, NormalizeWorkspace;
    match e.event
    case Mirror(h, owner, declared) => MirrorKeepsFlat(t, h, owner, declared);
    case Unregister(id, claimant) =>
    case DropOwner(owner) =>
    case Purge(order) => PurgedTables(t, order);
    case SetBusy(id, busy, status) =>
  }

  lemma ClaimedTogetherFlat(aliases: Aliases, paneId: string, taken: set<string>, workspace: string)
    requires Flat(aliases) && paneId !in taken
    ensures Flat(ClaimedTogether(aliases, paneId, taken, workspace))
       <==> (taken == {} || paneId !in aliases || aliases[paneId].paneId in taken)
  {
    var r := ClaimedTogether(aliases, paneId, taken, workspace);
    if taken == {} {
      assert r == aliases;
    } else {
      var f :| f in taken;
      assert r[f].paneId == paneId;
      assert paneId in r <==> paneId in aliases && aliases[paneId].paneId !in taken;
      if paneId !in r {
        forall k | k in r ensures r[k].paneId !in r {
          if r[k].paneId != paneId {
            assert r[k] == aliases[k];
          }
        }
      }
    }
  }

  /** Over a whole run whose windows respect both conditions, the alias table is
      sound and flat at every point. */
  lemma {:induction false} RunKeepsAliases(trace: seq<Tables>, events: seq<TimedEvent>, i: nat)
    requires IsRun(trace, events) && i < |trace|
    requires forall j :: 0 <= j < i ==>
      KeepsWorkspace(trace[j], events[j].event) && LeavesNoKey(trace[j], events[j].event)
    ensures AliasesSound(trace[i]) && Flat(trace[i].aliases)
  {
    if i > 0 {
      RunKeepsAliases(trace, events, i - 1);
      RunIsConsistent(trace, events, i - 1);
      assert trace[i - 1 + 1] == Step(trace[i - 1], events[i - 1]);
      StepKeepsAliasesSound(trace[i - 1], events[i - 1]);
      StepKeepsFlat(trace[i - 1], events[i - 1]);
    }
  }

  // ---- What flatness buys ----

  /** `path` follows the alias table one entry at a time. */
  ghost predicate AliasPath(aliases: Aliases, path: seq<string>) {
    && path != []
    && forall i :: 0 <= i < |path| - 1 ==> path[i] in aliases && aliases[path[i]].paneId == path[i + 1]
  }

  function ResolveAlias(aliases: Aliases, id: string): string {
    if id in aliases then aliases[id].paneId else ""
  }

  function FormerIds(aliases: Aliases, id: string): set<string> {
    set k | k in aliases && aliases[k].paneId == id
  }

  /** The entry `current` answers with: one lookup, then the pane. */
  function Current(t: Tables, id: string): Option<RegisteredPane> {
    Lookup(t.panes, if id in t.aliases then t.aliases[id].paneId else id)
  }

  /** The table is flat exactly when no chain of aliases is longer than one. */
  lemma FlatMeansNoChains(aliases: Aliases)
    ensures Flat(aliases) <==> forall path :: AliasPath(aliases, path) ==> |path| <= 2
  {
    if !Flat(aliases) {
      var k :| k in aliases && aliases[k].paneId in aliases;
      var mid := aliases[k].paneId;
      assert AliasPath(aliases, [k, mid, aliases[mid].paneId]);
    }
    forall path | AliasPath(aliases, path) && |path| > 2 ensures !Flat(aliases) {
      assert path[0] in aliases && aliases[path[0]].paneId == path[0 + 1];
      assert path[1] in aliases;
    }
  }

  /** In a sound, flat table one lookup reaches the end of every alias chain,
      and `former_ids` is the exact inverse of `resolve_alias`. */
  lemma OneLookupSuffices(t: Tables, path: seq<string>)
    requires AliasesSound(t) && Flat(t.aliases)
    requires AliasPath(t.aliases, path) && path[|path| - 1] !in t.aliases
    ensures Current(t, path[0]) == Lookup(t.panes, path[|path| - 1])
    ensures path[0] in t.aliases ==> Current(t, path[0]).Some?
    ensures forall k, p :: p != "" ==> (k in FormerIds(t.aliases, p) <==> ResolveAlias(t.aliases, k) == p)
  {
    FlatMeansNoChains(t.aliases);
  }

  lemma OneClaim(panes: map<string, RegisteredPane>, aliases: Aliases, paneId: string, former: string,
                 workspace: string)
    requires Trimmed(former) && Claimable(panes, aliases, paneId, former, workspace)
    ensures ClaimAll(panes, aliases, paneId, [former], workspace).0 == Claimed(aliases, paneId, former, workspace)
  {
  }

  lemma MirrorWithOneClaim(t: Tables, e: TimedEvent, former: string)
    requires e.event.Mirror? && e.event.declared == [former] && Trimmed(former)
    requires var w := NormalizeWorkspace(e.event.handle.workspacePath);
      Claimable(Registered(t, e.event.handle, e.event.owner).panes, t.aliases, e.event.handle.paneId, former, w)
    ensures var h := e.event.handle;
      Step(t, e).aliases == Claimed(t.aliases, h.paneId, former, NormalizeWorkspace(h.workspacePath))
    ensures Step(t, e).panes == Registered(t, e.event.handle, e.event.owner).panes
  {
    var r := Registered(t, e.event.handle, e.event.owner);
    OneClaim(r.panes, r.aliases, e.event.handle.paneId, former, NormalizeWorkspace(e.event.handle.workspacePath));
  }

  /** Without the condition a chain does appear, for any three ids: pane a is
      superseded by b, then a comes back and claims c. From then on c names the
      entry of a, while a itself names b. */
  lemma ClaimByASupersededPaneChains(a: Handle, b: Handle, c: string, owner: Owner)
    returns (events: seq<TimedEvent>, trace: seq<Tables>)
    requires a.paneId != b.paneId && c != a.paneId && c != b.paneId && a.workspacePath == b.workspacePath
    requires Trimmed(a.paneId) && Trimmed(c) && a.paneId != "" && c != ""
    ensures IsRun(trace, events) && |events| == 2
    ensures AliasPath(trace[2].aliases, [c, a.paneId, b.paneId]) && !Flat(trace[2].aliases)
    ensures Current(trace[2], c).Some? && Current(trace[2], c).value.paneId == a.paneId
    ensures Current(trace[2], a.paneId).Some? && Current(trace[2], a.paneId).value.paneId == b.paneId
  {
    events := [At(0.0, Mirror(b, Some(owner), [a.paneId])), At(1.0, Mirror(a, Some(owner), [c]))];
    MirrorWithOneClaim(EMPTY, events[0], a.paneId);
    var t1 := Step(EMPTY, events[0]);
    MirrorWithOneClaim(t1, events[1], c);
    var t2 := Step(t1, events[1]);
    trace := [EMPTY, t1, t2];
    assert c in t2.aliases && t2.aliases[c].paneId == a.paneId;
    assert a.paneId in t2.aliases && t2.aliases[a.paneId].paneId == b.paneId;
  }

  /** And a pane with a former id that is registered again under another
      workspace leaves that alias in the old one, for any two ids. */
  lemma MovedPaneLeavesItsAliasBehind(b: Handle, former: string, elsewhere: string, owner: Owner)
    returns (events: seq<TimedEvent>, trace: seq<Tables>)
    requires Trimmed(former) && former != "" && former != b.paneId
    requires NormalizeWorkspace(elsewhere) != NormalizeWorkspace(b.workspacePath)
    ensures IsRun(trace, events) && |events| == 2 && AliasesSound(trace[1]) && !AliasesSound(trace[2])
    ensures former in trace[2].aliases && trace[2].aliases[former].workspacePath == NormalizeWorkspace(b.workspacePath)
    ensures Current(trace[2], former).Some?
      && Current(trace[2], former).value.workspacePath == NormalizeWorkspace(elsewhere)
  {
    var moved := b.(workspacePath := elsewhere);
    events := [At(0.0, Mirror(b, Some(owner), [former])), At(1.0, Mirror(moved, Some(owner), []))];
    MirrorWithOneClaim(EMPTY, events[0], former);
    var t1 := Step(EMPTY, events[0]);
    StepKeepsAliasesSound(EMPTY, events[0]);
    var t2 := Step(t1, events[1]);
    trace := [EMPTY, t1, t2];
    assert former in t1.aliases && t1.aliases[former].paneId == b.paneId;
    assert former in t2.aliases && t2.aliases[former] == t1.aliases[former];
  }

  // ---- Who can make a pane disappear ----

  /** A window that no longer holds a pane can neither remove it nor take it
      offline. */
  lemma OldWindowIsHarmless(t: Tables, id: string, late: Owner, now: real)
    requires Consistent(t) && id in t.owners && t.owners[id] != late
    ensures Unregistered(t, id, Some(late)) == t
    ensures var d := OwnerDropped(t, late, now);
      id in d.panes && d.panes[id] == t.panes[id] && id in d.owners && d.owners[id] == t.owners[id]
  {
  }

  /** Events that may cost the window `holder` its pane `id`. */
  predicate Releases(e: Event, id: string, holder: Owner) {
    match e
    case Mirror(h, owner, declared) => h.paneId == id && owner.Some? && owner.value != holder
    case Unregister(other, claimant) => other == id && (claimant.None? || claimant.value == holder)
    case DropOwner(dropped) => dropped == holder
    case _ => false
  }

  /** From the moment a window holds a pane, the pane stays registered, online
      and held by it for as long as neither that window nor a newer one says
      otherwise, whatever every other window and the clock do. */
  lemma {:induction false} HeldPaneIsSafe(trace: seq<Tables>, events: seq<TimedEvent>, i: nat, j: nat, id: string,
                                          holder: Owner)
    requires IsRun(trace, events) && i <= j < |trace|
    requires id in trace[i].owners && trace[i].owners[id] == holder
    requires forall k :: i <= k < j ==> !Releases(events[k].event, id, holder)
    ensures id in trace[j].panes && !trace[j].panes[id].Offline()
    ensures id in trace[j].owners && trace[j].owners[id] == holder
  {
    RunIsConsistent(trace, events, j);
    if i < j {
      HeldPaneIsSafe(trace, events, i, j - 1, id, holder);
      var t, e := trace[j - 1], events[j - 1];
      assert trace[j - 1 + 1] == Step(t, e);
      assert !Releases(e.event, id, holder);
      if e.event.Purge? {
        PurgedTables(t, e.event.order);
        assert id !in ExpiredIds(t, e.now);
      }
    }
  }

  /** The step that took a pane offline: its window disconnected at that time,
      and nothing re-registered the pane since. */
  ghost predicate WentOffline(trace: seq<Tables>, events: seq<TimedEvent>, d: nat, i: nat, id: string, since: real)
    requires |trace| == |events| + 1 && i < |trace|
  {
    && d < i
    && events[d].event.DropOwner? && events[d].now == since
    && id in trace[d].owners && trace[d].owners[id] == events[d].event.dropped
    && forall k :: d < k < i ==> !(events[k].event.Mirror? && events[k].event.handle.paneId == id)
  }

  lemma {:induction false} OfflineSinceADisconnect(trace: seq<Tables>, events: seq<TimedEvent>, i: nat, id: string)
    returns (d: nat)
    requires IsRun(trace, events) && i < |trace|
    requires id in trace[i].panes && trace[i].panes[id].Offline()
    ensures WentOffline(trace, events, d, i, id, trace[i].panes[id].offlineSince.value)
  {
    hide ClaimAll, NormalizeWorkspace, Remembered, AliasesNotTo, Without;
    if i == 0 {
      assert false;
    }
    var t, e := trace[i - 1], events[i - 1];
    assert trace[i - 1 + 1] == Step(t, e);
    if e.event.Purge? {
      PurgedTables(t, e.event.order);
    }
    if id in t.panes && t.panes[id].Offline() {
      assert t.panes[id].offlineSince == trace[i].panes[id].offlineSince;
      d := OfflineSinceADisconnect(trace, events, i - 1, id);
    } else {
      d := i - 1;
    }
  }

  /** Why a pane vanished at step `k`: an accepted unregister, or a purge after
      at least the grace period offline with no re-register in between. */
  ghost predicate Vanishes(trace: seq<Tables>, events: seq<TimedEvent>, k: nat, id: string)
    requires |trace| == |events| + 1 && k < |events|
  {
    || (events[k].event.Unregister? && events[k].event.paneId == id
        && (events[k].event.claimant.None? || id !in trace[k].owners
            || trace[k].owners[id] == events[k].event.claimant.value))
    || (events[k].event.Purge? && (exists d :: 0 <= d < k && WentOffline(trace, events, d, k, id, events[d].now)
                                               && events[k].now - events[d].now >= 90.0))
  }

  /** A pane that was registered and no longer is was removed by one of these. */
  lemma {:induction false} WhyAPaneVanished(trace: seq<Tables>, events: seq<TimedEvent>, i: nat, j: nat, id: string)
    returns (k: nat)
    requires IsRun(trace, events) && i <= j < |trace|
    requires id in trace[i].panes && id !in trace[j].panes
    ensures i <= k < j && id in trace[k].panes && id !in trace[k + 1].panes
    ensures Vanishes(trace, events, k, id)
  {
    if id !in trace[j - 1].panes {
      k := WhyAPaneVanished(trace, events, i, j - 1, id);
    } else {
      k := j - 1;
      var e := events[k];
      assert trace[k + 1] == Step(trace[k], e);
      if e.event.Purge? {
        PurgedTables(trace[k], e.event.order);
        assert id in ExpiredIds(trace[k], e.now);
        var d := OfflineSinceADisconnect(trace, events, k, id);
      }
    }
  }
}
