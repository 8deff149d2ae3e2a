/** The four tables of the inter-agent pane registry, and what each registry
    operation does to them. The class in `PaneRegistry.dfy` changes its fields
    step by step and is proved to land on exactly these values. */
module PaneTables {
  import opened Wrappers
  import opened Strings

  const OFFLINE_GRACE_S: real := 90.0
  const FORGOTTEN_IDS_MAX: nat := 512

  /** A window's connection; only its identity is ever used. */
  type Owner = nat

  datatype RegisteredPane = RegisteredPane(
    paneId: string, name: string, workspacePath: string, agentKey: string,
    busy: bool, offlineSince: Option<real>, realized: bool, displayStatus: string,
    spawnedBy: string, surface: string, windowKind: string, deliverable: bool)
  {
    predicate Offline() { offlineSince.Some? }

    predicate IsDock() { surface != "" && surface != "main" }

    /** Whether a message can be put into this pane right now. */
    predicate AcceptsMessages() { !Offline() && !(IsDock() && !deliverable) }
  }

  datatype PaneAlias = PaneAlias(paneId: string, workspacePath: string)

  datatype Tables = Tables(
    panes: map<string, RegisteredPane>,
    owners: map<string, Owner>,
    aliases: map<string, PaneAlias>,
    forgotten: seq<string>)

  const EMPTY: Tables := Tables(map[], map[], map[], [])

  /** What a window sends to mirror one pane handle. */
  datatype Handle = Handle(
    paneId: string, name: string, workspacePath: string, agentKey: string, realized: bool,
    spawnedBy: string, surface: string, windowKind: string, deliverable: bool)

  function NormalizeWorkspace(path: string): string {
    var trimmed := RStripSlash(path);
    if trimmed != "" then trimmed else path
  }

  // ---- register ----

  function Entry(previous: Option<RegisteredPane>, h: Handle): RegisteredPane {
    RegisteredPane(
      h.paneId, h.name, NormalizeWorkspace(h.workspacePath), h.agentKey,
      previous.Some? && previous.value.busy, None, h.realized,
      if previous.Some? then previous.value.displayStatus else "",
      h.spawnedBy, h.surface, h.windowKind, h.deliverable)
  }

  function Registered(t: Tables, h: Handle, owner: Option<Owner>): Tables {
    Tables(
      t.panes[h.paneId := Entry(Lookup(t.panes, h.paneId), h)],
      if owner.Some? then t.owners[h.paneId := owner.value] else t.owners,
      t.aliases,
      Without(t.forgotten, h.paneId))
  }

  // ---- add_aliases ----

  type Aliases = map<string, PaneAlias>

  /** A former id may be claimed unless it is blank, the claimant itself, or
      tied to another workspace. */
  predicate Claimable(panes: map<string, RegisteredPane>, aliases: Aliases,
                      paneId: string, former: string, workspace: string) {
    && former != "" && former != paneId
    && (former in panes ==> panes[former].workspacePath == workspace)
    && (former in aliases ==> aliases[former].workspacePath == workspace)
  }

  /** Everything that pointed at `former` is repointed, except that an alias
      from the claimant to itself is dropped. */
  function Claimed(aliases: Aliases, paneId: string, former: string, workspace: string): Aliases {
    (map k | k in aliases && !(k == paneId && aliases[k].paneId == former) ::
       if aliases[k].paneId == former then PaneAlias(paneId, workspace) else aliases[k])
    [former := PaneAlias(paneId, workspace)]
  }

  /** One claim after the other, in the order the window declared them. */
  function ClaimAll(panes: map<string, RegisteredPane>, aliases: Aliases,
                    paneId: string, declared: seq<string>, workspace: string)
    : (r: (Aliases, seq<string>))
  {
    if declared == [] then (aliases, []) else
      var (before, accepted) := ClaimAll(panes, aliases, paneId, declared[..|declared| - 1], workspace);
      var former := Strip(declared[|declared| - 1]);
      if Claimable(panes, before, paneId, former, workspace)
      then (Claimed(before, paneId, former, workspace), accepted + [former])
      else (before, accepted)
  }

  function WithAliases(t: Tables, paneId: string, declared: seq<string>, workspacePath: string): Tables {
    t.(aliases := ClaimAll(t.panes, t.aliases, paneId, declared, NormalizeWorkspace(workspacePath)).0)
  }

  // ---- unregister, drop_owner, purge_expired, set_busy ----

  function AliasesNotTo(aliases: Aliases, paneId: string): Aliases {
    map k | k in aliases && aliases[k].paneId != paneId :: aliases[k]
  }

  function LastOf(s: seq<string>, n: nat): seq<string> {
    if |s| > n then s[|s| - n..] else s
  }

  function Remembered(forgotten: seq<string>, paneId: string): seq<string> {
    LastOf(Without(forgotten, paneId) + [paneId], FORGOTTEN_IDS_MAX)
  }

  /** What removing a pane's entry leaves behind. */
  function Gone(t: Tables, paneId: string): Tables {
    Tables(
      t.panes - {paneId}, t.owners - {paneId}, AliasesNotTo(t.aliases, paneId),
      if paneId in t.panes then Remembered(t.forgotten, paneId) else t.forgotten)
  }

  /** An owner-checked removal is refused once another window holds the id. */
  predicate HeldByAnother(t: Tables, paneId: string, owner: Option<Owner>) {
    owner.Some? && paneId in t.owners && t.owners[paneId] != owner.value
  }

  function Unregistered(t: Tables, paneId: string, owner: Option<Owner>): Tables {
    if HeldByAnother(t, paneId, owner) then t else Gone(t, paneId)
  }

  function OwnedBy(t: Tables, owner: Owner): set<string> {
    set id | id in t.owners && t.owners[id] == owner
  }

  function TakenOffline(p: RegisteredPane, now: real): RegisteredPane {
    if p.offlineSince.None? then p.(offlineSince := Some(now)) else p
  }

  function OwnerDropped(t: Tables, owner: Owner, now: real): Tables {
    var affected := OwnedBy(t, owner);
    t.(panes := map id | id in t.panes ::
         if id in affected then TakenOffline(t.panes[id], now) else t.panes[id],
       owners := t.owners - affected)
  }

  predicate Expired(p: RegisteredPane, now: real) {
    p.offlineSince.Some? && now - p.offlineSince.value >= OFFLINE_GRACE_S
  }

  function ExpiredIds(t: Tables, now: real): set<string> {
    set id | id in t.panes && Expired(t.panes[id], now)
  }

  /** Removes the listed panes, first to last. */
  function Purged(t: Tables, ids: seq<string>): Tables {
    if ids == [] then t else Gone(Purged(t, ids[..|ids| - 1]), ids[|ids| - 1])
  }

  function BusySet(t: Tables, paneId: string, busy: bool, displayStatus: Option<string>): Tables {
    if paneId !in t.panes then t else
      var p := t.panes[paneId];
      t.(panes := t.panes[paneId := p.(busy := busy,
           displayStatus := if displayStatus.Some? then displayStatus.value else p.displayStatus)])
  }

  lemma {:induction false} PurgedTables(t: Tables, ids: seq<string>)
    ensures Purged(t, ids).panes == t.panes - (set x | x in ids)
    ensures Purged(t, ids).owners == t.owners - (set x | x in ids)
    ensures forall k :: k in Purged(t, ids).aliases <==> k in t.aliases && t.aliases[k].paneId !in ids
    ensures forall k :: k in Purged(t, ids).aliases ==> Purged(t, ids).aliases[k] == t.aliases[k]
  {
    if ids != [] {
      var init, last := ids[..|ids| - 1], ids[|ids| - 1];
      assert ids == init + [last];
      PurgedTables(t, init);
    }
  }

  // ---- One step, and a run of steps ----

  /** `Mirror` is the window's register message: register, then add_aliases with
      the ids it declares. `Purge` carries the order the expired ids were met in. */
  datatype Event =
    | Mirror(handle: Handle, owner: Option<Owner>, declared: seq<string>)
    | Unregister(paneId: string, claimant: Option<Owner>)
    | DropOwner(dropped: Owner)
    | Purge(order: seq<string>)
    | SetBusy(id: string, busy: bool, displayStatus: Option<string>)

  datatype TimedEvent = At(now: real, event: Event)

  function Step(t: Tables, e: TimedEvent): Tables {
    match e.event
    case Mirror(h, owner, declared) =>
      WithAliases(Registered(t, h, owner), h.paneId, declared, h.workspacePath)
    case Unregister(id, owner) => Unregistered(t, id, owner)
    case DropOwner(owner) => OwnerDropped(t, owner, e.now)
    case Purge(order) => Purged(t, order)
    case SetBusy(id, busy, status) => BusySet(t, id, busy, status)
  }

  /** A purge removes exactly the panes whose grace period has run out. */
  ghost predicate Possible(t: Tables, e: TimedEvent) {
    e.event.Purge? ==> Enumerates(e.event.order, ExpiredIds(t, e.now))
  }

  /** `trace[i]` are the tables before the i-th event of a run that starts from
      the empty registry. */
  ghost predicate IsRun(trace: seq<Tables>, events: seq<TimedEvent>) {
    && |trace| == |events| + 1
    && trace[0] == EMPTY
    && forall i :: 0 <= i < |events| ==> Possible(trace[i], events[i]) && trace[i + 1] == Step(trace[i], events[i])
  }
}
