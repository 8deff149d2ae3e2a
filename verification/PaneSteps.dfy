/** What each registry operation does to the tables, entry by entry. */
module PaneSteps {
  import opened Wrappers
  import opened PaneTables
  import opened PaneInvariants

  /** Registering replaces one entry: what the window says, online, with the busy
      flag and status it had. The owner changes if the window gives one. */
  lemma RegisterEntryByEntry(t: Tables, h: Handle, owner: Option<Owner>, declared: seq<string>, now: real)
    ensures var after := Step(t, At(now, Mirror(h, owner, declared)));
      h.paneId in after.panes && after.panes == t.panes[h.paneId := after.panes[h.paneId]]
    ensures var p := Step(t, At(now, Mirror(h, owner, declared))).panes[h.paneId];
      && p.paneId == h.paneId && p.name == h.name && p.agentKey == h.agentKey && p.realized == h.realized
      && p.spawnedBy == h.spawnedBy && p.surface == h.surface && p.windowKind == h.windowKind
      && p.deliverable == h.deliverable && p.offlineSince == None
      && p.workspacePath <= h.workspacePath
      && (forall k :: |p.workspacePath| <= k < |h.workspacePath| ==> h.workspacePath[k] == '/')
      && p.busy == (h.paneId in t.panes && t.panes[h.paneId].busy)
      && p.displayStatus == if h.paneId in t.panes then t.panes[h.paneId].displayStatus else ""
    ensures var after := Step(t, At(now, Mirror(h, owner, declared)));
      && after.owners == (if owner.Some? then t.owners[h.paneId := owner.value] else t.owners)
      && forall x :: x in after.forgotten <==> x in t.forgotten && x != h.paneId
  {
  }

  /** Only another window's claim is refused. Otherwise the pane goes, with its
      owner and the aliases to it, and is remembered last. */
  lemma UnregisterEntryByEntry(t: Tables, id: string, claimant: Option<Owner>, now: real)
    ensures var after := Step(t, At(now, Unregister(id, claimant)));
      if claimant.Some? && id in t.owners && t.owners[id] != claimant.value then after == t else
        && after.panes == t.panes - {id} && after.owners == t.owners - {id}
        && (forall k :: k in after.aliases <==> k in t.aliases && t.aliases[k].paneId != id)
        && (forall k :: k in after.aliases ==> after.aliases[k] == t.aliases[k])
        && (id !in t.panes ==> after.forgotten == t.forgotten)
        && (id in t.panes ==> after.forgotten != [] && after.forgotten[|after.forgotten| - 1] == id)
  {
  }

  /** A disconnect takes the window's panes offline at that time, and no other. */
  lemma DisconnectEntryByEntry(t: Tables, owner: Owner, now: real, id: string)
    requires Consistent(t)
    ensures var after := Step(t, At(now, DropOwner(owner)));
      var held := id in t.owners && t.owners[id] == owner;
      && after.panes.Keys == t.panes.Keys
      && (id in t.panes ==> after.panes[id] == if held then t.panes[id].(offlineSince := Some(now)) else t.panes[id])
      && (id in after.owners <==> id in t.owners && !held)
      && (id in after.owners ==> after.owners[id] == t.owners[id])
      && after.aliases == t.aliases && after.forgotten == t.forgotten
  {
  }

  /** A sweep removes a pane exactly when it has been offline for 90 seconds. */
  lemma SweepEntryByEntry(t: Tables, order: seq<string>, now: real, id: string)
    requires Possible(t, At(now, Purge(order)))
    ensures var after := Step(t, At(now, Purge(order)));
      && (id in after.panes <==>
          id in t.panes && !(t.panes[id].offlineSince.Some? && now - t.panes[id].offlineSince.value >= 90.0))
      && (id in after.panes ==> after.panes[id] == t.panes[id])
      && (forall k :: k in after.aliases <==> k in t.aliases && t.aliases[k].paneId !in order)
      && (forall k :: k in after.aliases ==> after.aliases[k] == t.aliases[k])
  {
    PurgedTables(t, order);
  }

  /** A status message changes the flag and, if it carries one, the status. */
  lemma BusyEntryByEntry(t: Tables, id: string, busy: bool, status: Option<string>, now: real)
    ensures var after := Step(t, At(now, SetBusy(id, busy, status)));
      && after.owners == t.owners && after.aliases == t.aliases && after.forgotten == t.forgotten
      && (id !in t.panes ==> after.panes == t.panes)
      && (id in t.panes ==>
          after.panes.Keys == t.panes.Keys && (forall x :: x in t.panes && x != id ==> after.panes[x] == t.panes[x]))
      && (id in t.panes && status.None? ==> after.panes[id] == t.panes[id].(busy := busy))
      && (id in t.panes && status.Some? ==>
          after.panes[id] == t.panes[id].(busy := busy, displayStatus := status.value))
  {
  }

  /** The panes a message can be put into: connected, and either in the main
      window or in a docked surface that takes deliveries. */
  lemma WhoAcceptsMessages(p: RegisteredPane)
    ensures p.AcceptsMessages() <==>
      p.offlineSince == None && (p.surface == "" || p.surface == "main" || p.deliverable)
  {
  }
}
