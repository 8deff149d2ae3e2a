/** The registry object: four dictionaries changed in place, one operation at a
    time. Every method is proved to land on the tables `PaneTables` describes. */
module PaneRegistry {
  import opened Wrappers
  import opened Strings
  import opened PaneTables
  import opened PaneInvariants
  import opened PaneAddresses
  import opened PaneResolution

  class Registry {
    var panes: map<string, RegisteredPane>
    var owners: map<string, Owner>
    var aliases: map<string, PaneAlias>
    var forgotten: seq<string>

    ghost function State(): Tables
      reads this
    {
      Tables(panes, owners, aliases, forgotten)
    }

    constructor ()
      ensures State() == EMPTY
    {
      panes, owners, aliases, forgotten := map[], map[], map[], [];
    }

    method RememberForgotten(paneId: string)
      modifies this`forgotten
      ensures forgotten == Remembered(old(forgotten), paneId)
    {
      forgotten := Without(forgotten, paneId) + [paneId];
      ghost var all := forgotten;
      while |forgotten| > FORGOTTEN_IDS_MAX
        invariant |forgotten| <= |all| && forgotten == all[|all| - |forgotten|..]
        invariant |forgotten| >= FORGOTTEN_IDS_MAX || forgotten == all
      {
        forgotten := forgotten[1..];
      }
    }

    method Register(h: Handle, owner: Option<Owner>) returns (entry: RegisteredPane)
      modifies this
      ensures State() == Registered(old(State()), h, owner)
      ensures h.paneId in panes && entry == panes[h.paneId] && !entry.Offline()
    {
      entry := Entry(Lookup(panes, h.paneId), h);
      panes := panes[h.paneId := entry];
      forgotten := Without(forgotten, h.paneId);
      if owner.Some? {
        owners := owners[h.paneId := owner.value];
      }
    }

    /** Repoints the aliases of one former id, key by key. */
    method ClaimOne(paneId: string, former: string, workspace: string)
      requires former != paneId
      modifies this`aliases
      ensures aliases == Claimed(old(aliases), paneId, former, workspace)
    {
      var before := aliases;
      var pointing := set k | k in aliases && aliases[k].paneId == former;
      var keys := Elements(pointing);
      var done: set<string> := {};
      for i := 0 to |keys|
        invariant done == set j | 0 <= j < i :: keys[j]
        invariant aliases == map k | k in before && !(k == paneId && k in done) ::
                    if k in done then PaneAlias(paneId, workspace) else before[k]
      {
        var key := keys[i];
        assert key in pointing;
        if key == paneId {
          aliases := aliases - {key};
        } else {
          aliases := aliases[key := PaneAlias(paneId, workspace)];
        }
        done := done + {key};
      }
      assert done == pointing;
      aliases := aliases[former := PaneAlias(paneId, workspace)];
    }

    method AddAliases(paneId: string, declared: seq<string>, workspacePath: string) returns (accepted: seq<string>)
      modifies this`aliases
      ensures State() == WithAliases(old(State()), paneId, declared, workspacePath)
      ensures accepted == ClaimAll(panes, old(aliases), paneId, declared, NormalizeWorkspace(workspacePath)).1
    {
      var workspace := NormalizeWorkspace(workspacePath);
      accepted := [];
      for i := 0 to |declared|
        invariant panes == old(panes)
        invariant (aliases, accepted) == ClaimAll(panes, old(aliases), paneId, declared[..i], workspace)
      {
        assert declared[..i + 1][..i] == declared[..i];
        var former := Strip(declared[i]);
        if former == "" || former == paneId {
          continue;
        }
        if former in panes && panes[former].workspacePath != workspace {
          continue;
        }
        if former in aliases && aliases[former].workspacePath != workspace {
          continue;
        }
        ClaimOne(paneId, former, workspace);
        accepted := accepted + [former];
      }
      assert declared[..|declared|] == declared;
    }

    /** The window's register message: mirror the pane, then its former ids. */
    method MirrorPane(h: Handle, owner: Option<Owner>, declared: seq<string>)
      returns (entry: RegisteredPane, accepted: seq<string>)
      modifies this
      ensures forall now :: State() == Step(old(State()), At(now, Mirror(h, owner, declared)))
      ensures entry == Entry(Lookup(old(panes), h.paneId), h)
    {
      entry := Register(h, owner);
      accepted := AddAliases(h.paneId, declared, h.workspacePath);
    }

    method ForgetAliasesTo(paneId: string)
      modifies this`aliases
      ensures aliases == AliasesNotTo(old(aliases), paneId)
    {
      var before := aliases;
      var pointing := set k | k in aliases && aliases[k].paneId == paneId;
      var keys := Elements(pointing);
      for i := 0 to |keys|
        invariant aliases == before - (set j | 0 <= j < i :: keys[j])
      {
        aliases := aliases - {keys[i]};
      }
      assert pointing == set j | 0 <= j < |keys| :: keys[j];
    }

    method Unregister(paneId: string, owner: Option<Owner>) returns (removed: bool)
      modifies this
      ensures State() == Unregistered(old(State()), paneId, owner)
      ensures removed <==> !HeldByAnother(old(State()), paneId, owner)
    {
      if owner.Some? && paneId in owners && owners[paneId] != owner.value {
        return false;
      }
      if paneId in panes {
        panes := panes - {paneId};
        RememberForgotten(paneId);
      }
      owners := owners - {paneId};
      ForgetAliasesTo(paneId);
      return true;
    }

    method DropOwner(owner: Owner, now: real) returns (affected: seq<string>)
      modifies this
      ensures State() == OwnerDropped(old(State()), owner, now)
      ensures Enumerates(affected, OwnedBy(old(State()), owner))
    {
      ghost var before := State();
      affected := Elements(OwnedBy(Tables(panes, owners, aliases, forgotten), owner));
      ghost var done: set<string> := {};
      for i := 0 to |affected|
        invariant done == set j | 0 <= j < i :: affected[j]
        invariant aliases == before.aliases && forgotten == before.forgotten
        invariant owners == before.owners - done
        invariant panes == map id | id in before.panes ::
                    if id in done then TakenOffline(before.panes[id], now) else before.panes[id]
      {
        var paneId := affected[i];
        owners := owners - {paneId};
        if paneId in panes && panes[paneId].offlineSince.None? {
          panes := panes[paneId := panes[paneId].(offlineSince := Some(now))];
        }
        done := done + {paneId};
      }
      assert done == OwnedBy(before, owner);
    }

    /** The lazy sweep every read starts with. */
    method PurgeExpired(now: real) returns (expired: seq<string>)
      modifies this
      ensures Enumerates(expired, ExpiredIds(old(State()), now))
      ensures State() == Purged(old(State()), expired)
    {
      hide Remembered, AliasesNotTo, Expired;
      ghost var before := State();
      expired := Elements(ExpiredIds(Tables(panes, owners, aliases, forgotten), now));
      for i := 0 to |expired|
        invariant State() == Purged(before, expired[..i])
      {
        var paneId := expired[i];
        assert expired[..i + 1][..i] == expired[..i];
        PurgedTables(before, expired[..i]);
        assert paneId in ExpiredIds(before, now) && paneId !in expired[..i];
        assert paneId in panes;
        panes := panes - {paneId};
        RememberForgotten(paneId);
        owners := owners - {paneId};
        ForgetAliasesTo(paneId);
      }
      assert expired[..|expired|] == expired;
    }

    method SetBusy(paneId: string, busy: bool, displayStatus: Option<string>) returns (changed: bool)
      modifies this
      ensures State() == BusySet(old(State()), paneId, busy, displayStatus)
      ensures changed <==> State() != old(State())
    {
      if paneId !in panes {
        return false;
      }
      changed := false;
      var entry := panes[paneId];
      if entry.busy != busy {
        entry := entry.(busy := busy);
        changed := true;
      }
      if displayStatus.Some? && entry.displayStatus != displayStatus.value {
        entry := entry.(displayStatus := displayStatus.value);
        changed := true;
      }
      panes := panes[paneId := entry];
    }

    /** The pane a possibly superseded id names right now. */
    method CurrentPane(paneId: string, now: real) returns (entry: Option<RegisteredPane>)
      modifies this
      ensures Swept(old(State()), State(), now)
      ensures entry == Current(State(), paneId)
      ensures entry.Some? ==> !Expired(entry.value, now)
    {
      var order := PurgeExpired(now);
      PurgedTables(old(State()), order);
      if paneId in aliases {
        entry := Lookup(panes, aliases[paneId].paneId);
      } else {
        entry := Lookup(panes, paneId);
      }
    }

    method FormerIdsOf(paneId: string) returns (former: seq<string>)
      ensures Enumerates(former, FormerIds(aliases, paneId))
    {
      former := [];
      var keys := Elements(aliases.Keys);
      for i := 0 to |keys|
        invariant Distinct(former)
        invariant forall x :: x in former <==> x in keys[..i] && x in aliases && aliases[x].paneId == paneId
      {
        assert keys[i] in aliases && keys[i] !in keys[..i];
        if aliases[keys[i]].paneId == paneId {
          former := former + [keys[i]];
        }
      }
    }

    // ---- Resolution ----

    method MatchingWorkspaces(part: string) returns (matched: set<string>)
      ensures matched == MatchWorkspaces(panes, part)
    {
      var want := NormalizeWorkspace(part);
      if want == "" {
        return {};
      }
      var known := Workspaces(panes);
      if want in known {
        return {want};
      }
      matched := {};
      var order := Elements(known);
      for i := 0 to |order|
        invariant forall w :: w in matched <==> w in order[..i] && AnswersTo(w, want)
      {
        if AnswersTo(order[i], want) {
          matched := matched + {order[i]};
        }
      }
    }

    /** Scans the panes of one name in one workspace and refuses to guess. */
    method PickPane(sender: string, workspace: string, name: string, none: Refusal) returns (r: ResolveResult)
      ensures r == Pick(panes, sender, workspace, name, none)
    {
      var hits, online: set<string> := {}, {};
      var order := Elements(panes.Keys);
      for i := 0 to |order|
        invariant forall id :: id in hits <==> id in order[..i] && id in Namesakes(panes, workspace, name)
        invariant online <= hits && forall id :: id in online <==> id in hits && !panes[id].Offline()
      {
        var entry := panes[order[i]];
        if entry.workspacePath == workspace && entry.name == name {
          hits := hits + {order[i]};
          if !entry.Offline() {
            online := online + {order[i]};
          }
        }
      }
      assert hits == Namesakes(panes, workspace, name);
      var picks := if online != {} then online else hits;
      assert picks == PreferOnline(panes, hits);
      if picks == {} {
        return Refused(none);
      }
      if |picks| > 1 {
        return Refused(AmbiguousTarget(|picks|));
      }
      var id :| id in picks;
      PickCases(panes, sender, workspace, name, none, id);
      SoleElement(picks, id);
      r := Accept(panes[id], Crosses(panes, sender, panes[id]));
    }

    method ResolveIn(sender: string, reading: Reading) returns (r: ResolveResult)
      ensures r == ResolveReading(panes, sender, reading)
    {
      match reading
      case Nothing => return Refused(EmptyTarget);
      case Foreign(device) => return Refused(UnknownDevice);
      case Unnamed => return Refused(MissingPaneName);
      case Bare(name) =>
        if sender !in panes {
          return Refused(UnknownTarget);
        }
        r := PickPane(sender, panes[sender].workspacePath, name, UnknownTarget);
      case Qualified(part, name) =>
        var candidates := MatchingWorkspaces(part);
        if candidates == {} {
          return Refused(UnknownWorkspace);
        }
        if |candidates| > 1 {
          return Refused(AmbiguousWorkspace(|candidates|));
        }
        var workspace :| workspace in candidates;
        SoleElement(candidates, workspace);
        r := PickPane(sender, workspace, name, UnknownTargetInWorkspace);
    }

    /** Reads a target; only one that can name a local pane sweeps the registry
        before it is looked up. */
    method Resolve(localIds: set<string>, sender: string, to: string, now: real) returns (r: ResolveResult)
      modifies this
      ensures r == PaneResolution.Resolve(panes, localIds, sender, to)
      ensures Swept(old(State()), State(), now)
        || (State() == old(State()) && (Read(localIds, to).Nothing? || Read(localIds, to).Foreign?))
    {
      var reading := Read(localIds, to);
      if !reading.Nothing? && !reading.Foreign? {
        var expired := PurgeExpired(now);
      }
      r := ResolveIn(sender, reading);
    }

    method ResolveAddress(localIds: set<string>, sender: string, a: Address, now: real) returns (r: ResolveResult)
      modifies this
      ensures r == PaneResolution.ResolveAddress(panes, localIds, sender, a)
      ensures State() == old(State()) || Swept(old(State()), State(), now)
    {
      if a.deviceId != "" && a.deviceId !in localIds {
        return Refused(UnknownDevice);
      }
      if a.paneId != "" && a.paneName != "" {
        var expired := PurgeExpired(now);
        SweptOnce(old(State()), State(), now);
        if a.paneId in panes {
          var entry := panes[a.paneId];
          var matches := MatchingWorkspaces(a.workspace);
          if entry.name == a.paneName
             && (if a.workspace == "" then sender in panes && entry.workspacePath == panes[sender].workspacePath
                 else entry.workspacePath in matches) {
            return Accept(entry, Crosses(panes, sender, entry));
          }
        }
      }
      r := Resolve(localIds, sender, a.LocalTarget(), now);
    }
  }

  /** The registry after the sweep that precedes a read. */
  ghost predicate Swept(before: Tables, after: Tables, now: real) {
    exists order :: Enumerates(order, ExpiredIds(before, now)) && after == Purged(before, order)
  }

  /** A second sweep at the same time finds nothing. */
  lemma SweptOnce(before: Tables, after: Tables, now: real)
    requires Swept(before, after, now)
    ensures ExpiredIds(after, now) == {}
    ensures forall again :: Swept(after, again, now) ==> again == after
  {
    var order :| Enumerates(order, ExpiredIds(before, now)) && after == Purged(before, order);
    PurgedTables(before, order);
    forall again | Swept(after, again, now) ensures again == after {
      var none :| Enumerates(none, ExpiredIds(after, now)) && again == Purged(after, none);
      NothingToList(none);
    }
  }
}
