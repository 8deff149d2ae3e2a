/** What the repair of run-group ids guarantees about the projects it ends with,
    whatever order the shared ids are met in. */
module RunGroupResults {
  import opened Wrappers
  import opened RunGroups
  import opened RunGroupRepair

  /** The histories of a finished repair: a project loses a shared id exactly when
      another project keeps it; the record goes if it is an artifact, otherwise
      every reference gets a new id. */
  ghost predicate Finished(read: seq<Project>, r: Repair, hs: seq<History>) {
    && Repairing(read, r, hs)
    && forall i: nat, x :: i < |read| ==>
         && (x in hs[i].renamed <==> Loses(read, i, x) && !IsArtifact(read[i], x))
         && (x in hs[i].dropped <==> Loses(read, i, x) && IsArtifact(read[i], x))
  }

  lemma RepairFinishes(read: seq<Project>, order: seq<string>) returns (hs: seq<History>)
    requires Enumerates(order, SharedIds(read))
    ensures forall k :: 0 <= k < |order| ==> order[k] in SharedIds(read)
    ensures Finished(read, RepairAll(read, order), hs)
  {
    hs := TreatAll(read, order);
    forall i: nat, x | i < |read| ensures Loses(read, i, x) ==> x in order {
    }
  }

  lemma {:induction false} GroupIdsNow(groups: seq<Group>, h: History, id: string)
    ensures Record(GroupsNow(groups, h), id).Some? <==>
      exists g :: g in groups && g.id !in h.dropped && Now(h, g.id) == id
  {
    hide Now;
    if groups != [] {
      GroupIdsNow(groups[1..], h, id);
      var rest := GroupsNow(groups[1..], h);
      var g := groups[0].(id := Now(h, groups[0].id));
      assert ([g] + rest)[1..] == rest && [] + rest == rest;
      assert forall x :: x in groups <==> x == groups[0] || x in groups[1..];
    }
  }

  lemma LivePaneIsShown(p: Project, k: nat)
    requires k < |p.panes| && p.panes[k].Live() && p.panes[k].groupId != ""
    ensures p.panes[k].groupId in Shown(p)
  {
  }

  lemma WhyShown(p: Project, x: string) returns (k: Option<nat>)
    requires x in Shown(p)
    ensures x != ""
    ensures k.Some? ==> k.value < |p.panes| && p.panes[k.value].Live() && p.panes[k.value].groupId == x
    ensures k.None? ==> Record(p.groups, x).Some?
  {
    if j :| 0 <= j < |p.panes| && p.panes[j].Live() && p.panes[j].groupId == x {
      k := Some(j);
    } else {
      k := None;
    }
  }

  /** Whatever a repaired project shows is the new name of an id it showed before
      and did not lose. */
  lemma ShownHasSource(before: Project, p: Project, h: History, original: set<string>, taken: set<string>, x: string)
    returns (y: string)
    requires ProjectOk(before, p, h, original, taken) && x in Shown(p) && "" !in original
    requires forall d :: d in h.dropped ==> LiveCount(before.panes, d) == 0
    ensures y in Shown(before) && y !in h.dropped && Now(h, y) == x
  {
    assert "" !in h.renamed;
    hide FreshNames, MintedFor;
    var k := WhyShown(p, x);
    hide Shown;
    if k.Some? {
      y := before.panes[k.value].groupId;
      assert Now(h, y) == x && before.panes[k.value].Live();
      LivePaneIsShown(before, k.value);
    } else {
      GroupIdsNow(before.groups, h, x);
      var b :| b in before.groups && b.id !in h.dropped && Now(h, b.id) == x;
      y := b.id;
      RecordIsShown(before, b);
    }
  }

  lemma RecordIsShown(p: Project, g: Group)
    requires g in p.groups && g.id != ""
    ensures g.id in Shown(p)
  {
  }

  /** The histories' losses cost no project a live pane. */
  lemma LossesAreEmpty(read: seq<Project>, r: Repair, hs: seq<History>, i: nat)
    requires Finished(read, r, hs) && i < |read|
    ensures forall d :: d in hs[i].dropped ==> LiveCount(read[i].panes, d) == 0
  {
  }

  lemma TakenIsNamed(read: seq<Project>)
    ensures "" !in Taken(read)
  {
  }

  /** An id shown after the repair is a new name, or an id the project kept. */
  lemma ShownAfterwards(read: seq<Project>, r: Repair, hs: seq<History>, i: nat, x: string) returns (y: string)
    requires Finished(read, r, hs) && i < |read| && x in Shown(r.projects[i])
    ensures y in Shown(read[i]) && y in Taken(read)
    ensures (y in hs[i].renamed && x == hs[i].renamed[y] && x !in Taken(read))
         || (x == y && !Loses(read, i, x))
  {
    hide Loses, IsArtifact, Shown;
    TakenIsNamed(read);
    LossesAreEmpty(read, r, hs, i);
    assert ProjectOk(read[i], r.projects[i], hs[i], Taken(read), r.taken);
    y := ShownHasSource(read[i], r.projects[i], hs[i], Taken(read), r.taken, x);
    ShownIsTaken(read, i, y);
  }

  lemma TwoHoldersShare(read: seq<Project>, i: nat, j: nat, gid: string)
    requires i < |read| && j < |read| && i != j && gid in Shown(read[i]) && gid in Shown(read[j])
    requires RunGroupCreatedAt(gid).Some?
    ensures gid in SharedIds(read) && (Loses(read, i, gid) || Loses(read, j, gid))
  {
    hide Shown, RunGroupCreatedAt;
    var holders := Holders(read, gid);
    assert i in holders && j in holders;
    assert |holders| > 1;
  }

  /** After the repair no id of the epoch shape has a record or a running pane in
      two projects. */
  lemma NoSharedIdIsLeft(read: seq<Project>, order: seq<string>, i: nat, j: nat, gid: string)
    requires Enumerates(order, SharedIds(read)) && i < |read| && j < |read| && i != j
    requires RunGroupCreatedAt(gid).Some?
    ensures forall k :: 0 <= k < |order| ==> order[k] in SharedIds(read)
    ensures var after := RepairAll(read, order).projects;
      !(Holds(after[i], gid) && Holds(after[j], gid))
  {
    hide Shown, RunGroupCreatedAt, Loses, IsArtifact, Holds;
    var hs := RepairFinishes(read, order);
    var r := RepairAll(read, order);
    ShownIsHeld(r.projects[i], gid);
    ShownIsHeld(r.projects[j], gid);
    if gid in Shown(r.projects[i]) && gid in Shown(r.projects[j]) {
      var y := ShownAfterwards(read, r, hs, i, gid);
      var z := ShownAfterwards(read, r, hs, j, gid);
      if y == gid && z == gid {
        TwoHoldersShare(read, i, j, gid);
      }
    }
  }

  /** A new name carries a number not below that of the id it replaces, and no
      record or pane of any project, running or not, had it before. */
  lemma NewNamesAreNew(read: seq<Project>, order: seq<string>, i: nat, a: nat, j: nat) returns (stamp: nat)
    requires Enumerates(order, SharedIds(read)) && i < |read| && a < |read[i].panes| && j < |read|
    ensures forall k :: 0 <= k < |order| ==> order[k] in SharedIds(read)
    ensures |RepairAll(read, order).projects[i].panes| == |read[i].panes|
    ensures var was, now := read[i].panes[a].groupId, RepairAll(read, order).projects[i].panes[a].groupId;
      was != now ==>
        && RunGroupCreatedAt(was).Some? && stamp >= RunGroupCreatedAt(was).value && now == IdOf(stamp)
        && (forall b :: 0 <= b < |read[j].panes| ==> read[j].panes[b].groupId != now)
        && (forall b :: 0 <= b < |read[j].groups| ==> read[j].groups[b].id != now)
  {
    hide *;
    var hs := RepairFinishes(read, order);
    var r := RepairAll(read, order);
    FinishedPane(read, r, hs, i, a);
    stamp := 0;
    if read[i].panes[a].groupId in hs[i].renamed {
      stamp := RenamedIsNew(read, r, hs, i, j, read[i].panes[a].groupId);
    }
  }

  lemma FinishedPane(read: seq<Project>, r: Repair, hs: seq<History>, i: nat, a: nat)
    requires Finished(read, r, hs) && i < |read| && a < |read[i].panes|
    ensures |r.projects| == |hs| == |read| && |r.projects[i].panes| == |read[i].panes|
    ensures var was := read[i].panes[a].groupId;
      r.projects[i].panes[a].groupId == if was in hs[i].renamed then hs[i].renamed[was] else was
  {
    hide Loses, IsArtifact, FreshNames, MintedFor, Taken;
    assert ProjectOk(read[i], r.projects[i], hs[i], Taken(read), r.taken);
  }

  lemma RenamedIsNew(read: seq<Project>, r: Repair, hs: seq<History>, i: nat, j: nat, was: string)
    returns (stamp: nat)
    requires Finished(read, r, hs) && i < |read| && j < |read| && |hs| == |read| && was in hs[i].renamed
    ensures RunGroupCreatedAt(was).Some? && stamp >= RunGroupCreatedAt(was).value && hs[i].renamed[was] == IdOf(stamp)
    ensures forall b :: 0 <= b < |read[j].panes| ==> read[j].panes[b].groupId != hs[i].renamed[was]
    ensures forall b :: 0 <= b < |read[j].groups| ==> read[j].groups[b].id != hs[i].renamed[was]
  {
    hide RunGroupCreatedAt, IdOf, Loses, IsArtifact, Derived, Taken;
    assert ProjectOk(read[i], r.projects[i], hs[i], Taken(read), r.taken);
    stamp :| hs[i].renamed[was] == IdOf(stamp) && RunGroupCreatedAt(was).Some?
             && stamp >= RunGroupCreatedAt(was).value;
    MentionsAreTaken(read, j);
  }

  lemma MentionsAreTaken(read: seq<Project>, j: nat)
    requires j < |read|
    ensures forall b :: 0 <= b < |read[j].panes| ==>
      read[j].panes[b].groupId == "" || read[j].panes[b].groupId in Taken(read)
    ensures forall b :: 0 <= b < |read[j].groups| ==>
      read[j].groups[b].id == "" || read[j].groups[b].id in Taken(read)
  {
    forall b | 0 <= b < |read[j].panes|
      ensures read[j].panes[b].groupId == "" || read[j].panes[b].groupId in Taken(read)
    {
      PaneIdIsTaken(read, j, b);
    }
    forall b | 0 <= b < |read[j].groups|
      ensures read[j].groups[b].id == "" || read[j].groups[b].id in Taken(read)
    {
      assert read[j].groups[b] in read[j].groups;
      assert read[j].groups[b].id != "" ==> read[j].groups[b].id in Mentioned(read[j]);
    }
  }

  /** Two panes of a project share a group afterwards exactly if they did
      before; the panes themselves are otherwise untouched. */
  lemma PanesKeepTheirGroups(read: seq<Project>, order: seq<string>, i: nat, a: nat, b: nat)
    requires Enumerates(order, SharedIds(read)) && i < |read|
    requires a < |read[i].panes| && b < |read[i].panes|
    ensures forall k :: 0 <= k < |order| ==> order[k] in SharedIds(read)
    ensures var p, q := read[i].panes, RepairAll(read, order).projects[i].panes;
      && |q| == |p|
      && (q[a].groupId == q[b].groupId <==> p[a].groupId == p[b].groupId)
      && q[a] == p[a].(groupId := q[a].groupId)
  {
    var hs := RepairFinishes(read, order);
    var r := RepairAll(read, order);
    assert ProjectOk(read[i], r.projects[i], hs[i], Taken(read), r.taken);
    PaneIdIsTaken(read, i, a);
    PaneIdIsTaken(read, i, b);
  }

  lemma PaneIdIsTaken(read: seq<Project>, i: nat, a: nat)
    requires i < |read| && a < |read[i].panes|
    ensures read[i].panes[a].groupId == "" || read[i].panes[a].groupId in Taken(read)
  {
    var id := read[i].panes[a].groupId;
    assert read[i].panes[a] in read[i].panes;
    assert id != "" ==> id in Mentioned(read[i]);
  }

  /** An active tab that named a group record still names one, or is empty when
      no record is left. */
  lemma ActiveTabStillNames(read: seq<Project>, order: seq<string>, i: nat)
    requires Enumerates(order, SharedIds(read)) && i < |read|
    requires NamesGroup(read[i], read[i].activeTab)
    ensures forall k :: 0 <= k < |order| ==> order[k] in SharedIds(read)
    ensures var q := RepairAll(read, order).projects[i];
      NamesGroup(q, q.activeTab) || (q.groups == [] && q.activeTab == "")
  {
    hide Loses, IsArtifact;
    var hs := RepairFinishes(read, order);
    var r := RepairAll(read, order);
    assert ProjectOk(read[i], r.projects[i], hs[i], Taken(read), r.taken);
    GroupIdsNow(read[i].groups, hs[i], r.projects[i].activeTab);
  }

  /** A reference to a record, from the tab order or a pane, follows the record:
      rewritten together with it, or gone from the tabs with it when no live pane
      referred to it. */
  ghost predicate ReferencesFollow(p: Project, q: Project, h: History, id: string) {
    if id in h.dropped then
      && !NamesGroup(q, id) && id !in q.tabOrder
      && forall a :: 0 <= a < |p.panes| && p.panes[a].Live() ==> p.panes[a].groupId != id
    else
      && NamesGroup(q, Now(h, id))
      && (id in p.tabOrder ==> Now(h, id) in q.tabOrder)
      && forall a :: 0 <= a < |p.panes| && a < |q.panes| && p.panes[a].groupId == id ==>
          q.panes[a].groupId == Now(h, id)
  }

  lemma ReferencesFollowHistory(p: Project, q: Project, h: History, original: set<string>, taken: set<string>,
                                id: string)
    requires ProjectOk(p, q, h, original, taken) && NamesGroup(p, id)
    requires id in h.dropped ==> LiveCount(p.panes, id) == 0
    ensures ReferencesFollow(p, q, h, id)
  {
    hide MintedFor;
    GroupIdsNow(p.groups, h, Now(h, id));
    GroupIdsNow(p.groups, h, id);
    TabNow(p.tabOrder, h, id);
    assert id in h.dropped ==> forall x :: Now(h, x) == id ==> x == id;
  }

  /** No reference to a group record is orphaned, in any project. */
  lemma NoReferenceIsOrphaned(read: seq<Project>, order: seq<string>, i: nat, id: string) returns (hs: seq<History>)
    requires Enumerates(order, SharedIds(read)) && i < |read| && NamesGroup(read[i], id)
    ensures forall k :: 0 <= k < |order| ==> order[k] in SharedIds(read)
    ensures Finished(read, RepairAll(read, order), hs)
    ensures ReferencesFollow(read[i], RepairAll(read, order).projects[i], hs[i], id)
  {
    hide Loses, IsArtifact, ReferencesFollow;
    hs := RepairFinishes(read, order);
    var r := RepairAll(read, order);
    assert ProjectOk(read[i], r.projects[i], hs[i], Taken(read), r.taken);
    LossesAreEmpty(read, r, hs, i);
    ReferencesFollowHistory(read[i], r.projects[i], hs[i], Taken(read), r.taken, id);
  }

  lemma {:induction false} TabNow(tabs: seq<string>, h: History, id: string)
    ensures id in tabs && id !in h.dropped ==> Now(h, id) in TabsNow(tabs, h)
    ensures id in h.dropped && (forall x :: Now(h, x) == id ==> x == id) ==> id !in TabsNow(tabs, h)
  {
    if tabs != [] {
      TabNow(tabs[1..], h, id);
    }
  }

  // ---- Which records disappear ----

  predicate OneRecordPerId(p: Project) {
    forall a, b :: 0 <= a < b < |p.groups| ==> p.groups[a].id != p.groups[b].id
  }

  /** A record is gone afterwards exactly when its project loses the id and the
      first record of that id is an artifact. */
  lemma RecordVanishesIff(read: seq<Project>, order: seq<string>, i: nat, g: Group) returns (hs: seq<History>)
    requires Enumerates(order, SharedIds(read)) && i < |read| && g in read[i].groups
    ensures forall k :: 0 <= k < |order| ==> order[k] in SharedIds(read)
    ensures Finished(read, RepairAll(read, order), hs)
    ensures g.(id := Now(hs[i], g.id)) in RepairAll(read, order).projects[i].groups
       <==> !(Loses(read, i, g.id) && IsArtifact(read[i], g.id))
  {
    hide Loses, IsArtifact;
    hs := RepairFinishes(read, order);
    var r := RepairAll(read, order);
    assert ProjectOk(read[i], r.projects[i], hs[i], Taken(read), r.taken);
    RecordNow(read[i], r.projects[i], hs[i], Taken(read), r.taken, g);
  }

  lemma RecordNow(p: Project, q: Project, h: History, original: set<string>, taken: set<string>, g: Group)
    requires ProjectOk(p, q, h, original, taken) && g in p.groups
    ensures g.(id := Now(h, g.id)) in q.groups <==> g.id !in h.dropped
  {
    hide MintedFor;
    if g.id in h.dropped {
      GroupIdsNow(p.groups, h, g.id);
      assert forall x :: Now(h, x) == g.id ==> x == g.id;
      assert Now(h, g.id) == g.id;
    } else {
      GroupNow(p.groups, h, g);
    }
  }

  lemma {:induction false} GroupNow(groups: seq<Group>, h: History, g: Group)
    requires g in groups && g.id !in h.dropped
    ensures g.(id := Now(h, g.id)) in GroupsNow(groups, h)
  {
    if groups[0] != g {
      GroupNow(groups[1..], h, g);
    }
  }

  lemma ArtifactByItself(p: Project, g: Group)
    requires OneRecordPerId(p) && g in p.groups
    ensures IsArtifact(p, g.id) <==>
      AutoNamed(g.name) && forall a :: 0 <= a < |p.panes| && p.panes[a].Live() ==> p.panes[a].groupId != g.id
  {
    hide AutoNamed;
    var record := Record(p.groups, g.id).value;
    var a :| 0 <= a < |p.groups| && p.groups[a] == record;
    var b :| 0 <= b < |p.groups| && p.groups[b] == g;
    assert a == b;
  }

  /** Where a project has one record per id, the repair makes a record disappear
      exactly when the project loses the id, the name is automatic and no live
      pane is in the group. */
  lemma OnlyArtifactsVanish(read: seq<Project>, order: seq<string>, i: nat, g: Group) returns (hs: seq<History>)
    requires Enumerates(order, SharedIds(read)) && i < |read| && g in read[i].groups && OneRecordPerId(read[i])
    ensures forall k :: 0 <= k < |order| ==> order[k] in SharedIds(read)
    ensures Finished(read, RepairAll(read, order), hs)
    ensures g.(id := Now(hs[i], g.id)) !in RepairAll(read, order).projects[i].groups <==>
      && Loses(read, i, g.id) && AutoNamed(g.name)
      && forall a :: 0 <= a < |read[i].panes| && read[i].panes[a].Live() ==> read[i].panes[a].groupId != g.id
  {
    hide Loses, IsArtifact, AutoNamed, OneRecordPerId, SharedIds;
    ArtifactByItself(read[i], g);
    hs := RecordVanishesIff(read, order, i, g);
  }

  lemma LowerRankLoses(p: Project, q: Project, id: string)
    requires id in Shown(p) && id in Shown(q) && RunGroupCreatedAt(id).Some? && !RankLe(p, q, id)
    ensures Loses([p, q], 0, id)
  {
    hide Shown, RunGroupCreatedAt, RankLe;
    var read := [p, q];
    assert read[..1] == [p] && [p][..0] == [];
    assert Holders([p], id) == [0];
    assert Holders(read, id) == [0, 1];
    assert [0, 1][..1] == [0];
    assert Keeper(read, [0], id) == 0 && Keeper(read, [0, 1], id) == 1;
  }

  lemma DroppedRecordIsGone(read: seq<Project>, order: seq<string>, i: nat, g: Group)
    requires Enumerates(order, SharedIds(read)) && i < |read| && g in read[i].groups
    requires Loses(read, i, g.id) && IsArtifact(read[i], g.id)
    ensures forall k :: 0 <= k < |order| ==> order[k] in SharedIds(read)
    ensures g !in RepairAll(read, order).projects[i].groups
  {
    hide *;
    var hs := RecordVanishesIff(read, order, i, g);
    DroppedIsNotRenamed(read, RepairAll(read, order), hs, i, g.id);
    assert g.(id := g.id) == g;
  }

  lemma DroppedIsNotRenamed(read: seq<Project>, r: Repair, hs: seq<History>, i: nat, id: string)
    requires Finished(read, r, hs) && i < |read| && Loses(read, i, id) && IsArtifact(read[i], id)
    ensures |hs| == |read| && Now(hs[i], id) == id
  {
    hide Loses, IsArtifact, Derived, FreshNames, Taken;
  }

  /** Without that, the repair can drop a group the user named: it shares its id
      with an earlier automatic record, and both go. */
  lemma UserNamedTwinVanishes(id: string, auto: string, mine: string, other: string) returns (p: Project, q: Project)
    requires RunGroupCreatedAt(id).Some? && AutoNamed(auto) && !AutoNamed(mine)
    requires !AutoNamed(other) && other != "(no record)"
    ensures Group(id, mine) in p.groups
    ensures forall order :: Enumerates(order, SharedIds([p, q])) ==>
      && (forall k :: 0 <= k < |order| ==> order[k] in SharedIds([p, q]))
      && Group(id, mine) !in RepairAll([p, q], order).projects[0].groups
  {
    hide AutoNamed, RunGroupCreatedAt, SharedIds;
    p := Project("/a", [Group(id, auto), Group(id, mine)], [], id, []);
    q := Project("/b", [Group(id, other)], [], id, []);
    TwinLoses(p, q, id, auto, mine, other);
    hide Loses, IsArtifact, RepairAll;
    assert p.groups[1] == Group(id, mine);
    forall order | Enumerates(order, SharedIds([p, q]))
      ensures forall k :: 0 <= k < |order| ==> order[k] in SharedIds([p, q])
      ensures Group(id, mine) !in RepairAll([p, q], order).projects[0].groups
    {
      DroppedRecordIsGone([p, q], order, 0, Group(id, mine));
    }
  }

  lemma TwinLoses(p: Project, q: Project, id: string, auto: string, mine: string, other: string)
    requires RunGroupCreatedAt(id).Some? && AutoNamed(auto) && !AutoNamed(other) && other != "(no record)"
    requires p == Project("/a", [Group(id, auto), Group(id, mine)], [], id, [])
    requires q == Project("/b", [Group(id, other)], [], id, [])
    ensures Loses([p, q], 0, id) && IsArtifact(p, id)
  {
    hide AutoNamed, RunGroupCreatedAt;
    assert p.groups[0].id == id && p.groups[1].id == id && q.groups[0].id == id;
    RecordIsShown(p, p.groups[0]);
    RecordIsShown(q, q.groups[0]);
    LowerRankLoses(p, q, id);
  }
}
