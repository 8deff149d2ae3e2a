/** The repair of ids that leaked from one project into another: the loops over
    shared ids and their holders, and what they leave behind. */
module RunGroupRepair {
  import opened Wrappers
  import opened RunGroups

  // ---- The loops, as a function of the projects read ----

  /** The projects that show an id, in the order they were read. */
  function Holders(projects: seq<Project>, gid: string): (holders: seq<nat>)
    ensures forall i :: 0 <= i < |holders| ==> holders[i] < |projects|
    ensures forall i: nat :: i in holders <==> i < |projects| && gid in Shown(projects[i])
    ensures Distinct(holders)
  {
    if projects == [] then []
    else Holders(projects[..|projects| - 1], gid) +
         (if gid in Shown(projects[|projects| - 1]) then [|projects| - 1] else [])
  }

  /** Ids of the epoch shape shown by more than one project. */
  function SharedIds(projects: seq<Project>): set<string> {
    set i, gid | 0 <= i < |projects| && gid in Shown(projects[i])
                 && RunGroupCreatedAt(gid).Some? && |Holders(projects, gid)| > 1 :: gid
  }

  function Taken(projects: seq<Project>): set<string> {
    set i, gid | 0 <= i < |projects| && gid in Mentioned(projects[i]) :: gid
  }

  datatype Repair = Repair(projects: seq<Project>, taken: set<string>)

  /** One holder of a shared id: the keeper is left alone, an artifact loses its
      record, everybody else gets a new id. */
  function RepairHolder(r: Repair, gid: string, keeper: nat, i: nat): (s: Repair)
    requires RunGroupCreatedAt(gid).Some? && i < |r.projects|
    ensures |s.projects| == |r.projects|
  {
    if i == keeper then r
    else if IsArtifact(r.projects[i], gid) then r.(projects := r.projects[i := Dropped(r.projects[i], gid)])
    else
      var id := IdOf(FreeStamp(RunGroupCreatedAt(gid).value, r.taken));
      Repair(r.projects[i := Reassigned(r.projects[i], gid, id)], r.taken + {id})
  }

  function RepairHolders(r: Repair, gid: string, keeper: nat, holders: seq<nat>): (s: Repair)
    requires RunGroupCreatedAt(gid).Some?
    requires forall i :: 0 <= i < |holders| ==> holders[i] < |r.projects|
    ensures |s.projects| == |r.projects|
  {
    if holders == [] then r
    else RepairHolder(RepairHolders(r, gid, keeper, holders[..|holders| - 1]), gid, keeper, holders[|holders| - 1])
  }

  lemma SharedHasHolders(projects: seq<Project>, gid: string)
    requires gid in SharedIds(projects)
    ensures RunGroupCreatedAt(gid).Some? && Holders(projects, gid) != []
  {
  }

  /** `owners` was filled once, from the projects as they were read. */
  function RepairAll(read: seq<Project>, order: seq<string>): (r: Repair)
    requires forall k :: 0 <= k < |order| ==> order[k] in SharedIds(read)
    ensures |r.projects| == |read|
  {
    if order == [] then Repair(read, Taken(read))
    else
      var r := RepairAll(read, order[..|order| - 1]);
      var gid := order[|order| - 1];
      var holders := Holders(read, gid);
      SharedHasHolders(read, gid);
      RepairHolders(r, gid, Keeper(r.projects, holders, gid), holders)
  }

  // ---- How a repaired project relates to the project that was read ----

  /** The ids a project got new names for, and the ids whose record it lost. */
  datatype History = History(renamed: map<string, string>, dropped: set<string>)

  function Now(h: History, x: string): string { if x in h.renamed then h.renamed[x] else x }

  function GroupsNow(groups: seq<Group>, h: History): seq<Group> {
    if groups == [] then []
    else
      (if groups[0].id in h.dropped then [] else [groups[0].(id := Now(h, groups[0].id))]) + GroupsNow(groups[1..], h)
  }

  function TabsNow(tabs: seq<string>, h: History): seq<string> {
    if tabs == [] then []
    else (if tabs[0] in h.dropped then [] else [Now(h, tabs[0])]) + TabsNow(tabs[1..], h)
  }

  function PanesNow(panes: seq<Pane>, h: History): seq<Pane> {
    seq(|panes|, i requires 0 <= i < |panes| => panes[i].(groupId := Now(h, panes[i].groupId)))
  }

  predicate NamesGroup(p: Project, id: string) { Record(p.groups, id).Some? }

  /** All four places that name a group changed together: records, tab order,
      active tab and panes. */
  ghost predicate Derived(before: Project, p: Project, h: History) {
    && p.path == before.path
    && p.groups == GroupsNow(before.groups, h)
    && p.tabOrder == TabsNow(before.tabOrder, h)
    && p.panes == PanesNow(before.panes, h)
    && (before.activeTab !in h.dropped ==> p.activeTab == Now(h, before.activeTab))
    && (before.activeTab in h.dropped ==> NamesGroup(p, p.activeTab) || (p.groups == [] && p.activeTab == ""))
  }

  /** An id minted for `gid` carries a stamp at or after the one inside `gid`, so
      ordering by id time survives. */
  ghost predicate MintedFor(gid: string, id: string) {
    exists stamp: nat :: id == IdOf(stamp) && RunGroupCreatedAt(gid).Some? && stamp >= RunGroupCreatedAt(gid).value
  }

  /** New names are ids that no project mentioned before. */
  ghost predicate FreshNames(h: History, original: set<string>, taken: set<string>) {
    && (forall x :: x in h.renamed ==>
          x in original && h.renamed[x] !in original && h.renamed[x] in taken && h.renamed[x] != "")
    && (forall x, y :: x in h.renamed && y in h.renamed && h.renamed[x] == h.renamed[y] ==> x == y)
    && h.dropped <= original && h.dropped !! h.renamed.Keys
  }

  // ---- One project, one id ----

  lemma {:induction false} SwapGroups(groups: seq<Group>, h: History, g: History, was: string, now: string)
    requires h.dropped == g.dropped && forall x :: Swap(Now(h, x), was, now) == Now(g, x)
    ensures var gs := GroupsNow(groups, h);
      GroupsNow(groups, g) == seq(|gs|, i requires 0 <= i < |gs| => gs[i].(id := Swap(gs[i].id, was, now)))
  {
    if groups != [] {
      SwapGroups(groups[1..], h, g, was, now);
    }
  }

  lemma {:induction false} SwapTabs(tabs: seq<string>, h: History, g: History, was: string, now: string)
    requires h.dropped == g.dropped && forall x :: Swap(Now(h, x), was, now) == Now(g, x)
    ensures var ts := TabsNow(tabs, h);
      TabsNow(tabs, g) == seq(|ts|, i requires 0 <= i < |ts| => Swap(ts[i], was, now))
  {
    if tabs != [] {
      SwapTabs(tabs[1..], h, g, was, now);
    }
  }

  lemma {:induction false} DropGroups(groups: seq<Group>, h: History, gid: string)
    requires forall x :: Now(h, x) == gid <==> x == gid
    ensures GroupsNow(groups, h.(dropped := h.dropped + {gid})) == GroupsBut(GroupsNow(groups, h), gid)
  {
    if groups != [] {
      DropGroups(groups[1..], h, gid);
      var rest := GroupsNow(groups[1..], h);
      var g := groups[0].(id := Now(h, groups[0].id));
      assert ([g] + rest)[1..] == rest && [] + rest == rest;
    }
  }

  lemma {:induction false} DropTabs(tabs: seq<string>, h: History, gid: string)
    requires forall x :: Now(h, x) == gid <==> x == gid
    ensures TabsNow(tabs, h.(dropped := h.dropped + {gid})) == TabsBut(TabsNow(tabs, h), gid)
  {
    if tabs != [] {
      DropTabs(tabs[1..], h, gid);
      var rest := TabsNow(tabs[1..], h);
      assert ([Now(h, tabs[0])] + rest)[1..] == rest && [] + rest == rest;
    }
  }

  lemma {:induction false} GroupsButKeeps(groups: seq<Group>, gid: string, id: string)
    ensures id != gid ==> (Record(GroupsBut(groups, gid), id).Some? <==> Record(groups, id).Some?)
  {
    if groups != [] {
      GroupsButKeeps(groups[1..], gid, id);
      var rest := GroupsBut(groups[1..], gid);
      assert ([groups[0]] + rest)[1..] == rest && [] + rest == rest;
    }
  }

  lemma OneMoreName(h: History, gid: string, id: string, original: set<string>, taken: set<string>)
    requires FreshNames(h, original, taken)
    requires gid in original && gid !in h.dropped
    requires id !in original && id !in taken && id != ""
    ensures FreshNames(h.(renamed := h.renamed[gid := id]), original, taken + {id})
  {
  }

  lemma ReassignActive(before: Project, p: Project, h: History, gid: string, id: string)
    requires Derived(before, p, h) && gid != "" && gid !in h.renamed
    requires forall x :: x in h.renamed ==> h.renamed[x] != gid
    ensures var g, q := h.(renamed := h.renamed[gid := id]), Reassigned(p, gid, id);
      && (before.activeTab !in h.dropped ==> q.activeTab == Now(g, before.activeTab))
      && (before.activeTab in h.dropped ==> NamesGroup(q, q.activeTab) || (q.groups == [] && q.activeTab == ""))
  {
    var q := Reassigned(p, gid, id);
    if i :| 0 <= i < |p.groups| && p.groups[i].id == p.activeTab {
      assert q.groups[i].id == q.activeTab;
    }
  }

  lemma ReassignDerived(before: Project, p: Project, h: History, gid: string, id: string)
    requires Derived(before, p, h) && gid != "" && gid !in h.renamed
    requires forall x :: x in h.renamed ==> h.renamed[x] != gid
    ensures Derived(before, Reassigned(p, gid, id), h.(renamed := h.renamed[gid := id]))
  {
    var g, q := h.(renamed := h.renamed[gid := id]), Reassigned(p, gid, id);
    assert forall x :: Swap(Now(h, x), gid, id) == Now(g, x);
    SwapGroups(before.groups, h, g, gid, id);
    SwapTabs(before.tabOrder, h, g, gid, id);
    ReassignActive(before, p, h, gid, id);
    assert q.panes == PanesNow(before.panes, g);
  }

  lemma DropActive(before: Project, p: Project, h: History, gid: string)
    requires Derived(before, p, h) && gid != "" && gid !in h.renamed
    requires forall x :: x in h.renamed ==> h.renamed[x] != gid
    ensures var g, q := h.(dropped := h.dropped + {gid}), Dropped(p, gid);
      && (before.activeTab !in g.dropped ==> q.activeTab == Now(g, before.activeTab))
      && (before.activeTab in g.dropped ==> NamesGroup(q, q.activeTab) || (q.groups == [] && q.activeTab == ""))
  {
    var q := Dropped(p, gid);
    GroupsButKeeps(p.groups, gid, p.activeTab);
    if p.activeTab == gid && q.groups != [] {
      assert q.groups[|q.groups| - 1].id == q.activeTab;
    }
  }

  lemma DropDerived(before: Project, p: Project, h: History, gid: string)
    requires Derived(before, p, h) && gid != "" && gid !in h.renamed
    requires forall x :: x in h.renamed ==> h.renamed[x] != gid
    ensures Derived(before, Dropped(p, gid), h.(dropped := h.dropped + {gid}))
  {
    var g := h.(dropped := h.dropped + {gid});
    assert forall x :: Now(h, x) == gid <==> x == gid;
    DropGroups(before.groups, h, gid);
    DropTabs(before.tabOrder, h, gid);
    DropActive(before, p, h, gid);
    assert PanesNow(before.panes, g) == PanesNow(before.panes, h);
  }

  // ---- An id not treated yet looks as it did when the project was read ----

  lemma {:induction false} SameRecord(groups: seq<Group>, h: History, gid: string)
    requires gid !in h.dropped && gid !in h.renamed && forall x :: Now(h, x) == gid <==> x == gid
    ensures Record(GroupsNow(groups, h), gid) == Record(groups, gid)
  {
    if groups != [] {
      SameRecord(groups[1..], h, gid);
      var rest := GroupsNow(groups[1..], h);
      var g := groups[0].(id := Now(h, groups[0].id));
      assert ([g] + rest)[1..] == rest && [] + rest == rest;
    }
  }

  lemma {:induction false} SameLiveCount(panes: seq<Pane>, h: History, gid: string)
    requires forall x :: Now(h, x) == gid <==> x == gid
    ensures LiveCount(PanesNow(panes, h), gid) == LiveCount(panes, gid)
  {
    if panes != [] {
      SameLiveCount(panes[1..], h, gid);
      assert PanesNow(panes, h)[1..] == PanesNow(panes[1..], h);
    }
  }

  lemma SameView(before: Project, p: Project, h: History, gid: string, original: set<string>, taken: set<string>)
    requires Derived(before, p, h) && FreshNames(h, original, taken)
    requires gid in original && gid !in h.renamed && gid !in h.dropped
    ensures Record(p.groups, gid) == Record(before.groups, gid)
    ensures LiveCount(p.panes, gid) == LiveCount(before.panes, gid)
    ensures IsArtifact(p, gid) == IsArtifact(before, gid) && UserNamed(p, gid) == UserNamed(before, gid)
  {
    assert forall x :: Now(h, x) == gid <==> x == gid;
    SameRecord(before.groups, h, gid);
    SameLiveCount(before.panes, h, gid);
  }

  // ---- What the loops keep ----

  ghost predicate ProjectOk(before: Project, p: Project, h: History, original: set<string>, taken: set<string>) {
    && Derived(before, p, h)
    && FreshNames(h, original, taken)
    && forall x :: x in h.renamed ==> MintedFor(x, h.renamed[x])
  }

  /** No two projects were given the same new name. */
  ghost predicate DistinctNames(hs: seq<History>) {
    forall i, j, x, y :: 0 <= i < |hs| && 0 <= j < |hs| && i != j && x in hs[i].renamed && y in hs[j].renamed ==>
      hs[i].renamed[x] != hs[j].renamed[y]
  }

  /** Every project stems from what was read by one history. */
  ghost predicate Repairing(read: seq<Project>, r: Repair, hs: seq<History>) {
    && |read| == |r.projects| == |hs|
    && Taken(read) <= r.taken
    && (forall i :: 0 <= i < |read| ==> ProjectOk(read[i], r.projects[i], hs[i], Taken(read), r.taken))
    && DistinctNames(hs)
  }

  lemma ShownIsTaken(read: seq<Project>, i: nat, gid: string)
    requires i < |read| && gid in Shown(read[i])
    ensures gid in Taken(read) && gid != ""
  {
    assert gid in Mentioned(read[i]);
  }

  lemma NamesStayDistinct(hs: seq<History>, i: nat, h: History, gid: string, id: string)
    requires DistinctNames(hs) && i < |hs|
    requires forall x :: x in h.renamed ==>
      (x in hs[i].renamed && h.renamed[x] == hs[i].renamed[x]) || h.renamed[x] == id
    requires forall j, y :: 0 <= j < |hs| && y in hs[j].renamed ==> hs[j].renamed[y] != id
    ensures DistinctNames(hs[i := h])
  {
  }

  /** Replacing one project and its history. */
  lemma OneProjectChanges(read: seq<Project>, r: Repair, hs: seq<History>, i: nat, q: Project, h: History,
                          taken: set<string>)
    requires Repairing(read, r, hs) && i < |read| && r.taken <= taken
    requires ProjectOk(read[i], q, h, Taken(read), taken) && DistinctNames(hs[i := h])
    ensures Repairing(read, Repair(r.projects[i := q], taken), hs[i := h])
  {
  }

  lemma TreatArtifact(read: seq<Project>, r: Repair, hs: seq<History>, gid: string, i: nat, h: History)
    requires Repairing(read, r, hs) && i < |read|
    requires gid in Taken(read) && gid != "" && gid !in hs[i].renamed && gid !in hs[i].dropped
    requires h == hs[i].(dropped := hs[i].dropped + {gid})
    ensures Repairing(read, r.(projects := r.projects[i := Dropped(r.projects[i], gid)]), hs[i := h])
  {
    hide MintedFor, Dropped, Taken;
    var p := r.projects[i];
    assert ProjectOk(read[i], p, hs[i], Taken(read), r.taken);
    DropDerived(read[i], p, hs[i], gid);
    NamesStayDistinct(hs, i, h, gid, "");
    OneProjectChanges(read, r, hs, i, Dropped(p, gid), h, r.taken);
  }

  lemma TreatLeak(read: seq<Project>, r: Repair, hs: seq<History>, gid: string, i: nat, id: string, h: History)
    requires Repairing(read, r, hs) && i < |read|
    requires gid in Taken(read) && gid != "" && gid !in hs[i].renamed && gid !in hs[i].dropped
    requires id !in r.taken && id != "" && MintedFor(gid, id)
    requires h == hs[i].(renamed := hs[i].renamed[gid := id])
    ensures Repairing(read, Repair(r.projects[i := Reassigned(r.projects[i], gid, id)], r.taken + {id}), hs[i := h])
  {
    hide MintedFor, Reassigned, Taken;
    var p := r.projects[i];
    assert ProjectOk(read[i], p, hs[i], Taken(read), r.taken);
    ReassignDerived(read[i], p, hs[i], gid, id);
    OneMoreName(hs[i], gid, id, Taken(read), r.taken);
    NamesAreTaken(read, r, hs);
    NamesStayDistinct(hs, i, h, gid, id);
    OneProjectChanges(read, r, hs, i, Reassigned(p, gid, id), h, r.taken + {id});
  }

  /** Treating one holder adds the id to its history and touches nobody else. */
  lemma TreatOne(read: seq<Project>, r: Repair, hs: seq<History>, gid: string, keeper: nat, i: nat) returns (h: History)
    requires Repairing(read, r, hs) && i < |read| && i != keeper
    requires gid in Shown(read[i]) && gid !in hs[i].renamed && gid !in hs[i].dropped && RunGroupCreatedAt(gid).Some?
    ensures Repairing(read, RepairHolder(r, gid, keeper, i), hs[i := h])
    ensures h.renamed.Keys == hs[i].renamed.Keys + (if IsArtifact(read[i], gid) then {} else {gid})
    ensures h.dropped == hs[i].dropped + (if IsArtifact(read[i], gid) then {gid} else {})
  {
    hide Taken, Shown, Derived, FreshNames, Reassigned, Dropped, IsArtifact, RunGroupCreatedAt;
    ShownIsTaken(read, i, gid);
    assert ProjectOk(read[i], r.projects[i], hs[i], Taken(read), r.taken);
    SameView(read[i], r.projects[i], hs[i], gid, Taken(read), r.taken);
    if IsArtifact(r.projects[i], gid) {
      h := hs[i].(dropped := hs[i].dropped + {gid});
      TreatArtifact(read, r, hs, gid, i, h);
    } else {
      var id := IdOf(FreeStamp(RunGroupCreatedAt(gid).value, r.taken));
      h := hs[i].(renamed := hs[i].renamed[gid := id]);
      assert MintedFor(gid, id);
      TreatLeak(read, r, hs, gid, i, id, h);
    }
  }

  lemma NamesAreTaken(read: seq<Project>, r: Repair, hs: seq<History>)
    requires Repairing(read, r, hs)
    ensures forall j, y :: 0 <= j < |hs| && y in hs[j].renamed ==> hs[j].renamed[y] in r.taken
  {
  }

  // ---- All holders of one id, then all shared ids ----

  /** What treating `gid` adds to the history of project i. */
  predicate Leaks(read: seq<Project>, holders: seq<nat>, keeper: nat, i: nat)
    requires i < |read|
  {
    i in holders && i != keeper
  }

  lemma {:induction false} TreatHolders(read: seq<Project>, r: Repair, hs: seq<History>, gid: string,
                                        keeper: nat, holders: seq<nat>)
    returns (out: seq<History>)
    requires Repairing(read, r, hs) && RunGroupCreatedAt(gid).Some? && Distinct(holders)
    requires forall k :: 0 <= k < |holders| ==> holders[k] < |read| && gid in Shown(read[holders[k]])
    requires forall i :: 0 <= i < |read| ==> gid !in hs[i].renamed && gid !in hs[i].dropped
    ensures Repairing(read, RepairHolders(r, gid, keeper, holders), out)
    ensures forall i: nat :: i < |read| ==>
      && out[i].renamed.Keys == hs[i].renamed.Keys +
           (if Leaks(read, holders, keeper, i) && !IsArtifact(read[i], gid) then {gid} else {})
      && out[i].dropped == hs[i].dropped +
           (if Leaks(read, holders, keeper, i) && IsArtifact(read[i], gid) then {gid} else {})
  {
    hide Shown, IsArtifact, RunGroupCreatedAt, RepairHolder, Repairing;
    assert |hs| == |read| == |r.projects| by { SameLengths(read, r, hs); }
    out := hs;
    if holders != [] {
      var init, i := holders[..|holders| - 1], holders[|holders| - 1];
      var mid := TreatHolders(read, r, hs, gid, keeper, init);
      SameLengths(read, RepairHolders(r, gid, keeper, init), mid);
      assert i !in init && forall j: nat :: j in holders <==> j in init || j == i;
      out := mid;
      if i != keeper {
        var h := TreatOne(read, RepairHolders(r, gid, keeper, init), mid, gid, keeper, i);
        out := mid[i := h];
      } else {
        KeeperIsLeftAlone(RepairHolders(r, gid, keeper, init), gid, keeper);
      }
    }
  }

  lemma SameLengths(read: seq<Project>, r: Repair, hs: seq<History>)
    requires Repairing(read, r, hs)
    ensures |hs| == |read| == |r.projects|
  {
  }

  lemma KeeperIsLeftAlone(r: Repair, gid: string, keeper: nat)
    requires RunGroupCreatedAt(gid).Some? && keeper < |r.projects|
    ensures RepairHolder(r, gid, keeper, keeper) == r
  {
  }

  lemma {:induction false} SameKeeper(read: seq<Project>, r: Repair, hs: seq<History>, gid: string, holders: seq<nat>)
    requires Repairing(read, r, hs) && gid in Taken(read) && holders != []
    requires forall k :: 0 <= k < |holders| ==> holders[k] < |read|
    requires forall i :: 0 <= i < |read| ==> gid !in hs[i].renamed && gid !in hs[i].dropped
    ensures Keeper(r.projects, holders, gid) == Keeper(read, holders, gid)
  {
    hide Taken, FreshNames, UserNamed, IsArtifact, LiveCount, Record;
    forall i | 0 <= i < |read|
      ensures r.projects[i].path == read[i].path && UserNamed(r.projects[i], gid) == UserNamed(read[i], gid)
      ensures LiveCount(r.projects[i].panes, gid) == LiveCount(read[i].panes, gid)
    {
      assert ProjectOk(read[i], r.projects[i], hs[i], Taken(read), r.taken);
      SameView(read[i], r.projects[i], hs[i], gid, Taken(read), r.taken);
    }
    if |holders| > 1 {
      SameKeeper(read, r, hs, gid, holders[..|holders| - 1]);
    }
  }

  /** Project i shows the shared id and is not the one that keeps it. */
  ghost predicate Loses(read: seq<Project>, i: nat, gid: string) {
    && i < |read| && gid in SharedIds(read) && gid in Shown(read[i])
    && (SharedHasHolders(read, gid); i != Keeper(read, Holders(read, gid), gid))
  }

  const UNTOUCHED: History := History(map[], {})

  lemma {:induction false} NothingHappened(groups: seq<Group>, tabs: seq<string>)
    ensures GroupsNow(groups, UNTOUCHED) == groups && TabsNow(tabs, UNTOUCHED) == tabs
  {
    if groups != [] {
      NothingHappened(groups[1..], tabs);
    } else if tabs != [] {
      NothingHappened(groups, tabs[1..]);
    }
  }

  lemma BeforeRepair(read: seq<Project>)
    ensures Repairing(read, Repair(read, Taken(read)), seq(|read|, i => UNTOUCHED))
  {
    forall i | 0 <= i < |read| ensures Derived(read[i], read[i], UNTOUCHED) {
      NothingHappened(read[i].groups, read[i].tabOrder);
    }
  }

  lemma LosesMeansLeaks(read: seq<Project>, gid: string)
    requires gid in SharedIds(read)
    ensures RunGroupCreatedAt(gid).Some? && Holders(read, gid) != []
    ensures forall i: nat :: i < |read| ==>
      (Loses(read, i, gid) <==> Leaks(read, Holders(read, gid), Keeper(read, Holders(read, gid), gid), i))
  {
    SharedHasHolders(read, gid);
  }

  /** One shared id, with its holders as they were read. */
  lemma TreatShared(read: seq<Project>, r: Repair, earlier: seq<History>, gid: string) returns (hs: seq<History>)
    requires Repairing(read, r, earlier) && gid in SharedIds(read)
    requires forall i: nat :: i < |read| ==> gid !in earlier[i].renamed && gid !in earlier[i].dropped
    ensures RunGroupCreatedAt(gid).Some? && Holders(read, gid) != []
    ensures Repairing(read, RepairHolders(r, gid, Keeper(r.projects, Holders(read, gid), gid), Holders(read, gid)), hs)
    ensures forall i: nat, x :: i < |read| ==>
      && (x in hs[i].renamed <==>
            x in earlier[i].renamed || (x == gid && Loses(read, i, gid) && !IsArtifact(read[i], gid)))
      && (x in hs[i].dropped <==>
            x in earlier[i].dropped || (x == gid && Loses(read, i, gid) && IsArtifact(read[i], gid)))
  {
    hide Shown, IsArtifact, RunGroupCreatedAt, Loses, SharedIds, Taken, Derived, FreshNames, Keeper, RepairHolders;
    var holders := Holders(read, gid);
    LosesMeansLeaks(read, gid);
    assert holders[0] in holders;
    ShownIsTaken(read, holders[0], gid);
    SameKeeper(read, r, earlier, gid, holders);
    hs := TreatHolders(read, r, earlier, gid, Keeper(read, holders, gid), holders);
  }

  /** After the loops each project's history holds exactly the shared ids it
      lost: renamed, or dropped where the record was an artifact. */
  lemma {:induction false} TreatAll(read: seq<Project>, order: seq<string>) returns (hs: seq<History>)
    requires Distinct(order) && forall k :: 0 <= k < |order| ==> order[k] in SharedIds(read)
    ensures Repairing(read, RepairAll(read, order), hs)
    ensures forall i: nat, x :: i < |read| ==>
      && (x in hs[i].renamed <==> x in order && Loses(read, i, x) && !IsArtifact(read[i], x))
      && (x in hs[i].dropped <==> x in order && Loses(read, i, x) && IsArtifact(read[i], x))
  {
    hide IsArtifact, Loses, SharedIds, Keeper, RepairHolders, Repairing, Holders, RunGroupCreatedAt;
    if order == [] {
      hs := seq(|read|, i => UNTOUCHED);
      BeforeRepair(read);
    } else {
      var init, gid := order[..|order| - 1], order[|order| - 1];
      var earlier := TreatAll(read, init);
      SameLengths(read, RepairAll(read, init), earlier);
      assert gid !in init;
      hs := TreatShared(read, RepairAll(read, init), earlier, gid);
      SameLengths(read, RepairAll(read, order), hs);
      forall i: nat, x | i < |read|
        ensures x in hs[i].renamed <==> x in order && Loses(read, i, x) && !IsArtifact(read[i], x)
        ensures x in hs[i].dropped <==> x in order && Loses(read, i, x) && IsArtifact(read[i], x)
      {
        assert x in order <==> x in init || x == gid;
        assert x in earlier[i].renamed <==> x in init && Loses(read, i, x) && !IsArtifact(read[i], x);
      }
    }
  }
}
