/** The repair script: project records rewritten in place by nested loops. */
module RunGroupScript {
  import opened Wrappers
  import opened Sorting
  import opened RunGroups
  import opened RunGroupRepair

  class ProjectRecord {
    const path: string
    var groups: seq<Group>
    var tabOrder: seq<string>
    var activeTab: string
    var panes: seq<Pane>
    var changed: bool

    ghost function Data(): Project
      reads this
    {
      Project(path, groups, tabOrder, activeTab, panes)
    }

    constructor (p: Project)
      ensures Data() == p && !changed
    {
      path, groups, tabOrder, activeTab, panes, changed := p.path, p.groups, p.tabOrder, p.activeTab, p.panes, false;
    }

    method CountLive(gid: string) returns (n: nat)
      ensures n == LiveCount(panes, gid)
    {
      n := 0;
      for i := |panes| downto 0
        invariant n == LiveCount(panes[i..], gid)
      {
        assert panes[i..][0] == panes[i] && panes[i..][1..] == panes[i + 1..];
        if panes[i].Live() && panes[i].groupId == gid {
          n := n + 1;
        }
      }
    }

    method Reassign(was: string, now: string)
      modifies this
      ensures Data() == Reassigned(old(Data()), was, now) && changed
    {
      ghost var before := Data();
      for i := 0 to |groups|
        invariant |groups| == |before.groups|
        invariant tabOrder == before.tabOrder && activeTab == before.activeTab && panes == before.panes
        invariant forall k :: 0 <= k < i ==> groups[k] == before.groups[k].(id := Swap(before.groups[k].id, was, now))
        invariant forall k :: i <= k < |groups| ==> groups[k] == before.groups[k]
      {
        if groups[i].id == was {
          groups := groups[i := groups[i].(id := now)];
        }
      }
      var tabs := tabOrder;
      tabOrder := seq(|tabs|, i requires 0 <= i < |tabs| => if tabs[i] == was then now else tabs[i]);
      if activeTab == was {
        activeTab := now;
      }
      for i := 0 to |panes|
        invariant |panes| == |before.panes|
        invariant forall k :: 0 <= k < i ==>
          panes[k] == before.panes[k].(groupId := Swap(before.panes[k].groupId, was, now))
        invariant forall k :: i <= k < |panes| ==> panes[k] == before.panes[k]
        invariant groups == Reassigned(before, was, now).groups && tabOrder == Reassigned(before, was, now).tabOrder
        invariant activeTab == Reassigned(before, was, now).activeTab
      {
        if panes[i].groupId == was {
          panes := panes[i := panes[i].(groupId := now)];
        }
      }
      changed := true;
    }

    method DropGroup(gid: string)
      modifies this
      ensures Data() == Dropped(old(Data()), gid) && changed
    {
      groups := GroupsBut(groups, gid);
      tabOrder := TabsBut(tabOrder, gid);
      if activeTab == gid {
        activeTab := if groups != [] then groups[|groups| - 1].id else "";
      }
      changed := true;
    }
  }

  /** `mint_free_id`: counts up from the stamp inside the old id. */
  method MintFreeId(seed: nat, taken: set<string>) returns (id: string, nowTaken: set<string>)
    requires seed > 0
    ensures id == IdOf(FreeStamp(seed, taken)) && nowTaken == taken + {id}
  {
    var stamp := seed;
    while IdOf(stamp) in taken
      invariant stamp >= seed && FreeStamp(stamp, taken) == FreeStamp(seed, taken)
      decreases Ceiling(taken) + 1 - stamp
    {
      TakenIsBelowCeiling(stamp, taken);
      stamp := stamp + 1;
    }
    id := IdOf(stamp);
    nowTaken := taken + {id};
  }

  /** The record objects hold exactly these projects. */
  ghost predicate Mirrors(records: seq<ProjectRecord>, projects: seq<Project>)
    reads records
  {
    |records| == |projects| && forall i :: 0 <= i < |records| ==> records[i].Data() == projects[i]
  }

  lemma OneRecordChanged(records: seq<ProjectRecord>, projects: seq<Project>, i: nat, p: Project)
    requires |records| == |projects| && i < |records|
    requires records[i].Data() == p
    requires forall j :: 0 <= j < |records| && j != i ==> records[j].Data() == projects[j]
    ensures Mirrors(records, projects[i := p])
  {
  }

  /** One holder that is not the keeper. */
  method RepairOne(records: seq<ProjectRecord>, taken: set<string>, gid: string, keeper: nat, i: nat, ghost r: Repair)
    returns (nowTaken: set<string>)
    requires Distinct(records) && Mirrors(records, r.projects) && taken == r.taken
    requires RunGroupCreatedAt(gid).Some? && i < |records| && i != keeper
    modifies records[i]
    ensures Mirrors(records, RepairHolder(r, gid, keeper, i).projects)
    ensures nowTaken == RepairHolder(r, gid, keeper, i).taken
  {
    hide RunGroupCreatedAt, AutoNamed, Reassigned, Dropped, FreeStamp, Record, LiveCount;
    var proj := records[i];
    assert forall j :: 0 <= j < |records| && j != i ==> records[j] != proj;
    nowTaken := taken;
    var live := proj.CountLive(gid);
    var record := Record(proj.groups, gid);
    if record.Some? && live == 0 && AutoNamed(record.value.name) {
      proj.DropGroup(gid);
    } else {
      var id;
      id, nowTaken := MintFreeId(RunGroupCreatedAt(gid).value, nowTaken);
      proj.Reassign(gid, id);
    }
    OneRecordChanged(records, r.projects, i, proj.Data());
  }

  /** One shared id: everyone but the keeper drops the record or gets a new id. */
  method RepairId(records: seq<ProjectRecord>, taken: set<string>, gid: string, keeper: nat, holders: seq<nat>,
                  ghost r: Repair)
    returns (nowTaken: set<string>)
    requires Distinct(records) && Mirrors(records, r.projects) && taken == r.taken
    requires RunGroupCreatedAt(gid).Some?
    requires forall k :: 0 <= k < |holders| ==> holders[k] < |records|
    modifies records
    ensures Mirrors(records, RepairHolders(r, gid, keeper, holders).projects)
    ensures nowTaken == RepairHolders(r, gid, keeper, holders).taken
  {
    hide RunGroupCreatedAt, IsArtifact, RepairHolder;
    nowTaken := taken;
    for k := 0 to |holders|
      invariant Mirrors(records, RepairHolders(r, gid, keeper, holders[..k]).projects)
      invariant nowTaken == RepairHolders(r, gid, keeper, holders[..k]).taken
    {
      ghost var s := RepairHolders(r, gid, keeper, holders[..k]);
      assert holders[..k + 1][..k] == holders[..k];
      if holders[k] != keeper {
        nowTaken := RepairOne(records, nowTaken, gid, keeper, holders[k], s);
      } else {
        KeeperIsLeftAlone(s, gid, keeper);
      }
    }
    assert holders[..|holders|] == holders;
  }

  /** `min(holders, key=rank)`. */
  method FindKeeper(records: seq<ProjectRecord>, holders: seq<nat>, gid: string, ghost projects: seq<Project>)
    returns (keeper: nat)
    requires Mirrors(records, projects) && holders != []
    requires forall k :: 0 <= k < |holders| ==> holders[k] < |records|
    ensures keeper == Keeper(projects, holders, gid)
    ensures exists k: nat :: IsKeeperAt(projects, holders, gid, k) && keeper == holders[k]
  {
    keeper := holders[0];
    for k := 1 to |holders|
      invariant keeper < |records| && keeper == Keeper(projects, holders[..k], gid)
    {
      assert holders[..k + 1][..k] == holders[..k];
      var p, q := records[keeper], records[holders[k]];
      if !RankLe(Project(p.path, p.groups, p.tabOrder, p.activeTab, p.panes),
                 Project(q.path, q.groups, q.tabOrder, q.activeTab, q.panes), gid) {
        keeper := holders[k];
      }
    }
    assert holders[..|holders|] == holders;
    ghost var at := KeeperIsFirstOfLeastRank(projects, holders, gid);
  }

  /** The repair part of `main`, from the projects read to the projects written. */
  method RepairProjects(records: seq<ProjectRecord>, ghost read: seq<Project>) returns (order: seq<string>)
    requires Distinct(records) && Mirrors(records, read)
    modifies records
    ensures Enumerates(order, SharedIds(read))
    ensures forall k :: 0 <= k < |order| ==> order[k] in SharedIds(read)
    ensures Mirrors(records, RepairAll(read, order).projects)
  {
    hide Shown, Taken, SharedIds, Holders, RepairHolders, Keeper, RunGroupCreatedAt;
    var projects := Snapshots(records, read);
    var taken := Taken(projects);
    order := SortStrings(SharedIds(projects));
    for k := 0 to |order|
      invariant forall j :: 0 <= j < |order| ==> order[j] in SharedIds(read)
      invariant Mirrors(records, RepairAll(read, order[..k]).projects) && taken == RepairAll(read, order[..k]).taken
    {
      ghost var r := RepairAll(read, order[..k]);
      assert order[..k + 1][..k] == order[..k];
      var gid := order[k];
      SharedHasHolders(read, gid);
      var holders := Holders(projects, gid);
      var keeper := FindKeeper(records, holders, gid, r.projects);
      taken := RepairId(records, taken, gid, keeper, holders, r);
    }
    assert order[..|order|] == order;
  }

  /** What was read, before anything is changed: `owners` and `taken` come from it. */
  method Snapshots(records: seq<ProjectRecord>, ghost read: seq<Project>) returns (projects: seq<Project>)
    requires Mirrors(records, read)
    ensures projects == read
  {
    projects := [];
    for i := 0 to |records|
      invariant projects == read[..i]
    {
      var p := records[i];
      projects := projects + [Project(p.path, p.groups, p.tabOrder, p.activeTab, p.panes)];
    }
  }
}
