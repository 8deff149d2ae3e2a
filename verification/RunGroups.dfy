/** Run groups of a project: what a group id looks like, and the operations that
    rewrite one id inside one project. */
module RunGroups {
  import opened Wrappers
  import opened Strings

  datatype Group = Group(id: string, name: string)

  datatype Pane = Pane(groupId: string, spawned: bool, removed: bool)
  {
    predicate Live() { spawned && !removed }
  }

  datatype Project = Project(
    path: string, groups: seq<Group>, tabOrder: seq<string>, activeTab: string, panes: seq<Pane>)

  // ---- Ids of the shape rg-<epoch ms> ----

  predicate IsDigit(c: char) { '0' <= c <= '9' }

  function DigitValue(c: char): nat
    requires IsDigit(c)
  {
    c as int - '0' as int
  }

  function Digit(d: nat): (c: char)
    requires d < 10
    ensures IsDigit(c) && DigitValue(c) == d
  {
    "0123456789"[d]
  }

  /** `str(n)`. */
  function Decimal(n: nat): (s: string)
    ensures s != "" && forall i :: 0 <= i < |s| ==> IsDigit(s[i])
  {
    if n < 10 then [Digit(n)] else Decimal(n / 10) + [Digit(n % 10)]
  }

  /** The characters `int()` accepts after the sign: digits, with single
      underscores between them. */
  predicate IsIntBody(s: string) {
    && s != "" && IsDigit(s[0]) && IsDigit(s[|s| - 1])
    && (forall i :: 0 <= i < |s| ==> IsDigit(s[i]) || s[i] == '_')
    && forall i :: 0 <= i < |s| - 1 ==> IsDigit(s[i]) || IsDigit(s[i + 1])
  }

  function IntValue(s: string): nat {
    if s == "" then 0
    else
      var last := s[|s| - 1];
      if IsDigit(last) then IntValue(s[..|s| - 1]) * 10 + DigitValue(last) else IntValue(s[..|s| - 1])
  }

  function ParseInt(text: string): Option<int> {
    var s := Strip(text);
    if s == "" then None else
      var body := if s[0] == '-' || s[0] == '+' then s[1..] else s;
      var n: int := IntValue(body);
      if !IsIntBody(body) then None else Some(if s[0] == '-' then -n else n)
  }

  /** The minting time inside an id, if it has the `rg-<epoch>` shape. */
  function RunGroupCreatedAt(gid: string): (stamp: Option<nat>)
    ensures stamp.Some? ==> stamp.value > 0 && gid != ""
  {
    if |gid| < 3 || gid[..3] != "rg-" then None else
      var n := ParseInt(gid[3..]);
      if n.Some? && n.value > 0 then Some(n.value) else None
  }

  function IdOf(stamp: nat): string { "rg-" + Decimal(stamp) }

  lemma {:induction false} DecimalValue(n: nat)
    ensures IntValue(Decimal(n)) == n
  {
    if n >= 10 {
      DecimalValue(n / 10);
      assert Decimal(n)[..|Decimal(n)| - 1] == Decimal(n / 10);
    } else {
      assert Decimal(n)[..0] == "";
    }
  }

  lemma DigitsParse(s: string)
    requires s != "" && forall i :: 0 <= i < |s| ==> IsDigit(s[i])
    ensures ParseInt(s) == Some(IntValue(s))
  {
    assert Strip(s) == s by {
      assert IsDigit(s[0]) && IsDigit(s[|s| - 1]);
    }
    assert s[0] != '-' && s[0] != '+' && IsIntBody(s);
  }

  /** Minted ids carry their stamp, so different stamps give different ids. */
  lemma IdCarriesStamp(stamp: nat)
    requires stamp > 0
    ensures RunGroupCreatedAt(IdOf(stamp)) == Some(stamp)
  {
    DecimalValue(stamp);
    DigitsParse(Decimal(stamp));
    assert IdOf(stamp)[3..] == Decimal(stamp) && IdOf(stamp)[..3] == "rg-";
  }

  // ---- A new id next to the old one ----

  function StampOf(gid: string): nat {
    var stamp := RunGroupCreatedAt(gid);
    if stamp.Some? then stamp.value else 0
  }

  /** The greatest stamp inside the taken ids. */
  ghost function Ceiling(taken: set<string>): nat
    decreases taken
  {
    if taken == {} then 0
    else
      var id :| id in taken;
      var rest := Ceiling(taken - {id});
      if StampOf(id) > rest then StampOf(id) else rest
  }

  lemma {:induction false} CeilingBounds(taken: set<string>, id: string)
    requires id in taken
    ensures StampOf(id) <= Ceiling(taken)
    decreases taken
  {
    hide StampOf;
    var x :| x in taken && var rest := Ceiling(taken - {x});
      Ceiling(taken) == if StampOf(x) > rest then StampOf(x) else rest;
    if x != id {
      CeilingBounds(taken - {x}, id);
    }
  }

  /** An upward search meets no taken id above the ceiling. */
  lemma TakenIsBelowCeiling(seed: nat, taken: set<string>)
    requires seed > 0 && IdOf(seed) in taken
    ensures seed <= Ceiling(taken)
  {
    IdCarriesStamp(seed);
    hide RunGroupCreatedAt, IdOf, Ceiling;
    CeilingBounds(taken, IdOf(seed));
  }

  /** The first stamp from `seed` on whose id is free; the search ends because
      only finitely many ids are taken. */
  function FreeStamp(seed: nat, taken: set<string>): (stamp: nat)
    requires seed > 0
    ensures stamp >= seed && IdOf(stamp) !in taken
    decreases Ceiling(taken) + 1 - seed
  {
    if IdOf(seed) in taken then
      TakenIsBelowCeiling(seed, taken);
      FreeStamp(seed + 1, taken)
    else seed
  }

  lemma {:induction false} FreeStampIsFirst(seed: nat, taken: set<string>, k: nat)
    requires seed > 0 && seed <= k < FreeStamp(seed, taken)
    ensures IdOf(k) in taken
    decreases k - seed
  {
    hide IdOf;
    if seed < k {
      FreeStampIsFirst(seed + 1, taken, k);
    }
  }

  // ---- Names, live panes, what a project shows ----

  function WithoutNewline(name: string): string {
    if name != "" && name[|name| - 1] == '\n' then name[..|name| - 1] else name
  }

  /** `Run N`: the name `ensureSavedGroup` gives; `$` allows a final newline. */
  predicate AutoNamed(name: string) {
    var n := WithoutNewline(name);
    |n| > 4 && n[..4] == "Run " && forall i :: 4 <= i < |n| ==> IsDigit(n[i])
  }

  /** The first group record carrying an id. */
  function Record(groups: seq<Group>, gid: string): (r: Option<Group>)
    ensures r.None? <==> forall i :: 0 <= i < |groups| ==> groups[i].id != gid
    ensures r.Some? ==> r.value in groups && r.value.id == gid
  {
    if groups == [] then None
    else if groups[0].id == gid then Some(groups[0])
    else Record(groups[1..], gid)
  }

  function LiveCount(panes: seq<Pane>, gid: string): (n: nat)
    ensures n == 0 <==> forall i :: 0 <= i < |panes| && panes[i].Live() ==> panes[i].groupId != gid
  {
    if panes == [] then 0
    else (if panes[0].Live() && panes[0].groupId == gid then 1 else 0) + LiveCount(panes[1..], gid)
  }

  /** A group record, or a live pane that would have one rebuilt for it. */
  function Shown(p: Project): set<string> {
    (set g | g in p.groups && g.id != "" :: g.id) +
    (set x | x in p.panes && x.Live() && x.groupId != "" :: x.groupId)
  }

  /** Every id a project's records or panes mention, live or not. */
  function Mentioned(p: Project): set<string> {
    (set g | g in p.groups && g.id != "" :: g.id) + (set x | x in p.panes && x.groupId != "" :: x.groupId)
  }

  // ---- reassign and drop_group ----

  function Swap(x: string, was: string, now: string): string { if x == was then now else x }

  function Reassigned(p: Project, was: string, now: string): Project {
    p.(groups := seq(|p.groups|, i requires 0 <= i < |p.groups| => p.groups[i].(id := Swap(p.groups[i].id, was, now))),
       tabOrder := seq(|p.tabOrder|, i requires 0 <= i < |p.tabOrder| => Swap(p.tabOrder[i], was, now)),
       activeTab := Swap(p.activeTab, was, now),
       panes := seq(|p.panes|, i requires 0 <= i < |p.panes| =>
         p.panes[i].(groupId := Swap(p.panes[i].groupId, was, now))))
  }

  function GroupsBut(groups: seq<Group>, gid: string): seq<Group> {
    if groups == [] then []
    else (if groups[0].id == gid then [] else [groups[0]]) + GroupsBut(groups[1..], gid)
  }

  function TabsBut(tabs: seq<string>, gid: string): seq<string> {
    if tabs == [] then []
    else (if tabs[0] == gid then [] else [tabs[0]]) + TabsBut(tabs[1..], gid)
  }

  function Dropped(p: Project, gid: string): Project {
    var kept := GroupsBut(p.groups, gid);
    p.(groups := kept, tabOrder := TabsBut(p.tabOrder, gid),
       activeTab := if p.activeTab != gid then p.activeTab else if kept == [] then "" else kept[|kept| - 1].id)
  }

  /** An `ensureSavedGroup` artifact: a record with an automatic name and no
      live pane. */
  predicate IsArtifact(p: Project, gid: string) {
    var record := Record(p.groups, gid);
    record.Some? && LiveCount(p.panes, gid) == 0 && AutoNamed(record.value.name)
  }

  // ---- Who keeps a shared id ----

  /** A record whose name is the text that stands for no record counts as none. */
  predicate UserNamed(p: Project, gid: string) {
    var record := Record(p.groups, gid);
    record.Some? && record.value.name != "(no record)" && !AutoNamed(record.value.name)
  }

  /** The order of `rank`: user-named first, then most live panes, then path. */
  predicate RankLe(p: Project, q: Project, gid: string) {
    if UserNamed(p, gid) != UserNamed(q, gid) then UserNamed(p, gid)
    else if LiveCount(p.panes, gid) != LiveCount(q.panes, gid) then LiveCount(p.panes, gid) > LiveCount(q.panes, gid)
    else StrLe(p.path, q.path)
  }

  /** `min(holders, key=rank)`: the first holder no later one ranks below. */
  function Keeper(projects: seq<Project>, holders: seq<nat>, gid: string): (k: nat)
    requires holders != [] && forall i :: 0 <= i < |holders| ==> holders[i] < |projects|
    ensures k in holders && k < |projects|
  {
    if |holders| == 1 then holders[0]
    else
      var k := Keeper(projects, holders[..|holders| - 1], gid);
      var last := holders[|holders| - 1];
      if RankLe(projects[k], projects[last], gid) then k else last
  }

  lemma RankLeIsTotal(p: Project, q: Project, r: Project, gid: string)
    ensures RankLe(p, q, gid) || RankLe(q, p, gid)
    ensures RankLe(p, q, gid) && RankLe(q, r, gid) ==> RankLe(p, r, gid)
  {
    hide UserNamed, LiveCount;
    StrLeTotal(p.path, q.path);
    if StrLe(p.path, q.path) && StrLe(q.path, r.path) {
      StrLeTransitive(p.path, q.path, r.path);
    }
  }

  /** Position k holds the first of the holders of least rank. */
  ghost predicate IsKeeperAt(projects: seq<Project>, holders: seq<nat>, gid: string, k: nat)
    requires forall i :: 0 <= i < |holders| ==> holders[i] < |projects|
  {
    && k < |holders|
    && (forall j :: 0 <= j < |holders| ==> RankLe(projects[holders[k]], projects[holders[j]], gid))
    && forall j :: 0 <= j < k ==> !RankLe(projects[holders[j]], projects[holders[k]], gid)
  }

  /** Nobody else among the holders ranks below the keeper, and nobody before it
      ranks as low. */
  lemma {:induction false} KeeperIsFirstOfLeastRank(projects: seq<Project>, holders: seq<nat>, gid: string)
    returns (k: nat)
    requires holders != [] && forall i :: 0 <= i < |holders| ==> holders[i] < |projects|
    ensures IsKeeperAt(projects, holders, gid, k) && Keeper(projects, holders, gid) == holders[k]
  {
    hide RankLe;
    var n := |holders| - 1;
    if n == 0 {
      k := 0;
      RankLeIsTotal(projects[holders[0]], projects[holders[0]], projects[holders[0]], gid);
    } else {
      k := KeeperIsFirstOfLeastRank(projects, holders[..n], gid);
      var kept, last := projects[holders[k]], projects[holders[n]];
      forall j | 0 <= j <= n
        ensures RankLe(kept, last, gid) ==> RankLe(kept, projects[holders[j]], gid)
        ensures !RankLe(kept, last, gid) ==>
          RankLe(last, projects[holders[j]], gid) && (j < n ==> !RankLe(projects[holders[j]], last, gid))
      {
        var other := projects[holders[j]];
        assert j < n ==> holders[..n][j] == holders[j];
        RankLeIsTotal(kept, last, other, gid);
        RankLeIsTotal(last, kept, other, gid);
        RankLeIsTotal(kept, other, last, gid);
        RankLeIsTotal(last, other, last, gid);
      }
      k := if RankLe(kept, last, gid) then k else n;
    }
  }

  // ---- The same in plain terms ----

  ghost predicate AllDigits(s: string) { s != "" && forall i :: 0 <= i < |s| ==> '0' <= s[i] <= '9' }

  /** `Run` and a number, possibly with a final newline. */
  ghost predicate RunNumber(name: string) {
    exists digits :: AllDigits(digits) && (name == "Run " + digits || name == "Run " + digits + "\n")
  }

  lemma RunAndDigits(n: string)
    ensures |n| > 4 && n[..4] == "Run " && (forall i :: 4 <= i < |n| ==> IsDigit(n[i])) <==>
      exists digits :: AllDigits(digits) && n == "Run " + digits
  {
    if |n| > 4 && n[..4] == "Run " && forall i :: 4 <= i < |n| ==> IsDigit(n[i]) {
      assert AllDigits(n[4..]) && n == "Run " + n[4..];
    }
    if digits :| AllDigits(digits) && n == "Run " + digits {
      assert n[..4] == "Run " && forall i :: 4 <= i < |n| ==> n[i] == digits[i - 4];
    }
  }

  lemma AutoNamedIsRunNumber(name: string)
    ensures AutoNamed(name) <==> RunNumber(name)
  {
    var n := WithoutNewline(name);
    RunAndDigits(n);
    forall digits | AllDigits(digits)
      ensures name == "Run " + digits || name == "Run " + digits + "\n" <==> n == "Run " + digits
    {
      NewlineIsExtra(name, digits);
    }
  }

  lemma NewlineIsExtra(name: string, digits: string)
    requires AllDigits(digits)
    ensures name == "Run " + digits || name == "Run " + digits + "\n" <==> WithoutNewline(name) == "Run " + digits
  {
    var plain := "Run " + digits;
    assert plain[|plain| - 1] == digits[|digits| - 1] && (plain + "\n")[..|plain|] == plain;
    if name != "" && name[|name| - 1] == '\n' {
      assert name == name[..|name| - 1] + "\n";
    }
  }

  /** Record i is the first with this id, and has this name. */
  predicate FirstAt(groups: seq<Group>, gid: string, name: string, i: nat) {
    i < |groups| && groups[i] == Group(gid, name) && forall j :: 0 <= j < i ==> groups[j].id != gid
  }

  /** The first record with this id has this name. */
  ghost predicate FirstNamed(groups: seq<Group>, gid: string, name: string) {
    exists i: nat :: FirstAt(groups, gid, name, i)
  }

  lemma {:induction false} FirstNamedIsRecord(groups: seq<Group>, gid: string, name: string, i: nat)
    requires FirstAt(groups, gid, name, i)
    ensures Record(groups, gid) == Some(Group(gid, name))
  {
    if i > 0 {
      FirstNamedIsRecord(groups[1..], gid, name, i - 1);
    }
  }

  lemma {:induction false} RecordIsFirst(groups: seq<Group>, gid: string) returns (i: nat)
    requires Record(groups, gid).Some?
    ensures FirstAt(groups, gid, Record(groups, gid).value.name, i)
  {
    i := 0;
    if groups[0].id != gid {
      i := RecordIsFirst(groups[1..], gid);
      i := i + 1;
    }
  }

  /** Somebody gave the group of this id its name. */
  ghost predicate NamedByUser(p: Project, gid: string) {
    exists name :: FirstNamed(p.groups, gid, name) && !RunNumber(name) && name != "(no record)"
  }

  /** The positions of the panes of a group that are running. */
  function LivePanes(panes: seq<Pane>, gid: string): set<nat> {
    set i: nat | i < |panes| && panes[i].spawned && !panes[i].removed && panes[i].groupId == gid
  }

  lemma {:induction false} LiveCountIsSize(panes: seq<Pane>, gid: string, from: nat)
    requires from <= |panes|
    ensures LiveCount(panes[from..], gid) == |set i | i in LivePanes(panes, gid) && i >= from|
    decreases |panes| - from
  {
    var here := set i | i in LivePanes(panes, gid) && i >= from;
    if from < |panes| {
      LiveCountIsSize(panes, gid, from + 1);
      var rest := set i | i in LivePanes(panes, gid) && i >= from + 1;
      assert panes[from..][0] == panes[from] && panes[from..][1..] == panes[from + 1..];
      assert here == rest + if from in LivePanes(panes, gid) then {from} else {};
    } else {
      assert here == {};
    }
  }

  lemma LiveCountOfAll(p: Project, gid: string)
    ensures LiveCount(p.panes, gid) == |LivePanes(p.panes, gid)|
  {
    LiveCountIsSize(p.panes, gid, 0);
    assert p.panes[0..] == p.panes;
    assert LivePanes(p.panes, gid) == set i | i in LivePanes(p.panes, gid) && i >= 0;
  }

  lemma UserNamedIsNamedByUser(p: Project, gid: string)
    ensures UserNamed(p, gid) <==> NamedByUser(p, gid)
  {
    hide FirstAt, RunNumber, AutoNamed, Record;
    var record := Record(p.groups, gid);
    if record.Some? {
      var i := RecordIsFirst(p.groups, gid);
      AutoNamedIsRunNumber(record.value.name);
    }
    forall name, i: nat | FirstAt(p.groups, gid, name, i)
      ensures record == Some(Group(gid, name))
    {
      FirstNamedIsRecord(p.groups, gid, name, i);
    }
  }

  /** Who keeps an id: a project where the user named the group before any other,
      then the one with the most running panes, then the least path. */
  lemma KeeperInPlainTerms(projects: seq<Project>, holders: seq<nat>, gid: string, holder: nat)
    requires holder in holders && forall i :: 0 <= i < |holders| ==> holders[i] < |projects|
    ensures var keeper, other := projects[Keeper(projects, holders, gid)], projects[holder];
      NamedByUser(other, gid) ==> NamedByUser(keeper, gid)
    ensures var keeper, other := projects[Keeper(projects, holders, gid)], projects[holder];
      var most, fewer := |LivePanes(keeper.panes, gid)|, |LivePanes(other.panes, gid)|;
      (NamedByUser(keeper, gid) <==> NamedByUser(other, gid)) ==>
        most >= fewer && (most == fewer ==> StrLe(keeper.path, other.path))
  {
    var k := KeeperIsFirstOfLeastRank(projects, holders, gid);
    var j :| 0 <= j < |holders| && holders[j] == holder;
    var keeper, other := projects[holders[k]], projects[holders[j]];
    assert RankLe(keeper, other, gid);
    hide UserNamed, LiveCount, LivePanes, NamedByUser, Keeper;
    UserNamedIsNamedByUser(keeper, gid);
    UserNamedIsNamedByUser(other, gid);
    LiveCountOfAll(keeper, gid);
    LiveCountOfAll(other, gid);
  }

  lemma ArtifactInPlainTerms(p: Project, gid: string)
    ensures IsArtifact(p, gid) <==>
      (exists name :: FirstNamed(p.groups, gid, name) && RunNumber(name)) && LivePanes(p.panes, gid) == {}
  {
    hide FirstAt, RunNumber, AutoNamed, Record, LiveCount;
    LiveCountOfAll(p, gid);
    var record := Record(p.groups, gid);
    if record.Some? {
      var i := RecordIsFirst(p.groups, gid);
      AutoNamedIsRunNumber(record.value.name);
    }
    forall name, i: nat | FirstAt(p.groups, gid, name, i)
      ensures record == Some(Group(gid, name))
    {
      FirstNamedIsRecord(p.groups, gid, name, i);
    }
  }

  /** The project has a record of this id, or a running pane in its group. */
  ghost predicate Holds(p: Project, gid: string) {
    || (exists i :: 0 <= i < |p.groups| && p.groups[i].id == gid)
    || (exists i :: 0 <= i < |p.panes| && p.panes[i].groupId == gid && p.panes[i].spawned && !p.panes[i].removed)
  }

  lemma ShownIsHeld(p: Project, gid: string)
    ensures gid in Shown(p) <==> gid != "" && Holds(p, gid)
  {
    if i :| 0 <= i < |p.groups| && p.groups[i].id == gid {
      assert p.groups[i] in p.groups;
    }
    if i :| 0 <= i < |p.panes| && p.panes[i].groupId == gid && p.panes[i].spawned && !p.panes[i].removed {
      assert p.panes[i] in p.panes;
    }
  }

  predicate NumberChar(c: char) { '0' <= c <= '9' || c == '_' || c == '+' || IsSpace(c) }

  lemma SignedBody(s: string, body: string) returns (k: nat)
    requires s != "" && body == (if s[0] == '-' || s[0] == '+' then s[1..] else s) && s[0] != '-'
    requires IsIntBody(body) && IntValue(body) > 0
    ensures forall i :: 0 <= i < |s| ==> NumberChar(s[i])
    ensures k < |s| && '1' <= s[k] <= '9'
  {
    k := PositiveHasADigit(body);
    hide IsSpace, IntValue;
    var start := |s| - |body|;
    assert forall i :: start <= i < |s| ==> s[i] == body[i - start];
    k := k + start;
  }

  lemma NumberText(text: string) returns (k: nat)
    requires ParseInt(text).Some? && ParseInt(text).value > 0
    ensures forall i :: 0 <= i < |text| ==> NumberChar(text[i])
    ensures k < |text| && '1' <= text[k] <= '9'
  {
    hide Strip, IsIntBody, IsSpace, IntValue, NumberChar, AllSpace;
    var head, tail := StripDropsSpaces(text);
    var s := Strip(text);
    k := SignedBody(s, if s[0] == '-' || s[0] == '+' then s[1..] else s);
    ConcatChars(head, s, tail);
    assert text[|head| + k] == s[k];
    k := |head| + k;
  }

  lemma ConcatChars(head: string, s: string, tail: string)
    requires AllSpace(head) && AllSpace(tail) && forall i :: 0 <= i < |s| ==> NumberChar(s[i])
    ensures forall i :: 0 <= i < |head + s + tail| ==> NumberChar((head + s + tail)[i])
  {
    hide IsSpace;
  }

  /** An id without a positive number after `rg-`, such as `rg-default`, has no
      stamp and is never repaired. */
  lemma StampNeedsANumber(gid: string)
    requires RunGroupCreatedAt(gid).Some?
    ensures |gid| > 3 && gid[..3] == "rg-"
    ensures forall i :: 3 <= i < |gid| ==> NumberChar(gid[i])
    ensures exists i :: 3 <= i < |gid| && '1' <= gid[i] <= '9'
  {
    hide ParseInt, NumberChar;
    var k := NumberText(gid[3..]);
    assert forall i :: 3 <= i < |gid| ==> gid[i] == gid[3..][i - 3];
    assert gid[k + 3] == gid[3..][k];
  }

  lemma {:induction false} PositiveHasADigit(s: string) returns (k: nat)
    requires IntValue(s) > 0
    ensures k < |s| && '1' <= s[k] <= '9'
  {
    k := |s| - 1;
    if !('1' <= s[k] <= '9') {
      k := PositiveHasADigit(s[..k]);
    }
  }

  lemma {:induction false} LastKept(groups: seq<Group>, gid: string) returns (k: nat)
    requires exists i :: 0 <= i < |groups| && groups[i].id != gid
    ensures k < |groups| && groups[k].id != gid && forall j :: k < j < |groups| ==> groups[j].id == gid
    ensures GroupsBut(groups, gid) != [] && GroupsBut(groups, gid)[|GroupsBut(groups, gid)| - 1] == groups[k]
  {
    if i :| 0 <= i < |groups| - 1 && groups[1..][i].id != gid {
      k := LastKept(groups[1..], gid);
      k := k + 1;
    } else {
      k := 0;
      NothingKept(groups[1..], gid);
      assert forall j :: 0 < j < |groups| ==> groups[j] == groups[1..][j - 1];
    }
  }

  lemma {:induction false} NothingKept(groups: seq<Group>, gid: string)
    requires forall i :: 0 <= i < |groups| ==> groups[i].id == gid
    ensures GroupsBut(groups, gid) == []
  {
    if groups != [] {
      NothingKept(groups[1..], gid);
    }
  }

  /** Dropping the active group makes the last of the other records active. */
  lemma ActiveTabAfterDrop(p: Project, gid: string)
    ensures p.activeTab != gid ==> Dropped(p, gid).activeTab == p.activeTab
    ensures p.activeTab == gid && Dropped(p, gid).activeTab != "" ==>
      exists k :: 0 <= k < |p.groups| && p.groups[k].id == Dropped(p, gid).activeTab != gid
    ensures forall k :: 0 <= k < |p.groups| && p.groups[k].id != gid ==>
      (forall j :: k < j < |p.groups| ==> p.groups[j].id == gid) ==>
        p.activeTab == gid ==> Dropped(p, gid).activeTab == p.groups[k].id
  {
    if forall i :: 0 <= i < |p.groups| ==> p.groups[i].id == gid {
      NothingKept(p.groups, gid);
    } else {
      var last := LastKept(p.groups, gid);
    }
  }
}
