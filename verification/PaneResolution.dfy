/** Which pane a `to:` target names, as seen from the sending pane. */
module PaneResolution {
  import opened Wrappers
  import opened Strings
  import opened PaneTables
  import opened PaneAddresses

  type Panes = map<string, RegisteredPane>

  datatype Refusal =
    | EmptyTarget | UnknownDevice | UnknownTarget | AmbiguousTarget(n: nat) | TargetIsDock | TargetOffline
    | MissingPaneName | UnknownWorkspace | AmbiguousWorkspace(n: nat) | UnknownTargetInWorkspace

  datatype ResolveResult = Resolved(pane: RegisteredPane, crossWorkspace: bool) | Refused(code: Refusal)

  // ---- The scan, as the code does it ----

  function Workspaces(panes: Panes): set<string> {
    set id | id in panes :: panes[id].workspacePath
  }

  /** The folder name, or a run of trailing segments, of a workspace path. */
  predicate AnswersTo(workspace: string, want: string) {
    (if BaseName(workspace) != "" then BaseName(workspace) else workspace) == want || EndsWith(workspace, "/" + want)
  }

  function MatchWorkspaces(panes: Panes, part: string): set<string> {
    var want := NormalizeWorkspace(part);
    if want == "" then {}
    else if want in Workspaces(panes) then {want}
    else set w | w in Workspaces(panes) && AnswersTo(w, want)
  }

  function Namesakes(panes: Panes, workspace: string, name: string): set<string> {
    set id | id in panes && panes[id].workspacePath == workspace && panes[id].name == name
  }

  /** Connected panes if there is one, else all of them. */
  function PreferOnline(panes: Panes, hits: set<string>): (picks: set<string>)
    requires hits <= panes.Keys
    ensures picks <= hits && (picks == {} ==> hits == {})
    ensures (exists x :: x in hits && !panes[x].Offline()) ==>
      forall id :: id in picks <==> id in hits && !panes[id].Offline()
    ensures (forall x :: x in hits ==> panes[x].Offline()) ==> picks == hits
  {
    var online := set id | id in hits && !panes[id].Offline();
    assert forall x :: x in hits && !panes[x].Offline() ==> x in online;
    if online != {} then online else hits
  }

  function Accept(pane: RegisteredPane, crossWorkspace: bool): ResolveResult {
    if pane.Offline() then Refused(TargetOffline)
    else if pane.IsDock() && !pane.deliverable then Refused(TargetIsDock)
    else Resolved(pane, crossWorkspace)
  }

  predicate Crosses(panes: Panes, sender: string, pane: RegisteredPane) {
    sender !in panes || panes[sender].workspacePath != pane.workspacePath
  }

  ghost function Pick(panes: Panes, sender: string, workspace: string, name: string, none: Refusal): ResolveResult {
    var picks := PreferOnline(panes, Namesakes(panes, workspace, name));
    if picks == {} then Refused(none)
    else if |picks| > 1 then Refused(AmbiguousTarget(|picks|))
    else
      var id :| id in picks;
      Accept(panes[id], Crosses(panes, sender, panes[id]))
  }

  /** How a target string is read before any pane is looked at. */
  datatype Reading =
    Nothing | Foreign(device: string) | Bare(name: string) | Unnamed | Qualified(part: string, name: string)

  function Read(localIds: set<string>, to: string): Reading {
    var target := Strip(to);
    if target == "" then Nothing else
      var (device, rest) := SplitDeviceSegment(target);
      if device != "" && device !in localIds then Foreign(device)
      else if '/' !in rest then Bare(rest)
      else
        var (part, last) := SplitLast(rest);
        if Strip(last) == "" then Unnamed else Qualified(part, Strip(last))
  }

  ghost function Resolve(panes: Panes, localIds: set<string>, sender: string, to: string): ResolveResult {
    ResolveReading(panes, sender, Read(localIds, to))
  }

  ghost function ResolveReading(panes: Panes, sender: string, reading: Reading): ResolveResult {
    match reading
    case Nothing => Refused(EmptyTarget)
    case Foreign(device) => Refused(UnknownDevice)
    case Bare(name) =>
      if sender !in panes then Refused(UnknownTarget)
      else Pick(panes, sender, panes[sender].workspacePath, name, UnknownTarget)
    case Unnamed => Refused(MissingPaneName)
    case Qualified(part, name) =>
      var candidates := MatchWorkspaces(panes, part);
      if candidates == {} then Refused(UnknownWorkspace)
      else if |candidates| > 1 then Refused(AmbiguousWorkspace(|candidates|))
      else
        var workspace :| workspace in candidates;
        Pick(panes, sender, workspace, name, UnknownTargetInWorkspace)
  }

  // ---- What an address names, said without any scan ----

  ghost predicate Keyed(panes: Panes) {
    forall id :: id in panes ==> panes[id].paneId == id
  }

  /** The one workspace an address is about: the sender's own for a bare name,
      else the only registered workspace answering to the given part. */
  ghost predicate Selects(panes: Panes, sender: string, reading: Reading, workspace: string) {
    match reading
    case Bare(name) => sender in panes && panes[sender].workspacePath == workspace
    case Qualified(part, name) =>
      && workspace in MatchWorkspaces(panes, part)
      && forall other :: other in MatchWorkspaces(panes, part) ==> other == workspace
    case _ => false
  }

  /** Pane `id` carries the name the address asks for, in that workspace. */
  ghost predicate Names(panes: Panes, sender: string, reading: Reading, id: string) {
    && id in panes
    && (reading.Bare? || reading.Qualified?)
    && panes[id].name == reading.name
    && Selects(panes, sender, reading, panes[id].workspacePath)
  }

  lemma SoleElement<T>(s: set<T>, x: T)
    requires x in s
    ensures |s| == 1 <==> forall y :: y in s ==> y == x
  {
    if y :| y in s && y != x {
      SubsetSize({x, y}, s);
    } else {
      assert s == {x};
    }
  }

  /** Every target either comes down to one workspace and one name in it, or is
      refused before any pane is looked at and names nothing. */
  lemma ResolveReduces(panes: Panes, sender: string, reading: Reading)
    returns (workspace: Option<string>, name: string, none: Refusal)
    ensures none == UnknownTarget || none == UnknownTargetInWorkspace
    ensures workspace.Some? ==>
      && ResolveReading(panes, sender, reading) == Pick(panes, sender, workspace.value, name, none)
      && forall x :: Names(panes, sender, reading, x) <==> x in Namesakes(panes, workspace.value, name)
    ensures workspace.None? ==>
      && ResolveReading(panes, sender, reading).Refused?
      && !ResolveReading(panes, sender, reading).code.AmbiguousTarget?
      && ResolveReading(panes, sender, reading).code != TargetOffline
      && ResolveReading(panes, sender, reading).code != TargetIsDock
      && forall x :: !Names(panes, sender, reading, x)
  {
    workspace, name, none := None, "", UnknownTarget;
    match reading
    case Bare(n) =>
      if sender in panes {
        workspace, name := Some(panes[sender].workspacePath), n;
      }
    case Qualified(part, n) =>
      name, none := n, UnknownTargetInWorkspace;
      var candidates := MatchWorkspaces(panes, part);
      if w :| w in candidates {
        SoleElement(candidates, w);
        if |candidates| == 1 {
          workspace := Some(w);
        }
      }
    case _ =>
  }

  /** What picking among the panes of one name in one workspace comes to. */
  lemma PickCases(panes: Panes, sender: string, workspace: string, name: string, none: Refusal, x: string)
    requires x in PreferOnline(panes, Namesakes(panes, workspace, name))
    ensures var picks := PreferOnline(panes, Namesakes(panes, workspace, name));
      Pick(panes, sender, workspace, name, none) ==
        if forall y :: y in picks ==> y == x then Accept(panes[x], Crosses(panes, sender, panes[x]))
        else Refused(AmbiguousTarget(|picks|))
  {
    var picks := PreferOnline(panes, Namesakes(panes, workspace, name));
    SoleElement(picks, x);
    assert |picks| > 0;
  }

  lemma PickIsExact(panes: Panes, sender: string, workspace: string, name: string, none: Refusal, id: string,
                    cross: bool)
    requires Keyed(panes) && id in panes
    ensures Pick(panes, sender, workspace, name, none) == Resolved(panes[id], cross) <==>
      && id in Namesakes(panes, workspace, name)
      && panes[id].AcceptsMessages()
      && (forall other :: other in Namesakes(panes, workspace, name) && !panes[other].Offline() ==> other == id)
      && cross == Crosses(panes, sender, panes[id])
  {
    var picks := PreferOnline(panes, Namesakes(panes, workspace, name));
    if id in picks {
      PickCases(panes, sender, workspace, name, none, id);
    } else if x :| x in picks {
      PickCases(panes, sender, workspace, name, none, x);
      assert panes[x] != panes[id];
    }
  }

  /** `resolve` returns a pane exactly when the address names it, it can take
      messages, and no other connected pane answers to the same address; how
      many disconnected namesakes exist does not matter. The result is marked
      cross-workspace exactly when the sender is unknown or sits elsewhere. */
  lemma ResolveIsExact(panes: Panes, localIds: set<string>, sender: string, to: string, id: string, cross: bool)
    requires Keyed(panes) && id in panes
    ensures Resolve(panes, localIds, sender, to) == Resolved(panes[id], cross) <==>
      && Names(panes, sender, Read(localIds, to), id)
      && panes[id].AcceptsMessages()
      && (forall other :: Names(panes, sender, Read(localIds, to), other) && !panes[other].Offline() ==> other == id)
      && cross == !(sender in panes && panes[sender].workspacePath == panes[id].workspacePath)
  {
    var workspace, name, none := ResolveReduces(panes, sender, Read(localIds, to));
    if workspace.Some? {
      PickIsExact(panes, sender, workspace.value, name, none, id, cross);
    }
  }

  lemma PickOffline(panes: Panes, sender: string, workspace: string, name: string, none: Refusal)
    requires none == UnknownTarget || none == UnknownTargetInWorkspace
    ensures var hits := Namesakes(panes, workspace, name);
      Pick(panes, sender, workspace, name, none) == Refused(TargetOffline) <==>
        exists id :: id in hits && panes[id].Offline() && forall other :: other in hits ==> other == id
  {
    var picks := PreferOnline(panes, Namesakes(panes, workspace, name));
    if x :| x in picks {
      PickCases(panes, sender, workspace, name, none, x);
    }
  }

  lemma PickAmbiguous(panes: Panes, sender: string, workspace: string, name: string, none: Refusal)
    requires none == UnknownTarget || none == UnknownTargetInWorkspace
    ensures var hits, r := Namesakes(panes, workspace, name), Pick(panes, sender, workspace, name, none);
      r.Refused? && r.code.AmbiguousTarget? <==>
        exists a, b :: a != b && a in hits && b in hits
          && ((!panes[a].Offline() && !panes[b].Offline()) || forall other :: other in hits ==> panes[other].Offline())
  {
    var picks := PreferOnline(panes, Namesakes(panes, workspace, name));
    if x :| x in picks {
      PickCases(panes, sender, workspace, name, none, x);
    }
  }

  lemma PickDock(panes: Panes, sender: string, workspace: string, name: string, none: Refusal)
    requires none == UnknownTarget || none == UnknownTargetInWorkspace
    ensures var hits := Namesakes(panes, workspace, name);
      Pick(panes, sender, workspace, name, none) == Refused(TargetIsDock) <==>
        exists id :: id in hits && !panes[id].Offline() && !panes[id].AcceptsMessages()
          && forall other :: other in hits && !panes[other].Offline() ==> other == id
  {
    var picks := PreferOnline(panes, Namesakes(panes, workspace, name));
    if x :| x in picks {
      PickCases(panes, sender, workspace, name, none, x);
    }
  }

  lemma PickNothing(panes: Panes, sender: string, workspace: string, name: string, none: Refusal)
    ensures var r := Pick(panes, sender, workspace, name, none);
      if Namesakes(panes, workspace, name) == {} then r == Refused(none)
      else r.Resolved? || r.code.AmbiguousTarget? || r.code == TargetOffline || r.code == TargetIsDock
  {
    var picks := PreferOnline(panes, Namesakes(panes, workspace, name));
    if x :| x in picks {
      PickCases(panes, sender, workspace, name, none, x);
    }
  }

  /** When an address that names panes is refused: the only pane of that name is
      away, the only connected one is docked without taking deliveries, or two
      equally reachable panes share the name. */
  lemma RefusalsAreExact(panes: Panes, localIds: set<string>, sender: string, to: string)
    ensures Resolve(panes, localIds, sender, to) == Refused(TargetOffline) <==>
      exists id :: Names(panes, sender, Read(localIds, to), id) && panes[id].Offline()
        && forall other :: Names(panes, sender, Read(localIds, to), other) ==> other == id
    ensures Resolve(panes, localIds, sender, to) == Refused(TargetIsDock) <==>
      exists id :: Names(panes, sender, Read(localIds, to), id)
        && !panes[id].Offline() && !panes[id].AcceptsMessages()
        && forall other :: Names(panes, sender, Read(localIds, to), other) && !panes[other].Offline() ==> other == id
    ensures var r := Resolve(panes, localIds, sender, to);
      r.Refused? && r.code.AmbiguousTarget? <==>
      exists a, b :: a != b && Names(panes, sender, Read(localIds, to), a)
        && Names(panes, sender, Read(localIds, to), b)
        && ((!panes[a].Offline() && !panes[b].Offline())
            || forall other :: Names(panes, sender, Read(localIds, to), other) ==> panes[other].Offline())
  {
    var workspace, name, none := ResolveReduces(panes, sender, Read(localIds, to));
    if workspace.Some? {
      PickOffline(panes, sender, workspace.value, name, none);
      PickDock(panes, sender, workspace.value, name, none);
      PickAmbiguous(panes, sender, workspace.value, name, none);
    }
  }

  lemma NamesakesAreNamed(panes: Panes, sender: string, reading: Reading, workspace: string)
    requires Selects(panes, sender, reading, workspace)
    ensures Namesakes(panes, workspace, reading.name) == {} <==> forall id :: !Names(panes, sender, reading, id)
  {
    hide MatchWorkspaces;
    forall id
      ensures Names(panes, sender, reading, id) <==> id in Namesakes(panes, workspace, reading.name)
    {
    }
  }

  /** When an address that names no pane is refused, and with what answer. */
  lemma NamelessIsRefused(panes: Panes, sender: string, reading: Reading)
    ensures var r := ResolveReading(panes, sender, reading);
      && (r == Refused(EmptyTarget) <==> reading.Nothing?)
      && (r == Refused(UnknownDevice) <==> reading.Foreign?)
      && (r == Refused(MissingPaneName) <==> reading.Unnamed?)
    ensures var r := ResolveReading(panes, sender, reading);
      r == Refused(UnknownTarget) <==> reading.Bare? && forall id :: !Names(panes, sender, reading, id)
    ensures var r := ResolveReading(panes, sender, reading);
      r == Refused(UnknownWorkspace) <==> reading.Qualified? && MatchWorkspaces(panes, reading.part) == {}
    ensures var r := ResolveReading(panes, sender, reading);
      r.Refused? && r.code.AmbiguousWorkspace? <==>
        reading.Qualified? && var found := MatchWorkspaces(panes, reading.part);
          exists u, v :: u != v && u in found && v in found
    ensures var r := ResolveReading(panes, sender, reading);
      r == Refused(UnknownTargetInWorkspace) <==>
        reading.Qualified? && (exists workspace :: Selects(panes, sender, reading, workspace))
          && forall id :: !Names(panes, sender, reading, id)
  {
    hide MatchWorkspaces, Pick;
    match reading
    case Bare(name) =>
      if sender in panes {
        NamesakesAreNamed(panes, sender, reading, panes[sender].workspacePath);
        PickNothing(panes, sender, panes[sender].workspacePath, name, UnknownTarget);
      }
    case Qualified(part, name) =>
      var candidates := MatchWorkspaces(panes, part);
      if w :| w in candidates {
        SoleElement(candidates, w);
        assert |candidates| > 0;
        PickNothing(panes, sender, w, name, UnknownTargetInWorkspace);
        if |candidates| == 1 {
          NamesakesAreNamed(panes, sender, reading, w);
        }
      }
    case _ =>
  }

  // ---- Structured addresses: the pane id is only a hint ----

  predicate HintMatches(panes: Panes, entry: RegisteredPane, a: Address, sender: string) {
    && entry.name == a.paneName
    && if a.workspace == "" then sender in panes && entry.workspacePath == panes[sender].workspacePath
       else entry.workspacePath in MatchWorkspaces(panes, a.workspace)
  }

  ghost function ResolveAddress(panes: Panes, localIds: set<string>, sender: string, a: Address): ResolveResult {
    if a.deviceId != "" && a.deviceId !in localIds then Refused(UnknownDevice)
    else if
      && a.paneId != "" && a.paneName != "" && a.paneId in panes
      && HintMatches(panes, panes[a.paneId], a, sender)
    then
      Accept(panes[a.paneId], Crosses(panes, sender, panes[a.paneId]))
    else Resolve(panes, localIds, sender, a.LocalTarget())
  }

  /** A well-formed address is read as it was meant: foreign if its device is
      not this machine, else as the bare or qualified name it was made from. */
  lemma TargetReads(localIds: set<string>, a: Address)
    requires WellFormed(a) && a.paneName != ""
    ensures Read(localIds, a.ToString()) ==
      if a.deviceId != "" && a.deviceId !in localIds then Foreign(a.deviceId)
      else if a.workspace == "" then Bare(a.paneName) else Qualified(a.workspace, a.paneName)
  {
    hide WellFormed, SplitDeviceSegment, SplitLast, Strip;
    WellFormedStringIsTrimmed(a);
    WellFormedSplits(a);
    LocalTargetShape(a);
  }

  lemma LocalTargetShape(a: Address)
    requires WellFormed(a) && a.paneName != ""
    ensures a.LocalTarget() != "" && a.ToString() != "" && Strip(a.paneName) == a.paneName
    ensures '/' in a.LocalTarget() <==> a.workspace != ""
  {
    hide LStrip, RStrip, IsSpace, IsDeviceSegment;
    assert a.workspace != "" ==> a.LocalTarget()[|a.workspace|] == '/';
    assert a.paneName == a.LocalTarget()[|a.LocalTarget()| - |a.paneName|..];
  }

  /** The local part of a well-formed address is read back as it was meant. */
  lemma LocalTargetReads(localIds: set<string>, a: Address)
    requires WellFormed(a.(deviceId := "")) && a.paneName != ""
    ensures Read(localIds, a.LocalTarget()) ==
      if a.workspace == "" then Bare(a.paneName) else Qualified(a.workspace, a.paneName)
  {
    var local := a.(deviceId := "");
    assert local.ToString() == a.LocalTarget();
    TargetReads(localIds, local);
  }

  /** Only a blank target names nothing at all. */
  lemma NothingIffBlank(localIds: set<string>, to: string)
    ensures Read(localIds, to).Nothing? <==> AllSpace(to)
  {
    var head, tail := StripDropsSpaces(to);
    var s := Strip(to);
    hide Strip, IsSpace, SplitDeviceSegment, SplitLast;
    assert s != "" ==> to[|head|] == s[0] && !IsSpace(s[0]);
    assert s == "" ==> to == head + tail;
  }

  /** A pane sitting where the hint's address points is named by the address as
      soon as the address selects one workspace. */
  lemma HintIsNamed(panes: Panes, localIds: set<string>, sender: string, a: Address, id: string)
    requires WellFormed(a.(deviceId := "")) && a.paneName != ""
    requires Names(panes, sender, Read(localIds, a.LocalTarget()), id)
    requires a.paneId in panes && HintMatches(panes, panes[a.paneId], a, sender)
    ensures Names(panes, sender, Read(localIds, a.LocalTarget()), a.paneId)
  {
    LocalTargetReads(localIds, a);
  }

  lemma ResolvedId(panes: Panes, sender: string, reading: Reading) returns (id: string)
    requires ResolveReading(panes, sender, reading).Resolved?
    ensures id in panes && ResolveReading(panes, sender, reading).pane == panes[id]
  {
    var workspace, name, none := ResolveReduces(panes, sender, reading);
    var picks := PreferOnline(panes, Namesakes(panes, workspace.value, name));
    id :| id in picks;
    PickCases(panes, sender, workspace.value, name, none, id);
  }

  lemma HintAgreesWithScan(panes: Panes, localIds: set<string>, sender: string, a: Address)
    requires Keyed(panes) && WellFormed(a.(deviceId := "")) && a.paneName != ""
    requires a.paneId in panes && HintMatches(panes, panes[a.paneId], a, sender)
    ensures var scan := Resolve(panes, localIds, sender, a.LocalTarget());
      var hinted := Accept(panes[a.paneId], Crosses(panes, sender, panes[a.paneId]));
      scan.Resolved? ==> (hinted == scan <==> !panes[a.paneId].Offline())
  {
    var to := a.LocalTarget();
    var scan := Resolve(panes, localIds, sender, to);
    if scan.Resolved? {
      var id := ResolvedId(panes, sender, Read(localIds, to));
      ResolveIsExact(panes, localIds, sender, to, id, scan.crossWorkspace);
      HintIsNamed(panes, localIds, sender, a, id);
    }
  }

  /** The hinted fast path refines the scan. When the scan finds a pane, a hint
      sitting at the same address gives the same answer exactly when the hinted
      pane is connected; when the scan refuses, a hinted pane that accepts
      messages is returned all the same; a hint sitting anywhere else changes
      nothing. */
  lemma HintRefinesScan(panes: Panes, localIds: set<string>, sender: string, a: Address)
    requires Keyed(panes) && WellFormed(a.(deviceId := "")) && a.paneName != ""
    requires a.deviceId == "" || a.deviceId in localIds
    ensures var scan := Resolve(panes, localIds, sender, a.LocalTarget());
      var answer := ResolveAddress(panes, localIds, sender, a);
      if a.paneId != "" && a.paneId in panes && panes[a.paneId].name == a.paneName
         && (if a.workspace == "" then sender in panes && panes[a.paneId].workspacePath == panes[sender].workspacePath
             else panes[a.paneId].workspacePath in MatchWorkspaces(panes, a.workspace))
      then
        && (scan.Resolved? ==> (answer == scan <==> !panes[a.paneId].Offline()))
        && (panes[a.paneId].AcceptsMessages() ==>
              && answer == Resolved(panes[a.paneId], !(sender in panes
                             && panes[sender].workspacePath == panes[a.paneId].workspacePath))
              && (answer == scan <==> scan.Resolved?))
        && (!panes[a.paneId].AcceptsMessages() ==>
              answer == Refused(if panes[a.paneId].Offline() then TargetOffline else TargetIsDock))
      else answer == scan
  {
    hide Resolve, Read, WellFormed, Keyed, MatchWorkspaces;
    if a.paneId != "" && a.paneId in panes && HintMatches(panes, panes[a.paneId], a, sender) {
      HintAgreesWithScan(panes, localIds, sender, a);
    }
  }

  // ---- A hint that hides a connected namesake ----

  /** Two windows register a pane of one name in one workspace, and the first
      window disconnects. */
  lemma NamesakesRun(a: Handle, b: Handle, first: Owner, second: Owner)
    returns (events: seq<TimedEvent>, trace: seq<Tables>)
    requires a.paneId != b.paneId && first != second
    ensures IsRun(trace, events) && |events| == 3
    ensures trace[3].panes == map[a.paneId := TakenOffline(Entry(None, a), 2.0), b.paneId := Entry(None, b)]
  {
    events := [At(0.0, Mirror(a, Some(first), [])), At(1.0, Mirror(b, Some(second), [])), At(2.0, DropOwner(first))];
    hide NormalizeWorkspace, TakenOffline, Entry;
    var t1 := Step(EMPTY, events[0]);
    var t2 := Step(t1, events[1]);
    trace := [EMPTY, t1, t2, Step(t2, events[2])];
    assert OwnedBy(t2, first) == {a.paneId};
  }

  lemma PlainNameReadsBare(localIds: set<string>, name: string)
    requires Trimmed(name) && name != "" && '/' !in name
    ensures Read(localIds, name) == Bare(name)
  {
    hide IsDeviceSegment, Trimmed, LStrip, RStrip, IsSpace, SplitLast;
    assert Strip(name) == name;
    assert SplitDeviceSegment(name) == ("", name);
    hide Strip, SplitDeviceSegment;
  }

  lemma ScanFindsTheConnectedOne(panes: Panes, localIds: set<string>, name: string, a: string, b: string)
    requires panes.Keys == {a, b} && a != b && panes[a].paneId == a && panes[b].paneId == b
    requires panes[a].name == panes[b].name == name && panes[a].workspacePath == panes[b].workspacePath
    requires panes[a].Offline() && panes[b].AcceptsMessages()
    requires Trimmed(name) && name != "" && '/' !in name
    ensures Resolve(panes, localIds, b, name) == Resolved(panes[b], false)
  {
    hide Read, Resolve, MatchWorkspaces, Trimmed;
    PlainNameReadsBare(localIds, name);
    ResolveIsExact(panes, localIds, b, name, b, false);
  }

  /** After that run a hint for the first pane is answered `target-offline`, while
      the scan of the same address finds the second. */
  lemma OfflineHintHidesANamesake(a: Handle, b: Handle, first: Owner, second: Owner, localIds: set<string>)
    returns (events: seq<TimedEvent>, trace: seq<Tables>)
    requires a.paneId != b.paneId && a.paneId != "" && first != second
    requires a.name == b.name && Trimmed(a.name) && a.name != "" && '/' !in a.name
    requires a.workspacePath == b.workspacePath && Entry(None, b).AcceptsMessages()
    ensures IsRun(trace, events) && |events| == 3
    ensures var hinted := Address(a.name, "", "", a.paneId);
      ResolveAddress(trace[3].panes, localIds, b.paneId, hinted) == Refused(TargetOffline)
    ensures b.paneId in trace[3].panes
      && Resolve(trace[3].panes, localIds, b.paneId, a.name) == Resolved(trace[3].panes[b.paneId], false)
  {
    events, trace := NamesakesRun(a, b, first, second);
    hide NormalizeWorkspace, Resolve, Read;
    ScanFindsTheConnectedOne(trace[3].panes, localIds, a.name, a.paneId, b.paneId);
  }
}
