/** Which removed pane ids the registry still remembers. */
module PaneMemory {
  import opened Wrappers
  import opened PaneTables
  import opened PaneInvariants

  /** The ids a step takes out of the registry, in the order it meets them. */
  function Removed(before: Tables, after: Tables, e: Event): seq<string> {
    match e
    case Purge(order) => order
    case Unregister(id, _) => if id in before.panes && id !in after.panes then [id] else []
    case _ => []
  }

  /** All removals of a run so far, first to last. */
  function RemovalLog(trace: seq<Tables>, events: seq<TimedEvent>, n: nat): seq<string>
    requires n <= |events| && n < |trace|
  {
    if n == 0 then []
    else RemovalLog(trace, events, n - 1) + Removed(trace[n - 1], trace[n], events[n - 1].event)
  }

  /** Nothing else leaves the registry, and nothing leaves twice in one step. */
  lemma RemovedIsWhatLeft(t: Tables, e: TimedEvent)
    requires Possible(t, e)
    ensures var removed := Removed(t, Step(t, e), e.event);
      Distinct(removed) && forall id :: id in removed <==> id in t.panes && id !in Step(t, e).panes
  {
    if e.event.Purge? {
      PurgedTables(t, e.event.order);
    }
  }

  /** An id is among the `c` ids remembered last. */
  ghost predicate Recent(forgotten: seq<string>, id: string, c: nat) {
    exists k :: 0 <= k < |forgotten| && forgotten[k] == id && |forgotten| - k <= c
  }

  lemma WithoutKeepsRecent(forgotten: seq<string>, x: string, id: string, c: nat)
    requires Recent(forgotten, id, c) && x != id
    ensures Recent(Without(forgotten, x), id, c)
  {
    var k :| 0 <= k < |forgotten| && forgotten[k] == id && |forgotten| - k <= c;
    var at := WithoutKeepsPlace(forgotten, x, k);
  }

  lemma JustRemembered(forgotten: seq<string>, id: string)
    ensures Recent(Remembered(forgotten, id), id, 1)
  {
    var r := Remembered(forgotten, id);
    assert r[|r| - 1] == id;
  }

  lemma RememberKeepsRecent(forgotten: seq<string>, x: string, id: string, c: nat)
    requires Recent(forgotten, id, c) && x != id && c < FORGOTTEN_IDS_MAX
    ensures Recent(Remembered(forgotten, x), id, c + 1)
  {
    WithoutKeepsRecent(forgotten, x, id, c);
    var rest := Without(forgotten, x);
    var k :| 0 <= k < |rest| && rest[k] == id && |rest| - k <= c;
    var all, r := rest + [x], Remembered(forgotten, x);
    assert r[k - (|all| - |r|)] == all[k] == id;
  }

  lemma {:induction false} PurgedKeepsRecent(t: Tables, order: seq<string>, id: string, c: nat)
    requires Distinct(order) && (forall x :: x in order ==> x in t.panes) && id !in order
    requires Recent(t.forgotten, id, c) && c + |order| <= FORGOTTEN_IDS_MAX
    ensures Recent(Purged(t, order).forgotten, id, c + |order|)
  {
    if order != [] {
      var init, last := order[..|order| - 1], order[|order| - 1];
      PurgedKeepsRecent(t, init, id, c);
      PurgedTables(t, init);
      assert last in order && last in Purged(t, init).panes;
      RememberKeepsRecent(Purged(t, init).forgotten, last, id, c + |init|);
    }
  }

  lemma {:induction false} PurgedIsRecent(t: Tables, order: seq<string>, p: nat)
    requires Distinct(order) && (forall x :: x in order ==> x in t.panes)
    requires p < |order| && |order| - p <= FORGOTTEN_IDS_MAX
    ensures Recent(Purged(t, order).forgotten, order[p], |order| - p)
  {
    var init, last := order[..|order| - 1], order[|order| - 1];
    PurgedTables(t, init);
    assert last in order && last in Purged(t, init).panes;
    if p == |init| {
      JustRemembered(Purged(t, init).forgotten, last);
    } else {
      PurgedIsRecent(t, init, p);
      RememberKeepsRecent(Purged(t, init).forgotten, last, order[p], |init| - p);
    }
  }

  /** An id leaving the registry is remembered, behind those removed with it. */
  lemma RemovalIsRemembered(t: Tables, e: TimedEvent, p: nat)
    requires Possible(t, e) && p < |Removed(t, Step(t, e), e.event)|
    requires |Removed(t, Step(t, e), e.event)| - p <= FORGOTTEN_IDS_MAX
    ensures var removed := Removed(t, Step(t, e), e.event);
      Recent(Step(t, e).forgotten, removed[p], |removed| - p)
  {
    hide Recent, Remembered, AliasesNotTo;
    RemovedIsWhatLeft(t, e);
    match e.event
    case Purge(order) => PurgedIsRecent(t, order, p);
    case Unregister(id, _) => JustRemembered(t.forgotten, id);
    case _ =>
  }

  /** A remembered id moves back by one place for each id removed after it. */
  lemma StepKeepsRecent(t: Tables, e: TimedEvent, id: string, c: nat)
    requires Possible(t, e) && id !in t.panes && id !in Step(t, e).panes
    requires Recent(t.forgotten, id, c) && c + |Removed(t, Step(t, e), e.event)| <= FORGOTTEN_IDS_MAX
    ensures Recent(Step(t, e).forgotten, id, c + |Removed(t, Step(t, e), e.event)|)
  {
    hide Recent, Remembered, AliasesNotTo, ClaimAll, Entry;
    RemovedIsWhatLeft(t, e);
    match e.event
    case Mirror(h, owner, declared) => WithoutKeepsRecent(t.forgotten, h.paneId, id, c);
    case Unregister(x, owner) =>
      if x in t.panes && !HeldByAnother(t, x, owner) {
        RememberKeepsRecent(t.forgotten, x, id, c);
      }
    case Purge(order) => PurgedKeepsRecent(t, order, id, c);
    case _ =>
  }

  /** A pane that was registered and no longer is was removed at some place of
      the log, and is remembered while fewer than 512 removals come after it. */
  lemma {:induction false} RemovedPaneIsRemembered(trace: seq<Tables>, events: seq<TimedEvent>, i: nat, j: nat,
                                                   id: string)
    returns (p: nat)
    requires IsRun(trace, events) && i <= j < |trace|
    requires id in trace[i].panes && id !in trace[j].panes
    ensures var log := RemovalLog(trace, events, j);
      && p < |log| && log[p] == id && id !in log[p + 1..]
      && (|log[p + 1..]| < 512 ==> id in trace[j].forgotten && Recent(trace[j].forgotten, id, |log| - p))
  {
    hide Recent, Step, Purged, Removed;
    var t, e := trace[j - 1], events[j - 1];
    assert Possible(t, e) && trace[j - 1 + 1] == Step(t, e);
    RemovedIsWhatLeft(t, e);
    var before, removed := RemovalLog(trace, events, j - 1), Removed(t, trace[j], e.event);
    var log := before + removed;
    if id in t.panes {
      var at :| 0 <= at < |removed| && removed[at] == id;
      p := |before| + at;
      assert forall k :: p < k < |log| ==> log[k] == removed[k - |before|];
      if |log| - p <= 512 {
        RemovalIsRemembered(t, e, at);
      }
    } else {
      p := RemovedPaneIsRemembered(trace, events, i, j - 1, id);
      assert log[p + 1..] == before[p + 1..] + removed;
      if |log| - p <= 512 {
        StepKeepsRecent(t, e, id, |before| - p);
      }
    }
    if |log| - p <= 512 {
      RecentIsRemembered(trace[j].forgotten, id, |log| - p);
    }
  }

  lemma RecentIsRemembered(forgotten: seq<string>, id: string, c: nat)
    requires Recent(forgotten, id, c)
    ensures id in forgotten
  {
  }
}
