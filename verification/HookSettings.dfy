/** The hooks section of a user's Claude settings, and what installing and
    uninstalling Navide's own hooks does to it. */
module HookSettings {
  import opened Wrappers
  import opened Strings
  import opened Paths

  const MARKER := "# agent-team-hook"
  const GUARD_SCRIPT := "\\navide-guard.cmd"

  /** `rest` and `text` stand for JSON the merge carries along unread. */
  datatype Hook = Hook(command: string, args: Option<seq<string>>, rest: string) | NotADict(text: string)

  datatype Entry = Wrapper(hooks: seq<Hook>, rest: string) | WithoutList(rest: string) | NotAWrapper(text: string)

  datatype Value = Entries(entries: seq<Entry>) | NotAList(text: string)

  type Section = map<string, Value>

  // ---- Whose hook is it ----

  predicate StartsAt(s: string, t: string, i: nat) { i + |t| <= |s| && s[i..i + |t|] == t }

  predicate ContainsText(s: string, t: string) {
    exists i :: 0 <= i <= |s| && StartsAt(s, t, i)
  }

  function Backslashed(s: string): (r: string)
    ensures |r| == |s| && forall i :: 0 <= i < |s| ==> r[i] == if s[i] == '/' then '\\' else s[i]
  {
    seq(|s|, i requires 0 <= i < |s| => if s[i] == '/' then '\\' else s[i])
  }

  predicate IsOurs(h: Hook) {
    h.Hook? &&
    (ContainsText(h.command, MARKER) ||
    (h.args.Some? && h.args.value != [] && EndsWith(Backslashed(h.args.value[|h.args.value| - 1]), GUARD_SCRIPT)))
  }

  lemma ContainsIsConcat(s: string, t: string)
    ensures ContainsText(s, t) <==> exists a, b :: s == a + t + b
  {
    if i :| 0 <= i <= |s| && StartsAt(s, t, i) {
      assert s == s[..i] + t + s[i + |t|..];
    }
    if a, b :| s == a + t + b {
      assert StartsAt(s, t, |a|);
    }
  }

  /** The command carries our marker, or the last argument is a path, written
      with either slash, to a file of the guard script's name. */
  ghost predicate Marked(h: Hook) {
    && h.Hook?
    && ((exists a, b :: h.command == a + "# agent-team-hook" + b)
        || (h.args.Some? && h.args.value != []
            && exists folder :: Backslashed(h.args.value[|h.args.value| - 1]) == folder + "\\navide-guard.cmd"))
  }

  lemma IsOursIsMarked(h: Hook)
    ensures IsOurs(h) <==> Marked(h)
  {
    if h.Hook? {
      ContainsIsConcat(h.command, MARKER);
      if h.args.Some? && h.args.value != [] {
        EndsWithIsConcat(Backslashed(h.args.value[|h.args.value| - 1]), GUARD_SCRIPT);
      }
    }
    hide ContainsText, EndsWith, Backslashed;
  }

  // ---- What we install ----

  /** The scripts this start would install. The guard runs as a marked command,
      or as a bare program whose last argument is the guard script. */
  datatype Plan = Plan(portFile: string, scripts: map<string, string>, guard: Guard, rewake: string, rewakeWanted: bool)

  datatype Guard = MarkedGuard(script: string) | ScriptGuard(directory: string)

  function MarkedHook(kind: string, script: string): Hook {
    Hook(MARKER + (" kind=" + kind + "\n" + script), None, "")
  }

  function GuardHook(g: Guard): Hook {
    match g
    case MarkedGuard(script) => MarkedHook("guard", script)
    case ScriptGuard(directory) => Hook("cmd.exe", Some(["/d", "/c", directory + GUARD_SCRIPT]), "")
  }

  const OUR_EVENTS: seq<string> := ["PreToolUse", "Stop", "Notification", "SubagentStop", "SessionStart"]

  function Kind(event: string): string {
    if event == "PreToolUse" then "pre_tool_use" else if event == "Stop" then "stop"
    else if event == "Notification" then "notification" else if event == "SubagentStop" then "subagent_stop" else ""
  }

  function Script(p: Plan, event: string): string { if event in p.scripts then p.scripts[event] else "" }

  function OursFor(p: Plan, event: string): seq<Hook> {
    (if Kind(event) != "" then [MarkedHook(Kind(event), Script(p, event))] else []) +
    (if event == "PreToolUse" then [GuardHook(p.guard)] else []) +
    (if (event == "SessionStart" || event == "Stop") && p.rewakeWanted then [MarkedHook("rewake", p.rewake)] else [])
  }

  lemma MarkedIsOurs(kind: string, script: string)
    ensures IsOurs(MarkedHook(kind, script))
  {
    var tail := " kind=" + kind + "\n" + script;
    var s := MARKER + tail;
    assert s == MarkedHook(kind, script).command;
    assert StartsAt(s, MARKER, 0);
  }

  lemma GuardIsOurs(g: Guard)
    ensures IsOurs(GuardHook(g))
  {
    match g
    case MarkedGuard(script) => MarkedIsOurs("guard", script);
    case ScriptGuard(directory) =>
      var s := Backslashed(directory + GUARD_SCRIPT);
      assert s[|directory|..] == GUARD_SCRIPT;
  }

  /** Whatever we install we will recognize as ours. */
  lemma WhatWeInstallIsOurs(p: Plan, event: string)
    ensures forall h :: h in OursFor(p, event) ==> IsOurs(h)
  {
    MarkedIsOurs(Kind(event), Script(p, event));
    GuardIsOurs(p.guard);
    MarkedIsOurs("rewake", p.rewake);
    hide IsOurs, MarkedHook, GuardHook, Kind, Script;
  }

  // ---- Removing ours from one event ----

  function NotOurs(hooks: seq<Hook>): (r: seq<Hook>)
    ensures forall h :: h in r <==> h in hooks && !IsOurs(h)
    ensures r == hooks <==> forall h :: h in hooks ==> !IsOurs(h)
    ensures |r| <= |hooks|
  {
    if hooks == [] then []
    else
      var init, h := NotOurs(hooks[..|hooks| - 1]), hooks[|hooks| - 1];
      assert hooks == hooks[..|hooks| - 1] + [h];
      if IsOurs(h) then init else init + [h]
  }

  /** What is left of an entry: itself, itself with fewer hooks, or nothing. */
  function CleanEntry(e: Entry): (r: seq<Entry>)
    ensures |r| <= 1
  {
    if !e.Wrapper? then [e] else if NotOurs(e.hooks) == [] then [] else [e.(hooks := NotOurs(e.hooks))]
  }

  function Clean(es: seq<Entry>): seq<Entry> {
    if es == [] then [] else Clean(es[..|es| - 1]) + CleanEntry(es[|es| - 1])
  }

  // ---- Whole sections ----

  function Listed(v: Option<Value>): seq<Entry> {
    if v.Some? && v.value.Entries? then v.value.entries else []
  }

  function NonEmpty(es: seq<Entry>): Option<Value> { if es == [] then None else Some(Entries(es)) }

  function WithOurs(es: seq<Entry>, ours: seq<Hook>): seq<Entry> {
    if ours == [] then es else es + [Wrapper(ours, "")]
  }

  function InstalledValue(v: Option<Value>, ours: seq<Hook>): Option<Value> {
    NonEmpty(WithOurs(Clean(Listed(v)), ours))
  }

  function UninstalledValue(v: Option<Value>): Option<Value> {
    if v.None? || v.value.NotAList? || Clean(v.value.entries) == v.value.entries then v
    else NonEmpty(Clean(v.value.entries))
  }

  function InstalledAt(s: Section, p: Plan, event: string): Option<Value> {
    if event in OUR_EVENTS then InstalledValue(Lookup(s, event), OursFor(p, event)) else Lookup(s, event)
  }

  function Install(s: Section, p: Plan): (r: Section)
    ensures forall event :: Lookup(r, event) == InstalledAt(s, p, event)
  {
    map event | event in s.Keys + (set e | e in OUR_EVENTS) && InstalledAt(s, p, event).Some? ::
      InstalledAt(s, p, event).value
  }

  function Uninstall(s: Section): (r: Section)
    ensures forall event :: Lookup(r, event) == UninstalledValue(Lookup(s, event))
  {
    map event | event in s && UninstalledValue(Some(s[event])).Some? :: UninstalledValue(Some(s[event])).value
  }

  // ---- What cleaning keeps ----

  /** Nothing in the list is ours or an empty wrapper. */
  ghost predicate Untouched(es: seq<Entry>) {
    forall i :: 0 <= i < |es| && es[i].Wrapper? ==> es[i].hooks != [] && forall h :: h in es[i].hooks ==> !Marked(h)
  }

  /** One hook of the user's, with what its wrapper says, or an entry that is no wrapper. */
  datatype Item = UserHook(rest: string, hook: Hook) | Verbatim(entry: Entry)

  ghost function HookItems(rest: string, hooks: seq<Hook>): seq<Item> {
    if hooks == [] then []
    else
      var init, h := HookItems(rest, hooks[..|hooks| - 1]), hooks[|hooks| - 1];
      if Marked(h) then init else init + [UserHook(rest, h)]
  }

  /** Everything of the user's, in order. */
  ghost function Items(es: seq<Entry>): seq<Item> {
    if es == [] then []
    else
      Items(es[..|es| - 1]) + ItemsOf(es[|es| - 1])
  }

  ghost function ItemsOf(e: Entry): seq<Item> {
    if e.Wrapper? then HookItems(e.rest, e.hooks) else [Verbatim(e)]
  }

  lemma {:induction false} ItemsOfNotOurs(rest: string, hooks: seq<Hook>)
    ensures HookItems(rest, NotOurs(hooks)) == HookItems(rest, hooks)
  {
    if hooks != [] {
      var init, h := hooks[..|hooks| - 1], hooks[|hooks| - 1];
      ItemsOfNotOurs(rest, init);
      IsOursIsMarked(h);
      hide IsOurs, Marked;
      if !IsOurs(h) {
        assert NotOurs(hooks)[..|NotOurs(hooks)| - 1] == NotOurs(init);
      }
    }
  }

  lemma CleanedEntryKeepsItems(es: seq<Entry>, e: Entry)
    ensures Items(es + CleanEntry(e)) == Items(es) + ItemsOf(e)
  {
    if e.Wrapper? {
      ItemsOfNotOurs(e.rest, e.hooks);
    }
    var cleaned := es + CleanEntry(e);
    if CleanEntry(e) != [] {
      assert cleaned[..|cleaned| - 1] == es;
    } else {
      assert cleaned == es;
    }
  }

  lemma {:induction false} CleaningKeepsItems(es: seq<Entry>)
    ensures Items(Clean(es)) == Items(es)
  {
    if es != [] {
      CleaningKeepsItems(es[..|es| - 1]);
      CleanedEntryKeepsItems(Clean(es[..|es| - 1]), es[|es| - 1]);
    }
  }

  lemma OursAreMarked(hooks: seq<Hook>)
    ensures forall h :: h in hooks ==> (IsOurs(h) <==> Marked(h))
  {
    forall h | h in hooks ensures IsOurs(h) <==> Marked(h) {
      IsOursIsMarked(h);
    }
  }

  lemma {:induction false} CleanLeavesUntouched(es: seq<Entry>)
    ensures Untouched(Clean(es))
  {
    hide IsOurs, Marked;
    if es != [] && es[|es| - 1].Wrapper? {
      OursAreMarked(es[|es| - 1].hooks);
    }
    if es != [] {
      CleanLeavesUntouched(es[..|es| - 1]);
    }
  }

  lemma {:induction false} UntouchedStaysAsItIs(es: seq<Entry>)
    requires Untouched(es)
    ensures Clean(es) == es
  {
    hide IsOurs, Marked;
    if es != [] && es[|es| - 1].Wrapper? {
      OursAreMarked(es[|es| - 1].hooks);
    }
    if es != [] {
      var init, e := es[..|es| - 1], es[|es| - 1];
      UntouchedStaysAsItIs(init);
      assert e == es[|es| - 1] && es == init + [e];
    }
  }

  /** Cleaning changes a list exactly when it has something to remove. */
  lemma CleanIsIdentityIff(es: seq<Entry>)
    ensures Clean(es) == es <==> Untouched(es)
    ensures Clean(Clean(es)) == Clean(es)
  {
    CleanLeavesUntouched(es);
    UntouchedStaysAsItIs(Clean(es));
    if Untouched(es) {
      UntouchedStaysAsItIs(es);
    }
  }

  lemma OurWrapperVanishes(es: seq<Entry>, ours: seq<Hook>)
    requires forall h :: h in ours ==> IsOurs(h)
    ensures Clean(WithOurs(es, ours)) == Clean(es)
    ensures ours != [] ==> Clean(WithOurs(es, ours)) != WithOurs(es, ours)
  {
    if ours != [] {
      var more := WithOurs(es, ours);
      assert more[..|more| - 1] == es;
      CleanIsIdentityIff(more);
      OursAreMarked(ours);
      assert more[|more| - 1].hooks[0] in ours;
      assert forall h :: h !in NotOurs(ours);
    }
  }

  lemma OurHooksAreNoItems(es: seq<Entry>, ours: seq<Hook>)
    requires forall h :: h in ours ==> IsOurs(h)
    ensures Items(WithOurs(es, ours)) == Items(es)
  {
    OurWrapperVanishes(es, ours);
    CleaningKeepsItems(WithOurs(es, ours));
    CleaningKeepsItems(es);
  }

  // ---- Install and uninstall, event by event ----

  lemma NothingToClean()
    ensures Clean([]) == []
  {
  }

  lemma InstallReplacesAt(v: Option<Value>, ours: seq<Hook>, newer: seq<Hook>)
    requires forall h :: h in ours ==> IsOurs(h)
    ensures InstalledValue(InstalledValue(v, ours), newer) == InstalledValue(v, newer)
  {
    hide IsOurs, Clean, Untouched;
    var es := Listed(v);
    CleanIsIdentityIff(es);
    OurWrapperVanishes(Clean(es), ours);
    NothingToClean();
  }

  /** Installing again, also with another plan, replaces what is ours and nothing
      else: the same plan twice is the same as once. */
  lemma InstallReplaces(s: Section, p: Plan, q: Plan)
    ensures Install(Install(s, p), q) == Install(s, q)
  {
    hide IsOurs, InstalledValue, OursFor, Install;
    forall event ensures Lookup(Install(Install(s, p), q), event) == Lookup(Install(s, q), event) {
      WhatWeInstallIsOurs(p, event);
      InstallReplacesAt(Lookup(s, event), OursFor(p, event), OursFor(q, event));
    }
    SameLookups(Install(Install(s, p), q), Install(s, q));
  }

  lemma UsersItemsStay(v: Option<Value>, ours: seq<Hook>)
    requires forall h :: h in ours ==> IsOurs(h)
    ensures Items(Listed(InstalledValue(v, ours))) == Items(Listed(v))
    ensures Items(Listed(UninstalledValue(v))) == Items(Listed(v))
  {
    hide IsOurs, Clean, Items;
    var es := Listed(v);
    CleaningKeepsItems(es);
    OurHooksAreNoItems(Clean(es), ours);
    NothingToClean();
  }

  /** Installing puts all of our hooks for an event into one wrapper at the end,
      and what precedes it holds none of them. */
  lemma OursAreInstalled(s: Section, p: Plan, event: string)
    requires event in OUR_EVENTS
    ensures var es := Listed(Lookup(Install(s, p), event));
      if OursFor(p, event) == [] then Untouched(es)
      else es != [] && es[|es| - 1] == Wrapper(OursFor(p, event), "") && Untouched(es[..|es| - 1])
  {
    CleanLeavesUntouched(Listed(Lookup(s, event)));
    hide IsOurs, Clean, OursFor, Untouched;
    var es, kept := Listed(Lookup(Install(s, p), event)), Clean(Listed(Lookup(s, event)));
    assert es == WithOurs(kept, OursFor(p, event));
    assert OursFor(p, event) != [] ==> es[..|es| - 1] == kept;
  }

  /** Nothing of the user's under any event is lost, changed or reordered. */
  lemma UsersHooksStay(s: Section, p: Plan, event: string)
    ensures Items(Listed(Lookup(Install(s, p), event))) == Items(Listed(Lookup(s, event)))
    ensures Items(Listed(Lookup(Uninstall(s), event))) == Items(Listed(Lookup(s, event)))
  {
    WhatWeInstallIsOurs(p, event);
    UsersItemsStay(Lookup(s, event), OursFor(p, event));
    hide IsOurs, OursFor, InstalledValue, UninstalledValue;
  }

  lemma {:induction false} HookItemOccurs(rest: string, hooks: seq<Hook>, h: Hook)
    ensures UserHook(rest, h) in HookItems(rest, hooks) <==> h in hooks && !Marked(h)
  {
    hide Marked;
    if hooks != [] {
      HookItemOccurs(rest, hooks[..|hooks| - 1], h);
      assert hooks == hooks[..|hooks| - 1] + [hooks[|hooks| - 1]];
    }
  }

  lemma {:induction false} HookItemsAreOfOneWrapper(rest: string, hooks: seq<Hook>)
    ensures forall x :: x in HookItems(rest, hooks) ==> x.UserHook? && x.rest == rest
  {
    hide Marked;
    if hooks != [] {
      HookItemsAreOfOneWrapper(rest, hooks[..|hooks| - 1]);
    }
  }

  lemma {:induction false} ItemOccurs(es: seq<Entry>, rest: string, h: Hook)
    ensures UserHook(rest, h) in Items(es) <==>
      !Marked(h) && exists i :: 0 <= i < |es| && es[i].Wrapper? && es[i].rest == rest && h in es[i].hooks
  {
    hide Marked;
    if es != [] {
      var init, e := es[..|es| - 1], es[|es| - 1];
      ItemOccurs(init, rest, h);
      assert forall i :: 0 <= i < |init| ==> init[i] == es[i];
      if e.Wrapper? {
        HookItemOccurs(e.rest, e.hooks, h);
        HookItemsAreOfOneWrapper(e.rest, e.hooks);
      }
      hide HookItems;
    }
  }

  /** Some wrapper of this event that says `rest` holds this hook. */
  ghost predicate Holds(s: Section, event: string, rest: string, h: Hook) {
    event in s && s[event].Entries? &&
    exists i :: 0 <= i < |s[event].entries| && s[event].entries[i].Wrapper? && s[event].entries[i].rest == rest
                && h in s[event].entries[i].hooks
  }

  /** Hook by hook: one without either mark stays in its wrapper, through install
      and uninstall, and none appears that was not there. */
  lemma UnmarkedHooksStay(s: Section, p: Plan, event: string, rest: string, h: Hook)
    requires !Marked(h)
    ensures Holds(Install(s, p), event, rest, h) <==> Holds(s, event, rest, h)
    ensures Holds(Uninstall(s), event, rest, h) <==> Holds(s, event, rest, h)
  {
    UsersHooksStay(s, p, event);
    ItemOccurs(Listed(Lookup(s, event)), rest, h);
    ItemOccurs(Listed(Lookup(Install(s, p), event)), rest, h);
    ItemOccurs(Listed(Lookup(Uninstall(s), event)), rest, h);
    hide Marked, Install, Uninstall, Items;
  }

  /** One with a mark is gone after uninstalling, and after installing it is one
      of those just installed, if it is under an event of ours. */
  lemma MarkedHooksGo(s: Section, p: Plan, event: string, rest: string, h: Hook)
    requires Marked(h)
    ensures !Holds(Uninstall(s), event, rest, h)
    ensures event in OUR_EVENTS ==> (Holds(Install(s, p), event, rest, h) <==> rest == "" && h in OursFor(p, event))
  {
    UninstallLeavesNoneOfOurs(s, event);
    if event in OUR_EVENTS {
      OursAreInstalled(s, p, event);
    }
    hide Marked, Install, Uninstall, OursFor;
  }

  /** What each event gets: the signal of its kind, the guard before a tool is
      used, and the rewake hook, while it is wanted, at the start and at a stop. */
  lemma WhatEachEventGets(p: Plan, event: string)
    ensures var rewake := if p.rewakeWanted then [MarkedHook("rewake", p.rewake)] else [];
      OursFor(p, event) ==
        if event == "PreToolUse" then [MarkedHook("pre_tool_use", Script(p, event)), GuardHook(p.guard)]
        else if event == "Stop" then [MarkedHook("stop", Script(p, event))] + rewake
        else if event == "Notification" then [MarkedHook("notification", Script(p, event))]
        else if event == "SubagentStop" then [MarkedHook("subagent_stop", Script(p, event))]
        else if event == "SessionStart" then rewake
        else []
    ensures OursFor(p, event) != [] ==> event in OUR_EVENTS
  {
    hide MarkedHook, GuardHook, Script;
    assert OUR_EVENTS[0] == "PreToolUse" && OUR_EVENTS[1] == "Stop" && OUR_EVENTS[2] == "Notification";
    assert OUR_EVENTS[3] == "SubagentStop" && OUR_EVENTS[4] == "SessionStart";
  }

  lemma MarkedHookText(kind: string, script: string)
    ensures MarkedHook(kind, script).command == "# agent-team-hook kind=" + kind + "\n" + script
  {
    var text := kind + ("\n" + script);
    assert " kind=" + kind + "\n" + script == " kind=" + text;
    assert "# agent-team-hook" + (" kind=" + text) == "# agent-team-hook kind=" + text;
    assert "# agent-team-hook kind=" + kind + "\n" + script == "# agent-team-hook kind=" + text;
  }

  /** After uninstalling nothing of ours is left. */
  lemma UninstallLeavesNoneOfOurs(s: Section, event: string)
    ensures Untouched(Listed(Lookup(Uninstall(s), event)))
  {
    var es := Listed(Lookup(s, event));
    CleanIsIdentityIff(es);
    CleanIsIdentityIff(Clean(es));
    hide IsOurs, Clean;
  }

  /** A value both commands give back. */
  ghost predicate Restorable(v: Value, event: string) {
    match v
    case Entries(es) => Untouched(es) && (event in OUR_EVENTS ==> es != [])
    case NotAList(_) => event !in OUR_EVENTS
  }

  lemma RoundTripOfValue(v: Option<Value>, ours: seq<Hook>)
    requires forall h :: h in ours ==> IsOurs(h)
    ensures UninstalledValue(InstalledValue(v, ours)) == v <==>
      (v.Some? ==> v.value.Entries? && Untouched(v.value.entries) && v.value.entries != [])
    ensures UninstalledValue(v) == v <==> (v.Some? && v.value.Entries? ==> Untouched(v.value.entries))
  {
    hide IsOurs, Clean, Untouched;
    var es := Listed(v);
    CleanIsIdentityIff(es);
    OurWrapperVanishes(Clean(es), ours);
    NothingToClean();
  }

  lemma RoundTripAt(s: Section, p: Plan, event: string)
    ensures Lookup(Uninstall(Install(s, p)), event) == Lookup(s, event) <==>
      (event in s ==> Restorable(s[event], event))
  {
    WhatWeInstallIsOurs(p, event);
    RoundTripOfValue(Lookup(s, event), OursFor(p, event));
    hide IsOurs, OursFor, InstalledValue, UninstalledValue, Untouched;
  }

  /** Uninstalling after installing gives back the user's section exactly when
      our events held non-empty lists and no list held hooks of ours or empty
      wrappers. */
  lemma RoundTripIff(s: Section, p: Plan)
    ensures Uninstall(Install(s, p)) == s <==> forall event :: event in s ==> Restorable(s[event], event)
  {
    hide Install, Uninstall, Restorable, InstalledValue, UninstalledValue, OursFor;
    forall event
      ensures Lookup(Uninstall(Install(s, p)), event) == Lookup(s, event) <==>
        (event in s ==> Restorable(s[event], event))
    {
      RoundTripAt(s, p, event);
    }
    SameLookups(Uninstall(Install(s, p)), s);
  }

  lemma SameLookups(a: Section, b: Section)
    ensures a == b <==> forall event :: Lookup(a, event) == Lookup(b, event)
  {
    if forall event :: Lookup(a, event) == Lookup(b, event) {
      assert forall event :: event in a <==> Lookup(a, event).Some?;
      assert forall event :: event in b <==> Lookup(b, event).Some?;
      assert forall event :: event in a ==> Lookup(a, event) == Some(a[event]);
      assert a == b;
    }
  }
}
