/** Installing into and uninstalling from the settings file itself. */
module ClaudeHooks {
  import opened Wrappers
  import opened HookSettings

  datatype HooksValue = Missing | NotASection(text: string) | Hooks(section: Section)

  /** `Unreadable` is a file that is not a JSON object. */
  datatype File = Absent | Unreadable(text: string) | Settings(hooks: HooksValue, rest: string)

  function SectionOf(h: HooksValue): Section { if h.Hooks? then h.section else map[] }

  function HookText(h: Hook): string
    requires h.Hook?
  {
    h.command + if h.args.Some? then Joined(h.args.value) else ""
  }

  function Joined(args: seq<string>): string {
    if args == [] then "" else Joined(args[..|args| - 1]) + " " + args[|args| - 1]
  }

  predicate IsProductionHook(h: Hook) { h.Hook? && IsOurs(h) && !ContainsText(HookText(h), "-dev") }

  predicate HasProductionHook(es: seq<Entry>) {
    exists i :: 0 <= i < |es| && es[i].Wrapper? && exists h :: h in es[i].hooks && IsProductionHook(h)
  }

  /** A development backend leaves a production install alone. */
  predicate Skips(s: Section, p: Plan) {
    ContainsText(p.portFile, "-dev") && exists event :: event in s && HasProductionHook(Listed(Some(s[event])))
  }

  function InstallFile(f: File, p: Plan, writes: bool): File {
    if !writes || f.Unreadable? || (f.Settings? && Skips(SectionOf(f.hooks), p)) then f
    else if f.Absent? then Settings(Hooks(Install(map[], p)), "{}")
    else f.(hooks := Hooks(Install(SectionOf(f.hooks), p)))
  }

  function UninstallFile(f: File, writes: bool): File {
    if writes && f.Settings? && f.hooks.Hooks? then f.(hooks := Hooks(Uninstall(f.hooks.section))) else f
  }

  lemma SkippedIsNotRestorable(s: Section, p: Plan)
    requires Skips(s, p)
    ensures exists event :: event in s && s[event].Entries? && !Untouched(s[event].entries)
  {
    var event :| event in s && HasProductionHook(Listed(Some(s[event])));
    var es := s[event].entries;
    var i :| 0 <= i < |es| && es[i].Wrapper? && exists h :: h in es[i].hooks && IsProductionHook(h);
    var h :| h in es[i].hooks && IsProductionHook(h);
    IsOursIsMarked(h);
    assert !Untouched(es);
  }

  /** When the file is left alone: the backend is a development one and some hook
      of ours in the file speaks of no development backend. */
  lemma WhenInstallIsSkipped(s: Section, p: Plan)
    ensures Skips(s, p) <==>
      && (exists a, b :: p.portFile == a + "-dev" + b)
      && exists event, rest, h ::
          Holds(s, event, rest, h) && Marked(h) && !exists a, b :: HookText(h) == a + "-dev" + b
  {
    ContainsIsConcat(p.portFile, "-dev");
    hide ContainsText, IsOurs, HookText;
    if Skips(s, p) {
      var event :| event in s && HasProductionHook(Listed(Some(s[event])));
      var es := s[event].entries;
      var i :| 0 <= i < |es| && es[i].Wrapper? && exists h :: h in es[i].hooks && IsProductionHook(h);
      var h :| h in es[i].hooks && IsProductionHook(h);
      IsOursIsMarked(h);
      ContainsIsConcat(HookText(h), "-dev");
      assert Holds(s, event, es[i].rest, h);
    }
    forall event, rest, h |
      Holds(s, event, rest, h) && Marked(h) && !exists a, b :: HookText(h) == a + "-dev" + b
      ensures HasProductionHook(Listed(Some(s[event])))
    {
      IsOursIsMarked(h);
      ContainsIsConcat(HookText(h), "-dev");
      assert IsProductionHook(h);
    }
  }

  /** Uninstalling after installing leaves the very same file exactly when it
      could not be read at all, or held a section both commands give back. */
  lemma FileRoundTripIff(f: File, p: Plan)
    ensures UninstallFile(InstallFile(f, p, true), true) == f <==>
      f.Unreadable? || (f.Settings? && f.hooks.Hooks?
                        && forall event :: event in f.hooks.section ==> Restorable(f.hooks.section[event], event))
  {
    if f.Settings? && f.hooks.Hooks? {
      var s := f.hooks.section;
      hide Install;
      RoundTripIff(s, p);
      if Skips(s, p) {
        SkippedIsNotRestorable(s, p);
        var event :| event in s && s[event].Entries? && !Untouched(s[event].entries);
        RoundTripOfValue(Lookup(s, event), []);
        assert Lookup(Uninstall(s), event) != Lookup(s, event);
      }
    }
  }

  // ---- The loops ----

  method CleanEntries(es: seq<Entry>) returns (cleaned: seq<Entry>)
    ensures cleaned == Clean(es)
  {
    cleaned := [];
    for i := 0 to |es|
      invariant cleaned == Clean(es[..i])
    {
      assert es[..i + 1][..i] == es[..i];
      var e := es[i];
      if e.Wrapper? {
        var inner := WithoutOurs(e.hooks);
        if inner != [] {
          cleaned := cleaned + [e.(hooks := inner)];
        }
      } else {
        cleaned := cleaned + [e];
      }
    }
    assert es[..|es|] == es;
  }

  method WithoutOurs(hooks: seq<Hook>) returns (inner: seq<Hook>)
    ensures inner == NotOurs(hooks)
  {
    inner := [];
    for i := 0 to |hooks|
      invariant inner == NotOurs(hooks[..i])
    {
      assert hooks[..i + 1][..i] == hooks[..i];
      if !IsOurs(hooks[i]) {
        inner := inner + [hooks[i]];
      }
    }
    assert hooks[..|hooks|] == hooks;
  }

  method InstallSection(s: Section, p: Plan) returns (r: Section)
    ensures r == Install(s, p)
  {
    hide Clean, IsOurs, OursFor;
    r := s;
    for i := 0 to |OUR_EVENTS|
      invariant forall event ::
        Lookup(r, event) == if event in OUR_EVENTS[..i] then InstalledAt(s, p, event) else Lookup(s, event)
    {
      var event := OUR_EVENTS[i];
      assert event !in OUR_EVENTS[..i] && OUR_EVENTS[..i + 1] == OUR_EVENTS[..i] + [event];
      var cleaned := CleanEntries(Listed(Lookup(r, event)));
      var ours := OursFor(p, event);
      if ours != [] {
        cleaned := cleaned + [Wrapper(ours, "")];
      }
      r := if cleaned != [] then r[event := Entries(cleaned)] else r - {event};
    }
    SameLookups(r, Install(s, p));
  }

  method UninstallSection(s: Section) returns (r: Section, changed: bool)
    ensures r == Uninstall(s) && (changed <==> r != s)
  {
    hide Clean, IsOurs;
    r, changed := s, false;
    var left := s.Keys;
    while left != {}
      invariant left <= s.Keys
      invariant forall event ::
        Lookup(r, event) == if event in left then Lookup(s, event) else UninstalledValue(Lookup(s, event))
      invariant changed <==>
        exists event :: event in s.Keys - left && UninstalledValue(Lookup(s, event)) != Lookup(s, event)
    {
      var event :| event in left;
      if s[event].Entries? {
        var cleaned := CleanEntries(s[event].entries);
        if cleaned != s[event].entries {
          changed := true;
          r := if cleaned != [] then r[event := Entries(cleaned)] else r - {event};
        }
      }
      left := left - {event};
    }
    SameLookups(r, Uninstall(s));
    SameLookups(r, s);
  }

  method InstallHooks(f: File, p: Plan, writes: bool) returns (after: File)
    ensures after == InstallFile(f, p, writes)
  {
    if f.Unreadable? {
      return f;
    }
    var s := if f.Absent? then map[] else SectionOf(f.hooks);
    if Skips(s, p) {
      return f;
    }
    s := InstallSection(s, p);
    after := if !writes then f else Settings(Hooks(s), if f.Absent? then "{}" else f.rest);
  }

  method UninstallHooks(f: File, writes: bool) returns (after: File, removed: bool)
    ensures after == UninstallFile(f, writes) && (removed <==> after != f)
  {
    if !f.Settings? || !f.hooks.Hooks? {
      return f, false;
    }
    var s, changed := UninstallSection(f.hooks.section);
    after, removed := if changed && writes then f.(hooks := Hooks(s)) else f, changed && writes;
  }
}
