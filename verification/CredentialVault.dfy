/** Account switching: one live store, one cold slot per account, and writes
    that may fail. */
module CredentialVault {
  import opened Wrappers
  import opened VaultStores

  /** How an operation that writes once can raise: before the write takes
      effect, or after it (a companion file, claude's display-only account). */
  datatype Fault = NoFault | BeforeWrite | AfterWrite

  datatype Snapshot = Snapshot(secret: Option<Secret>, scope: string)

  datatype State = State(
    live: Option<Document>,
    slots: map<string, Document>,
    snapshots: map<string, Snapshot>)

  ghost predicate Valid(vendor: Vendor, s: State) {
    && Fits(vendor, s.live)
    && forall id :: id in s.slots ==> Fits(vendor, Some(s.slots[id]))
  }

  function SetSlot(s: State, id: string, doc: Option<Document>): State {
    s.(slots := if doc.Some? then s.slots[id := doc.value] else s.slots - {id})
  }

  function ReadLive(vendor: Vendor, s: State, scope: string): Option<Secret> {
    Get(vendor, s.live, scope)
  }

  function ReadSlot(vendor: Vendor, s: State, id: string, scope: string): Option<Secret> {
    Get(vendor, Lookup(s.slots, id), scope)
  }

  function WriteLive(vendor: Vendor, s: State, scope: string, secret: Option<Secret>, fault: Fault): (State, bool) {
    var put := Put(vendor, s.live, scope, secret);
    if put.None? || fault == BeforeWrite then (s, false)
    else (s.(live := put.value), fault == NoFault)
  }

  /** The one place a slot is written: a wiped claude credential is not stored. */
  function WriteSlot(vendor: Vendor, s: State, id: string, scope: string, secret: Option<Secret>, fault: Fault)
    : (State, bool)
  {
    var put := Put(vendor, Lookup(s.slots, id), scope, secret);
    if put.None? || fault == BeforeWrite then (s, false)
    else (if Wiped(vendor, secret) then s else SetSlot(s, id, put.value), fault == NoFault)
  }

  // ---- switch ----

  /** What can go wrong during one switch. */
  datatype Faults = Faults(strictRead: bool, capture: Fault, restore: Fault, rollback: Fault)

  datatype Outcome = Switched | NotCaptured | RolledBack | Stranded

  function Switch(vendor: Vendor, s: State, fromId: string, toId: string, scope: string, faults: Faults)
    : (State, Outcome)
  {
    if faults.strictRead then (s, NotCaptured) else
      var outgoing := ReadLive(vendor, s, scope);
      var (captured, kept) := WriteSlot(vendor, s, fromId, scope, outgoing, faults.capture);
      if !kept then (captured, NotCaptured) else
        var incoming := ReadSlot(vendor, captured, toId, scope);
        var (restored, live) := WriteLive(vendor, captured, scope, incoming, faults.restore);
        if live then (restored, Switched) else
          var (back, rolledBack) := WriteLive(vendor, restored, scope, outgoing, faults.rollback);
          (back, if rolledBack then RolledBack else Stranded)
  }

  /** Slots other than `id`, and in a shared document every provider other than
      `scope`, read the same in both states. */
  ghost predicate OthersUnchanged(vendor: Vendor, before: State, after: State, id: string, scope: string) {
    && after.snapshots == before.snapshots
    && (forall other :: other != id ==> Lookup(after.slots, other) == Lookup(before.slots, other))
    && (vendor.PerProvider? ==> forall p :: p != scope ==>
          && ReadLive(vendor, after, p) == ReadLive(vendor, before, p)
          && ReadSlot(vendor, after, id, p) == ReadSlot(vendor, before, id, p))
  }

  lemma WriteLiveEffect(vendor: Vendor, s: State, scope: string, secret: Option<Secret>, fault: Fault)
    requires Valid(vendor, s)
    ensures var (t, ok) := WriteLive(vendor, s, scope, secret, fault);
      && Valid(vendor, t) && t.slots == s.slots && t.snapshots == s.snapshots
      && (ok ==> ReadLive(vendor, t, scope) == secret)
      && (!ok ==> t == s || ReadLive(vendor, t, scope) == secret)
      && (vendor.PerProvider? ==> forall p :: p != scope ==> ReadLive(vendor, t, p) == ReadLive(vendor, s, p))
  {
  }

  lemma WriteSlotEffect(vendor: Vendor, s: State, id: string, scope: string, secret: Option<Secret>, fault: Fault)
    requires Valid(vendor, s)
    ensures var (t, ok) := WriteSlot(vendor, s, id, scope, secret, fault);
      && Valid(vendor, t) && t.live == s.live && OthersUnchanged(vendor, s, t, id, scope)
      && (ok ==>
            ReadSlot(vendor, t, id, scope) == if Wiped(vendor, secret) then ReadSlot(vendor, s, id, scope) else secret)
      && (!ok ==> t == s || ReadSlot(vendor, t, id, scope) == secret)
  {
  }

  /** What one switch leaves behind, however it ends. */
  lemma SwitchIsExact(vendor: Vendor, s: State, fromId: string, toId: string, scope: string, faults: Faults)
    requires Valid(vendor, s)
    ensures var (t, outcome) := Switch(vendor, s, fromId, toId, scope, faults);
      var outgoing := ReadLive(vendor, s, scope);
      var parked := if Wiped(vendor, outgoing) then ReadSlot(vendor, s, fromId, scope) else outgoing;
      && Valid(vendor, t)
      && OthersUnchanged(vendor, s, t, fromId, scope)
      && (outcome == Switched ==>
            && ReadSlot(vendor, t, fromId, scope) == parked
            && ReadLive(vendor, t, scope) == if fromId == toId then parked else ReadSlot(vendor, s, toId, scope))
      && (outcome == NotCaptured ==>
            && t.live == s.live
            && (t == s || ReadSlot(vendor, t, fromId, scope) == outgoing))
      && (outcome == RolledBack ==>
            && ReadSlot(vendor, t, fromId, scope) == parked
            && ReadLive(vendor, t, scope) == outgoing)
      && (outcome == Stranded ==>
            && ReadSlot(vendor, t, fromId, scope) == parked
            && (ReadLive(vendor, t, scope) == outgoing
                || ReadLive(vendor, t, scope) == if fromId == toId then parked else ReadSlot(vendor, s, toId, scope)))
  {
    if !faults.strictRead {
      var outgoing := ReadLive(vendor, s, scope);
      var captured := WriteSlot(vendor, s, fromId, scope, outgoing, faults.capture).0;
      WriteSlotEffect(vendor, s, fromId, scope, outgoing, faults.capture);
      var incoming := ReadSlot(vendor, captured, toId, scope);
      var restored := WriteLive(vendor, captured, scope, incoming, faults.restore).0;
      WriteLiveEffect(vendor, captured, scope, incoming, faults.restore);
      WriteLiveEffect(vendor, restored, scope, outgoing, faults.rollback);
    }
  }

  /** Once the outgoing login is captured it is in its account's slot, unless it
      is a claude login that holds neither token: then the slot keeps its own. */
  lemma SwitchParksEveryToken(vendor: Vendor, s: State, fromId: string, toId: string, scope: string, faults: Faults)
    requires Valid(vendor, s)
    ensures var (t, outcome) := Switch(vendor, s, fromId, toId, scope, faults);
      var parked := ReadSlot(vendor, t, fromId, scope);
      outcome != NotCaptured ==>
        match ReadLive(vendor, s, scope)
        case Some(Oauth(access, refresh, _)) =>
          if vendor == Claude && access == "" && refresh == "" then parked == ReadSlot(vendor, s, fromId, scope)
          else parked == ReadLive(vendor, s, scope)
        case login => parked == login
  {
    SwitchIsExact(vendor, s, fromId, toId, scope, faults);
    hide Switch, ReadSlot, ReadLive, OthersUnchanged, Valid;
  }

  /** A switch there and back, with nothing written in between, is the identity
      on both accounts, unless the outgoing claude credential was wiped. */
  lemma SwitchThereAndBack(vendor: Vendor, s: State, a: string, b: string, scope: string)
    requires Valid(vendor, s) && a != b
    requires !Wiped(vendor, ReadLive(vendor, s, scope)) && !Wiped(vendor, ReadSlot(vendor, s, b, scope))
    ensures var fine := Faults(false, NoFault, NoFault, NoFault);
      var (there, o1) := Switch(vendor, s, a, b, scope, fine);
      var (back, o2) := Switch(vendor, there, b, a, scope, fine);
      o1 == Switched && o2 == Switched ==>
        && ReadLive(vendor, back, scope) == ReadLive(vendor, s, scope)
        && ReadSlot(vendor, back, b, scope) == ReadSlot(vendor, s, b, scope)
        && ReadSlot(vendor, back, a, scope) == ReadLive(vendor, s, scope)
  {
    var fine := Faults(false, NoFault, NoFault, NoFault);
    SwitchIsExact(vendor, s, a, b, scope, fine);
    SwitchIsExact(vendor, Switch(vendor, s, a, b, scope, fine).0, b, a, scope, fine);
  }

  /** A per-provider document that does not parse. */
  predicate Malformed(vendor: Vendor, doc: Option<Document>) {
    vendor.PerProvider? && doc.Some? && doc.value.Broken?
  }

  /** Without faults a switch goes through exactly when neither shared document
      it rewrites is malformed; otherwise nothing moves into the live store. */
  lemma SwitchGoesThrough(vendor: Vendor, s: State, fromId: string, toId: string, scope: string)
    requires Valid(vendor, s)
    ensures var (t, outcome) := Switch(vendor, s, fromId, toId, scope, Faults(false, NoFault, NoFault, NoFault));
      && (outcome == Switched <==> !Malformed(vendor, s.live) && !Malformed(vendor, Lookup(s.slots, fromId)))
      && (outcome != Switched ==> t.live == s.live)
  {
  }

  /** Capture cannot tell a malformed shared document from a sign-out. Without
      faults, a switch that does not go through changes the account's parked
      copy exactly when the live document is malformed, the slot's is not, and
      there is a parked copy; it is then erased. */
  lemma MalformedLiveErasesParkedCopy(vendor: Vendor, s: State, fromId: string, toId: string, scope: string)
    requires Valid(vendor, s)
    ensures var (t, outcome) := Switch(vendor, s, fromId, toId, scope, Faults(false, NoFault, NoFault, NoFault));
      && (outcome != Switched && ReadSlot(vendor, t, fromId, scope) != ReadSlot(vendor, s, fromId, scope) <==>
            && Malformed(vendor, s.live) && !Malformed(vendor, Lookup(s.slots, fromId))
            && ReadSlot(vendor, s, fromId, scope).Some?)
      && (Malformed(vendor, s.live) && !Malformed(vendor, Lookup(s.slots, fromId)) ==>
            outcome == Stranded && t.live == s.live && ReadSlot(vendor, t, fromId, scope) == None)
  {
  }

  /** `x` can be read from the live store or from some slot. */
  ghost predicate Held(vendor: Vendor, s: State, scope: string, x: Secret) {
    ReadLive(vendor, s, scope) == Some(x) || exists id :: ReadSlot(vendor, s, id, scope) == Some(x)
  }

  /** Whatever fails, and wherever the process dies (a crash leaves the state of
      some pair of failing writes), no credential is lost but the outgoing
      account's own old copy, which what the live store reads as replaces. */
  lemma SwitchLosesNothing(vendor: Vendor, s: State, fromId: string, toId: string, scope: string, faults: Faults,
                           x: Secret)
    requires Valid(vendor, s) && fromId != toId
    requires (ReadLive(vendor, s, scope) == Some(x) && !Wiped(vendor, Some(x)))
          || (exists id :: id != fromId && ReadSlot(vendor, s, id, scope) == Some(x))
    ensures Held(vendor, Switch(vendor, s, fromId, toId, scope, faults).0, scope, x)
  {
    var t := Switch(vendor, s, fromId, toId, scope, faults).0;
    SwitchIsExact(vendor, s, fromId, toId, scope, faults);
    if id :| id != fromId && ReadSlot(vendor, s, id, scope) == Some(x) {
      assert Lookup(t.slots, id) == Lookup(s.slots, id);
      assert ReadSlot(vendor, t, id, scope) == Some(x);
    } else {
      assert ReadLive(vendor, t, scope) == Some(x) || ReadSlot(vendor, t, fromId, scope) == Some(x);
    }
  }

  // ---- harvest ----

  /** Fills an empty slot from the live store; never overwrites a credential. */
  function Harvest(vendor: Vendor, s: State, id: string, scope: string, fault: Fault): (State, bool) {
    var live := ReadLive(vendor, s, scope);
    if ReadSlot(vendor, s, id, scope).Some? || live.None? || Wiped(vendor, live) then (s, false)
    else WriteSlot(vendor, s, id, scope, live, fault)
  }

  /** A harvest never replaces a credential. It reports one exactly when nothing
      failed, the slot was empty, its document parses, and a login with a token
      was live; the slot then holds that login. */
  lemma HarvestIsExact(vendor: Vendor, s: State, id: string, scope: string, fault: Fault)
    requires Valid(vendor, s)
    ensures var (t, filled) := Harvest(vendor, s, id, scope, fault);
      && Valid(vendor, t) && t.live == s.live && OthersUnchanged(vendor, s, t, id, scope)
      && (ReadSlot(vendor, s, id, scope).Some? ==> t == s && !filled)
      && (filled <==> fault == NoFault && ReadSlot(vendor, s, id, scope).None? && ReadLive(vendor, s, scope).Some?
                      && !Wiped(vendor, ReadLive(vendor, s, scope)) && !Malformed(vendor, Lookup(s.slots, id)))
      && (filled ==> ReadSlot(vendor, t, id, scope) == ReadLive(vendor, s, scope))
      && (!filled ==> t == s || ReadSlot(vendor, t, id, scope) == ReadLive(vendor, s, scope))
  {
  }

  // ---- Whole runs ----

  datatype Event =
    | SwitchTo(fromId: string, toId: string, scope: string, faults: Faults)
    | Capture(id: string, scope: string, readFails: bool, fault: Fault)
    | Restore(id: string, scope: string, fault: Fault)
    | Fill(id: string, scope: string, fault: Fault)
    | CliWrites(doc: Option<Document>)
    | DeleteSlot(id: string)

  function Step(vendor: Vendor, s: State, e: Event): State {
    match e
    case SwitchTo(fromId, toId, scope, faults) => Switch(vendor, s, fromId, toId, scope, faults).0
    case Capture(id, scope, readFails, fault) =>
      if readFails then s else WriteSlot(vendor, s, id, scope, ReadLive(vendor, s, scope), fault).0
    case Restore(id, scope, fault) => WriteLive(vendor, s, scope, ReadSlot(vendor, s, id, scope), fault).0
    case Fill(id, scope, fault) => Harvest(vendor, s, id, scope, fault).0
    case CliWrites(doc) => s.(live := doc)
    case DeleteSlot(id) => s.(slots := s.slots - {id})
  }

  function Run(vendor: Vendor, s: State, events: seq<Event>): State {
    if events == [] then s else Step(vendor, Run(vendor, s, events[..|events| - 1]), events[|events| - 1])
  }

  ghost predicate NoWipedSlot(vendor: Vendor, s: State) {
    forall id, scope :: !Wiped(vendor, ReadSlot(vendor, s, id, scope))
  }

  lemma WriteSlotNeverWiped(vendor: Vendor, s: State, id: string, scope: string, secret: Option<Secret>, fault: Fault)
    requires NoWipedSlot(vendor, s)
    ensures NoWipedSlot(vendor, WriteSlot(vendor, s, id, scope, secret, fault).0)
  {
    var t := WriteSlot(vendor, s, id, scope, secret, fault).0;
    forall other, p ensures !Wiped(vendor, ReadSlot(vendor, t, other, p)) {
      assert !Wiped(vendor, ReadSlot(vendor, s, other, p));
      assert other != id ==> Lookup(t.slots, other) == Lookup(s.slots, other);
    }
  }

  /** Whatever the CLI writes into the live store and whatever fails, no claude
      slot ever comes to hold a wiped credential. */
  lemma {:induction false} RunNeverStoresWiped(vendor: Vendor, s: State, events: seq<Event>)
    requires NoWipedSlot(vendor, s)
    ensures NoWipedSlot(vendor, Run(vendor, s, events))
  {
    if events != [] {
      var before, e := Run(vendor, s, events[..|events| - 1]), events[|events| - 1];
      RunNeverStoresWiped(vendor, s, events[..|events| - 1]);
      match e
      case SwitchTo(fromId, toId, scope, faults) =>
        WriteSlotNeverWiped(vendor, before, fromId, scope, ReadLive(vendor, before, scope), faults.capture);
        var t := Step(vendor, before, e);
        SwitchSlots(vendor, before, fromId, toId, scope, faults);
        var written := WriteSlot(vendor, before, fromId, scope, ReadLive(vendor, before, scope), faults.capture).0;
        NoNewSlots(vendor, if t.slots == before.slots then before else written, t);
      case Capture(id, scope, readFails, fault) =>
        WriteSlotNeverWiped(vendor, before, id, scope, ReadLive(vendor, before, scope), fault);
      case Restore(id, scope, fault) =>
        NoNewSlots(vendor, before, Step(vendor, before, e));
      case Fill(id, scope, fault) =>
        WriteSlotNeverWiped(vendor, before, id, scope, ReadLive(vendor, before, scope), fault);
      case CliWrites(doc) =>
        NoNewSlots(vendor, before, Step(vendor, before, e));
      case DeleteSlot(id) =>
        NoNewSlots(vendor, before, Step(vendor, before, e));
    }
  }

  lemma SwitchSlots(vendor: Vendor, s: State, fromId: string, toId: string, scope: string, faults: Faults)
    ensures var t := Switch(vendor, s, fromId, toId, scope, faults).0;
      var captured := WriteSlot(vendor, s, fromId, scope, ReadLive(vendor, s, scope), faults.capture).0;
      t.slots == s.slots || t.slots == captured.slots
  {
  }

  lemma NoNewSlots(vendor: Vendor, s: State, t: State)
    requires NoWipedSlot(vendor, s)
    requires forall id :: id in t.slots ==> id in s.slots && t.slots[id] == s.slots[id]
    ensures NoWipedSlot(vendor, t)
  {
    forall other, p ensures !Wiped(vendor, ReadSlot(vendor, t, other, p)) {
      assert !Wiped(vendor, ReadSlot(vendor, s, other, p));
    }
  }

  // ---- Every account keeps its login ----

  /** The stores, the account that is active, and the login each account last had
      while it was. */
  datatype Desk = Desk(s: State, active: string, logins: string -> Option<Secret>)

  /** The user switches to an account, or the CLI leaves a document of its own. */
  datatype Move = GoTo(id: string, faults: Faults) | SignsIn(doc: Option<Document>)

  function Moved(vendor: Vendor, scope: string, d: Desk, m: Move): Desk {
    match m
    case GoTo(id, faults) =>
      var (t, outcome) := Switch(vendor, d.s, d.active, id, scope, faults);
      Desk(t, if outcome == Switched then id else d.active, d.logins)
    case SignsIn(doc) =>
      Desk(d.s.(live := doc), d.active, id => if id == d.active then Get(vendor, doc, scope) else d.logins(id))
  }

  /** The active account's login is live, every other's in its slot, none wiped. */
  ghost predicate Intact(vendor: Vendor, scope: string, d: Desk) {
    && Valid(vendor, d.s) && !Malformed(vendor, d.s.live)
    && ReadLive(vendor, d.s, scope) == d.logins(d.active)
    && (forall id :: id != d.active ==> ReadSlot(vendor, d.s, id, scope) == d.logins(id))
    && forall id :: !Wiped(vendor, d.logins(id))
  }

  /** What a CLI may leave: a document that parses and carries no wiped login. */
  predicate Proper(vendor: Vendor, scope: string, m: Move) {
    m.SignsIn? ==> Fits(vendor, m.doc) && !Malformed(vendor, m.doc) && !Wiped(vendor, Get(vendor, m.doc, scope))
  }

  /** The switch strands another account's login in the live store: the capture
      went through, the restore failed after its write and the rollback before. */
  predicate Strands(vendor: Vendor, d: Desk, m: Move) {
    && m.GoTo? && !m.faults.strictRead && m.faults.capture == NoFault
    && !Malformed(vendor, Lookup(d.s.slots, d.active))
    && m.faults.restore == AfterWrite && m.faults.rollback == BeforeWrite
    && d.logins(m.id) != d.logins(d.active)
  }

  /** What a failed switch leaves live, and that it keeps a parsing document parsing. */
  lemma LiveAfterSwitch(vendor: Vendor, s: State, fromId: string, toId: string, scope: string, faults: Faults)
    requires Valid(vendor, s) && !Malformed(vendor, s.live) && !Wiped(vendor, ReadLive(vendor, s, scope))
    ensures var (t, outcome) := Switch(vendor, s, fromId, toId, scope, faults);
      var strands := !faults.strictRead && faults.capture == NoFault && !Malformed(vendor, Lookup(s.slots, fromId))
        && faults.restore == AfterWrite && faults.rollback == BeforeWrite;
      var left := if strands && fromId != toId then ReadSlot(vendor, s, toId, scope) else ReadLive(vendor, s, scope);
      && !Malformed(vendor, t.live)
      && (strands ==> outcome == Stranded)
      && (outcome != Switched ==> ReadLive(vendor, t, scope) == left)
  {
    if !faults.strictRead {
      var outgoing := ReadLive(vendor, s, scope);
      var captured := WriteSlot(vendor, s, fromId, scope, outgoing, faults.capture).0;
      WriteSlotEffect(vendor, s, fromId, scope, outgoing, faults.capture);
      PutLaws(vendor, Lookup(s.slots, fromId), scope, outgoing, scope, None);
      var incoming := ReadSlot(vendor, captured, toId, scope);
      PutLaws(vendor, s.live, scope, incoming, scope, None);
      var restored := WriteLive(vendor, captured, scope, incoming, faults.restore).0;
      PutLaws(vendor, restored.live, scope, outgoing, scope, None);
      hide Get, Wiped;
    }
  }

  lemma SwitchKeepsLogins(vendor: Vendor, scope: string, d: Desk, id: string, faults: Faults)
    requires Intact(vendor, scope, d)
    ensures Intact(vendor, scope, Moved(vendor, scope, d, GoTo(id, faults))) <==> !Strands(vendor, d, GoTo(id, faults))
  {
    assert !Wiped(vendor, d.logins(d.active)) && !Wiped(vendor, d.logins(id));
    SwitchIsExact(vendor, d.s, d.active, id, scope, faults);
    LiveAfterSwitch(vendor, d.s, d.active, id, scope, faults);
    SlotsStay(vendor, d.s, Switch(vendor, d.s, d.active, id, scope, faults).0, d.active, scope);
    hide Switch, ReadSlot, ReadLive, Malformed, Wiped, OthersUnchanged, Valid;
  }

  lemma SlotsStay(vendor: Vendor, s: State, t: State, id: string, scope: string)
    requires OthersUnchanged(vendor, s, t, id, scope)
    ensures forall other :: other != id ==> ReadSlot(vendor, t, other, scope) == ReadSlot(vendor, s, other, scope)
  {
    forall other | other != id ensures ReadSlot(vendor, t, other, scope) == ReadSlot(vendor, s, other, scope) {
      assert Lookup(t.slots, other) == Lookup(s.slots, other);
    }
  }

  /** One move keeps every account's login in its place exactly when it does not
      strand one. */
  lemma MoveKeepsLogins(vendor: Vendor, scope: string, d: Desk, m: Move)
    requires Intact(vendor, scope, d) && Proper(vendor, scope, m)
    ensures Intact(vendor, scope, Moved(vendor, scope, d, m)) <==> !Strands(vendor, d, m)
  {
    match m
    case GoTo(id, faults) => SwitchKeepsLogins(vendor, scope, d, id, faults);
    case SignsIn(doc) =>
  }

  function Moves(vendor: Vendor, scope: string, d: Desk, ms: seq<Move>): Desk {
    if ms == [] then d else Moved(vendor, scope, Moves(vendor, scope, d, ms[..|ms| - 1]), ms[|ms| - 1])
  }

  /** Over any run of switches and sign-ins, with any failures of which none
      strands a login, each account keeps the login it last had while active:
      live for the active one, in its slot for every other. */
  lemma {:induction false} EveryAccountKeepsItsLogin(vendor: Vendor, scope: string, d: Desk, ms: seq<Move>)
    requires Intact(vendor, scope, d)
    requires forall i :: 0 <= i < |ms| ==>
      Proper(vendor, scope, ms[i]) && !Strands(vendor, Moves(vendor, scope, d, ms[..i]), ms[i])
    ensures Intact(vendor, scope, Moves(vendor, scope, d, ms))
  {
    if ms != [] {
      var init := ms[..|ms| - 1];
      assert forall i :: 0 <= i < |init| ==> init[..i] == ms[..i];
      EveryAccountKeepsItsLogin(vendor, scope, d, init);
      MoveKeepsLogins(vendor, scope, Moves(vendor, scope, d, init), ms[|ms| - 1]);
    }
  }
}
