/** Signing in with a CLI that cannot be isolated: the live credential is
    snapshotted, the CLI overwrites the live store, and a harvest parks the new
    login and puts the old one back. The process may die between any two writes
    and the harvest may be repeated any number of times. */
module LoginHarvest {
  import opened Wrappers
  import opened VaultStores
  import opened CredentialVault

  /** `login_spawn_env`: one atomic write of the snapshot file. */
  function BeginLogin(vendor: Vendor, s: State, id: string, scope: string): State {
    s.(snapshots := s.snapshots[id := Snapshot(ReadLive(vendor, s, scope), scope)])
  }

  /** The CLI signs in against the live store. */
  function CliSignsIn(vendor: Vendor, s: State, scope: string, latest: Secret): State {
    WriteLive(vendor, s, scope, Some(latest), NoFault).0
  }

  /** `harvest_login_home`, cut off after `steps` of its three writes: the slot,
      the live store, the snapshot's removal. True when it ran to the end. */
  function HarvestLogin(vendor: Vendor, s: State, id: string, steps: nat): (State, bool) {
    if id !in s.snapshots then (s, false) else
      var snap := s.snapshots[id];
      var live := ReadLive(vendor, s, snap.scope);
      if live.None? || live == snap.secret then (s, false) else
        var (parked, wrote) := WriteSlot(vendor, s, id, snap.scope, live, NoFault);
        if steps == 0 || !wrote then (s, false)
        else if steps == 1 then (parked, false)
        else
          var (restored, ok) := WriteLive(vendor, parked, snap.scope, snap.secret, NoFault);
          if steps == 2 || !ok then (restored, false)
          else (restored.(snapshots := restored.snapshots - {id}), true)
  }

  /** Any number of attempts, each cut off somewhere. */
  function Attempts(vendor: Vendor, s: State, id: string, cuts: seq<nat>): State {
    if cuts == [] then s
    else HarvestLogin(vendor, Attempts(vendor, s, id, cuts[..|cuts| - 1]), id, cuts[|cuts| - 1]).0
  }

  /** How far a sign-in has been harvested. */
  datatype Phase = SignedIn | Parked | Restored | Harvested

  ghost predicate InPhase(vendor: Vendor, s: State, id: string, scope: string, before: Option<Secret>,
                          latest: Secret, phase: Phase)
  {
    && Valid(vendor, s) && !vendor.Claude?
    && (phase == Harvested <==> id !in s.snapshots)
    && (id in s.snapshots ==> s.snapshots[id] == Snapshot(before, scope))
    && ReadLive(vendor, s, scope) == (if phase.SignedIn? || phase.Parked? then Some(latest) else before)
    && (phase != SignedIn ==> ReadSlot(vendor, s, id, scope) == Some(latest))
  }

  /** A credential is in the live store, the profile's slot or the snapshot. */
  ghost predicate Kept(vendor: Vendor, s: State, id: string, scope: string, x: Secret) {
    || ReadLive(vendor, s, scope) == Some(x)
    || ReadSlot(vendor, s, id, scope) == Some(x)
    || (id in s.snapshots && s.snapshots[id].secret == Some(x))
  }

  /** Other accounts, other providers and other pending sign-ins are untouched. */
  ghost predicate OnlyThisLogin(vendor: Vendor, s: State, t: State, id: string, scope: string) {
    && (forall other :: other != id ==>
          && Lookup(t.slots, other) == Lookup(s.slots, other)
          && Lookup(t.snapshots, other) == Lookup(s.snapshots, other))
    && (vendor.PerProvider? ==> forall p :: p != scope ==>
          && ReadLive(vendor, t, p) == ReadLive(vendor, s, p)
          && ReadSlot(vendor, t, id, p) == ReadSlot(vendor, s, id, p))
  }

  /** One attempt, cut anywhere, moves between phases and never backwards. It
      completes exactly when it is not cut, the live store still holds the new
      login, and the slot's document can be rewritten. */
  lemma AttemptPhase(vendor: Vendor, s: State, id: string, scope: string, before: Option<Secret>, latest: Secret,
                     phase: Phase, steps: nat) returns (next: Phase)
    requires InPhase(vendor, s, id, scope, before, latest, phase) && before != Some(latest)
    ensures var (t, done) := HarvestLogin(vendor, s, id, steps);
      && InPhase(vendor, t, id, scope, before, latest, next)
      && OnlyThisLogin(vendor, s, t, id, scope)
      && (done <==> (phase.SignedIn? || phase.Parked?) && steps >= 3 && !Malformed(vendor, Lookup(s.slots, id)))
      && (done ==> next == Harvested)
      && (phase == Restored ==> t == s && next == Restored)
  {
    next := phase;
    if phase.SignedIn? || phase.Parked? {
      var live := ReadLive(vendor, s, scope);
      var (parked, wrote) := WriteSlot(vendor, s, id, scope, live, NoFault);
      WriteSlotEffect(vendor, s, id, scope, live, NoFault);
      PutLaws(vendor, Lookup(s.slots, id), scope, live, scope, None);
      assert wrote <==> !Malformed(vendor, Lookup(s.slots, id));
      WriteLiveEffect(vendor, parked, scope, before, NoFault);
      PutLaws(vendor, s.live, scope, before, scope, None);
      if steps > 0 && wrote {
        next := if steps == 1 then Parked else if steps == 2 then Restored else Harvested;
      }
    }
  }

  /** From the moment the CLI has signed in, through every crash and rerun, both
      the pre-login and the new credential are stored somewhere. */
  lemma {:induction false} BothAlwaysKept(vendor: Vendor, s: State, id: string, scope: string, before: Option<Secret>,
                                          latest: Secret, cuts: seq<nat>) returns (phase: Phase)
    requires InPhase(vendor, s, id, scope, before, latest, SignedIn) && before != Some(latest)
    ensures var t := Attempts(vendor, s, id, cuts);
      && InPhase(vendor, t, id, scope, before, latest, phase)
      && Kept(vendor, t, id, scope, latest)
      && (before.Some? ==> Kept(vendor, t, id, scope, before.value))
      && OnlyThisLogin(vendor, s, t, id, scope)
  {
    if cuts == [] {
      phase := SignedIn;
    } else {
      var earlier := BothAlwaysKept(vendor, s, id, scope, before, latest, cuts[..|cuts| - 1]);
      var t := Attempts(vendor, s, id, cuts[..|cuts| - 1]);
      phase := AttemptPhase(vendor, t, id, scope, before, latest, earlier, cuts[|cuts| - 1]);
    }
  }

  /** The whole protocol: snapshot, sign-in, harvest. Whatever the live store held
      before, and whatever document the CLI leaves that carries the new login, a
      harvest that completes puts the old login back, parks the new one in the
      profile's slot and leaves nothing pending, whatever attempts were cut off
      before it. */
  lemma LoginProtocol(vendor: Vendor, s: State, id: string, scope: string, doc: Option<Document>, latest: Secret,
                      cuts: seq<nat>, steps: nat)
    requires Valid(vendor, s) && !vendor.Claude?
    requires Fits(vendor, doc) && Get(vendor, doc, scope) == Some(latest) && ReadLive(vendor, s, scope) != Some(latest)
    ensures var t := Attempts(vendor, BeginLogin(vendor, s, id, scope).(live := doc), id, cuts);
      var (u, done) := HarvestLogin(vendor, t, id, steps);
      && Kept(vendor, t, id, scope, latest)
      && (ReadLive(vendor, s, scope).Some? ==> Kept(vendor, t, id, scope, ReadLive(vendor, s, scope).value))
      && (done ==>
            && ReadLive(vendor, u, scope) == ReadLive(vendor, s, scope)
            && ReadSlot(vendor, u, id, scope) == Some(latest)
            && id !in u.snapshots)
  {
    var before := ReadLive(vendor, s, scope);
    var signedIn := BeginLogin(vendor, s, id, scope).(live := doc);
    var phase := BothAlwaysKept(vendor, signedIn, id, scope, before, latest, cuts);
    var last := AttemptPhase(vendor, Attempts(vendor, signedIn, id, cuts), id, scope, before, latest, phase, steps);
  }

  /** A harvest that dies between putting the old login back and removing the
      snapshot leaves the sign-in restored but pending. */
  lemma CutBeforeRemovalIsRestored(vendor: Vendor, s: State, id: string, scope: string, before: Option<Secret>,
                                   latest: Secret, phase: Phase)
    requires InPhase(vendor, s, id, scope, before, latest, phase) && before != Some(latest)
    requires phase.SignedIn? || phase.Parked?
    ensures InPhase(vendor, HarvestLogin(vendor, s, id, 2).0, id, scope, before, latest, Restored)
       <==> !Malformed(vendor, Lookup(s.slots, id))
  {
    var live := ReadLive(vendor, s, scope);
    var parked := WriteSlot(vendor, s, id, scope, live, NoFault).0;
    WriteSlotEffect(vendor, s, id, scope, live, NoFault);
    PutLaws(vendor, Lookup(s.slots, id), scope, live, scope, None);
    WriteLiveEffect(vendor, parked, scope, before, NoFault);
    PutLaws(vendor, s.live, scope, before, scope, None);
  }

  /** From there on no harvest ends it: each is a no-op that reports nothing
      harvested. */
  lemma {:induction false} RestoredIsStuck(vendor: Vendor, s: State, id: string, scope: string, before: Option<Secret>,
                                           latest: Secret, cuts: seq<nat>, steps: nat)
    requires InPhase(vendor, s, id, scope, before, latest, Restored) && before != Some(latest)
    ensures Attempts(vendor, s, id, cuts) == s && id in s.snapshots
    ensures HarvestLogin(vendor, s, id, steps) == (s, false)
  {
    if cuts != [] {
      RestoredIsStuck(vendor, s, id, scope, before, latest, cuts[..|cuts| - 1], cuts[|cuts| - 1]);
    }
  }

  /** In that state a token the CLI refreshes later is taken for a new sign-in.
      The next harvest loses the parked login exactly when the live document
      could take the refreshed token and the token is neither the old login nor
      the parked one. */
  lemma LateRefreshReplacesParkedLogin(vendor: Vendor, s: State, id: string, scope: string, before: Option<Secret>,
                                       latest: Secret, refreshed: Secret)
    requires InPhase(vendor, s, id, scope, before, latest, Restored) && before != Some(latest)
    ensures var (t, done) := HarvestLogin(vendor, CliSignsIn(vendor, s, scope, refreshed), id, 3);
      !Kept(vendor, t, id, scope, latest) <==>
        before != Some(refreshed) && refreshed != latest && !Malformed(vendor, s.live)
  {
    var u := CliSignsIn(vendor, s, scope, refreshed);
    WriteLiveEffect(vendor, s, scope, Some(refreshed), NoFault);
    PutLaws(vendor, s.live, scope, Some(refreshed), scope, None);
    if !Malformed(vendor, s.live) && before != Some(refreshed) {
      assert InPhase(vendor, u, id, scope, before, refreshed, SignedIn);
      var next := AttemptPhase(vendor, u, id, scope, before, refreshed, SignedIn, 3);
    }
  }

  /** The harvest raises: there is a new login to park, and the slot's document
      does not parse. */
  predicate HarvestRaises(vendor: Vendor, s: State, id: string) {
    && id in s.snapshots
    && var snap := s.snapshots[id];
      var live := ReadLive(vendor, s, snap.scope);
      live.Some? && live != snap.secret && Put(vendor, Lookup(s.slots, id), snap.scope, live).None?
  }

  /** `discard_pending_login`: harvest what there is, then drop the snapshot. A
      harvest that raises leaves everything, the snapshot included. */
  function DiscardLogin(vendor: Vendor, s: State, id: string): State {
    if HarvestRaises(vendor, s, id) then s
    else
      var t := HarvestLogin(vendor, s, id, 3).0;
      t.(snapshots := t.snapshots - {id})
  }

  /** Discarding a sign-in leaves the pre-login credential live exactly when it
      is live already, or the CLI left a credential there that can be parked;
      the sign-in stays pending, untouched, exactly when parking it raises. */
  lemma DiscardIsExact(vendor: Vendor, s: State, id: string)
    requires Valid(vendor, s) && !vendor.Claude? && id in s.snapshots
    ensures var snap, t := s.snapshots[id], DiscardLogin(vendor, s, id);
      var live, bad := ReadLive(vendor, s, snap.scope), Malformed(vendor, Lookup(s.slots, id));
      && (ReadLive(vendor, t, snap.scope) == snap.secret <==> live == snap.secret || (live.Some? && !bad))
      && (id in t.snapshots <==> live.Some? && live != snap.secret && bad)
      && (id in t.snapshots ==> t == s)
      && (live.Some? ==> Kept(vendor, t, id, snap.scope, live.value))
  {
    var snap := s.snapshots[id];
    var live := ReadLive(vendor, s, snap.scope);
    var parked := WriteSlot(vendor, s, id, snap.scope, live, NoFault).0;
    WriteSlotEffect(vendor, s, id, snap.scope, live, NoFault);
    PutLaws(vendor, Lookup(s.slots, id), snap.scope, live, snap.scope, None);
    WriteLiveEffect(vendor, parked, snap.scope, snap.secret, NoFault);
    PutLaws(vendor, s.live, snap.scope, snap.secret, snap.scope, None);
  }

  /** A sign-in left restored but pending ends when it is discarded: the snapshot
      goes and nothing else changes. */
  lemma DiscardEndsRestored(vendor: Vendor, s: State, id: string, scope: string, before: Option<Secret>, latest: Secret)
    requires InPhase(vendor, s, id, scope, before, latest, Restored)
    ensures DiscardLogin(vendor, s, id) == s.(snapshots := s.snapshots - {id})
  {
  }
}
