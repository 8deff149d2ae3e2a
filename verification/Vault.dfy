/** The vault object: its stores are overwritten one write at a time. */
module Vault {
  import opened Wrappers
  import opened VaultStores
  import opened CredentialVault
  import opened LoginHarvest

  class AgentVault {
    const vendor: Vendor
    var live: Option<Document>
    var slots: map<string, Document>
    var snapshots: map<string, Snapshot>

    ghost function Contents(): State
      reads this
    {
      State(live, slots, snapshots)
    }

    constructor (vendor: Vendor)
      ensures this.vendor == vendor && Contents() == State(None, map[], map[])
    {
      this.vendor := vendor;
      live, slots, snapshots := None, map[], map[];
    }

    method PutLive(scope: string, secret: Option<Secret>, fault: Fault) returns (ok: bool)
      modifies this`live
      ensures (Contents(), ok) == WriteLive(vendor, old(Contents()), scope, secret, fault)
    {
      var put := Put(vendor, live, scope, secret);
      if put.None? || fault == BeforeWrite {
        return false;
      }
      live := put.value;
      ok := fault == NoFault;
    }

    method PutSlot(id: string, scope: string, secret: Option<Secret>, fault: Fault) returns (ok: bool)
      modifies this`slots
      ensures (Contents(), ok) == WriteSlot(vendor, old(Contents()), id, scope, secret, fault)
    {
      var put := Put(vendor, Lookup(slots, id), scope, secret);
      if put.None? || fault == BeforeWrite {
        return false;
      }
      if !Wiped(vendor, secret) {
        slots := if put.value.Some? then slots[id := put.value.value] else slots - {id};
      }
      ok := fault == NoFault;
    }

    method SwitchAccount(fromId: string, toId: string, requested: Option<string>, faults: Faults)
      returns (outcome: Outcome)
      modifies this`live, this`slots
      ensures var scope := RequireScope(vendor, requested);
        (Contents(), outcome) == if scope.None? then (old(Contents()), NotCaptured)
                                 else Switch(vendor, old(Contents()), fromId, toId, scope.value, faults)
    {
      var scoped := RequireScope(vendor, requested);
      if scoped.None? || faults.strictRead {
        return NotCaptured;
      }
      var scope := scoped.value;
      var outgoing := Get(vendor, live, scope);
      var kept := PutSlot(fromId, scope, outgoing, faults.capture);
      if !kept {
        return NotCaptured;
      }
      var incoming := Get(vendor, Lookup(slots, toId), scope);
      var switched := PutLive(scope, incoming, faults.restore);
      if switched {
        return Switched;
      }
      var rolledBack := PutLive(scope, outgoing, faults.rollback);
      outcome := if rolledBack then RolledBack else Stranded;
    }

    method FillEmptySlot(id: string, scope: string, fault: Fault) returns (filled: bool)
      modifies this`slots
      ensures (Contents(), filled) == Harvest(vendor, old(Contents()), id, scope, fault)
    {
      if Get(vendor, Lookup(slots, id), scope).Some? {
        return false;
      }
      var current := Get(vendor, live, scope);
      if current.None? || Wiped(vendor, current) {
        return false;
      }
      filled := PutSlot(id, scope, current, fault);
    }

    method SnapshotForLogin(id: string, scope: string)
      modifies this`snapshots
      ensures Contents() == BeginLogin(vendor, old(Contents()), id, scope)
    {
      snapshots := snapshots[id := Snapshot(Get(vendor, live, scope), scope)];
    }

    /** Dies after `steps` writes; parking the new login may raise. */
    method HarvestPendingLogin(id: string, steps: nat) returns (done: bool, raised: bool)
      modifies this
      ensures (Contents(), done) == HarvestLogin(vendor, old(Contents()), id, steps)
      ensures raised <==> steps > 0 && HarvestRaises(vendor, old(Contents()), id)
    {
      done, raised := false, false;
      if id !in snapshots {
        return;
      }
      var snap := snapshots[id];
      var current := Get(vendor, live, snap.scope);
      if current.None? || current == snap.secret || steps == 0 {
        return;
      }
      var wrote := PutSlot(id, snap.scope, current, NoFault);
      if !wrote || steps == 1 {
        return false, !wrote;
      }
      var restored := PutLive(snap.scope, snap.secret, NoFault);
      if !restored || steps == 2 {
        return;
      }
      snapshots := snapshots - {id};
      done := true;
    }

    method DiscardPendingLogin(id: string) returns (raised: bool)
      modifies this
      ensures Contents() == DiscardLogin(vendor, old(Contents()), id)
      ensures raised <==> HarvestRaises(vendor, old(Contents()), id)
    {
      var done;
      done, raised := HarvestPendingLogin(id, 3);
      if !raised {
        snapshots := snapshots - {id};
      }
    }
  }
}
