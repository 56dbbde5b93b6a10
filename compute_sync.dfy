/**
 * Two periodic tasks of the compute manager over the instances table,
 * modelled as a map from instance id to row: `_sync_power_states`, which
 * aligns each row of this host with the hypervisor, and
 * `_reclaim_queued_deletes`, which deletes the soft-deleted rows whose
 * grace period is over.  The hypervisor is its listing of (name, state).
 */
module ComputeSync {
  import opened Wrappers
  import opened ComputeStates

  datatype Vm = Vm(name: string, state: PowerState)

  /** `dict((vm.name, vm) for vm in vm_instances)`, keeping the state: a later
      VM of the same name replaces an earlier one. */
  function ByName(vms: seq<Vm>): map<string, PowerState> {
    if vms == [] then map[]
    else ByName(vms[..|vms| - 1])[vms[|vms| - 1].name := vms[|vms| - 1].state]
  }

  /** A name is in the dictionary exactly when some VM has it. */
  lemma {:induction false} ByNameKeys(vms: seq<Vm>, name: string)
    ensures name in ByName(vms) <==> exists i :: 0 <= i < |vms| && vms[i].name == name
  {
    if vms != [] {
      var init := vms[..|vms| - 1];
      ByNameKeys(init, name);
      if exists i :: 0 <= i < |vms| && vms[i].name == name {
        var i :| 0 <= i < |vms| && vms[i].name == name;
        if i < |init| {
          assert init[i] == vms[i];
        }
      }
      if exists i :: 0 <= i < |init| && init[i].name == name {
        var i :| 0 <= i < |init| && init[i].name == name;
        assert vms[i] == init[i];
      }
    }
  }

  /** A name in the dictionary maps to the state of the last VM listed under
      it: the returned index holds that name and no later VM does. */
  lemma {:induction false} ByNameLast(vms: seq<Vm>, name: string) returns (i: nat)
    requires name in ByName(vms)
    ensures i < |vms| && vms[i].name == name && ByName(vms)[name] == vms[i].state
    ensures forall j :: i < j < |vms| ==> vms[j].name != name
  {
    var init := vms[..|vms| - 1];
    if vms[|vms| - 1].name == name {
      i := |vms| - 1;
    } else {
      i := ByNameLast(init, name);
      assert vms[i] == init[i];
      forall j | i < j < |vms| ensures vms[j].name != name {
        if j < |init| {
          assert vms[j] == init[j];
        }
      }
    }
  }

  /** The hypervisor's state for a name, `NOSTATE` when it has no such VM. */
  function HypervisorState(states: map<string, PowerState>, name: string): PowerState {
    if name in states then states[name] else NoState
  }

  function OnHost(db: map<InstanceId, Instance>, host: string): set<InstanceId> {
    set id | id in db && db[id].host == host
  }

  /** `_sync_power_states`: every row of this host gets the hypervisor's
      state for its name; only rows whose state differs are written, and
      `updated` is the set of those rows. */
  method SyncPowerStates(db: map<InstanceId, Instance>, host: string, vms: seq<Vm>)
    returns (newDb: map<InstanceId, Instance>, updated: set<InstanceId>)
    ensures newDb.Keys == db.Keys
    ensures forall id :: id in db && db[id].host == host ==>
      newDb[id] == db[id].(powerState := HypervisorState(ByName(vms), db[id].name))
    ensures forall id :: id in db && db[id].host != host ==> newDb[id] == db[id]
    ensures forall id :: id in updated <==>
      id in db && db[id].host == host && HypervisorState(ByName(vms), db[id].name) != db[id].powerState
  {
    var vmStates := ByName(vms);
    var todo := OnHost(db, host);
    newDb := db;
    updated := {};
    while todo != {}
      invariant todo <= OnHost(db, host)
      invariant newDb.Keys == db.Keys
      invariant forall id :: id in db && db[id].host == host && id !in todo ==>
        newDb[id] == db[id].(powerState := HypervisorState(vmStates, db[id].name))
      invariant forall id :: id in db && (db[id].host != host || id in todo) ==> newDb[id] == db[id]
      invariant forall id :: id in updated <==>
        id in db && db[id].host == host && id !in todo && HypervisorState(vmStates, db[id].name) != db[id].powerState
      decreases |todo|
    {
      var id :| id in todo;
      var instance := db[id];
      var vmPowerState := if instance.name in vmStates then vmStates[instance.name] else NoState;
      if vmPowerState != instance.powerState {
        newDb := newDb[id := instance.(powerState := vmPowerState)];
        updated := updated + {id};
      }
      todo := todo - {id};
    }
  }

  /** After the sync, every row of this host agrees with the hypervisor, and
      a second sync writes nothing. */
  lemma SyncPowerStatesAgrees(db: map<InstanceId, Instance>, host: string, vms: seq<Vm>,
                              newDb: map<InstanceId, Instance>)
    requires newDb.Keys == db.Keys
    requires forall id :: id in db && db[id].host == host ==>
      newDb[id] == db[id].(powerState := HypervisorState(ByName(vms), db[id].name))
    requires forall id :: id in db && db[id].host != host ==> newDb[id] == db[id]
    ensures forall id :: id in newDb && newDb[id].host == host ==>
      newDb[id].powerState == HypervisorState(ByName(vms), newDb[id].name)
  {
  }

  // ---------------------------------------------------------------------
  // _reclaim_queued_deletes

  /** The rows `_reclaim_queued_deletes` deletes at time `now`. */
  predicate Reclaimable(instance: Instance, now: int, interval: int) {
    instance.vmState == SoftDelete && now - instance.deletedAt >= interval
  }

  /** `_reclaim_queued_deletes`: each row of this host in `SOFT_DELETE` whose
      `deleted_at` lies at least `reclaim_instance_interval` seconds back is
      passed to `_delete_instance`, which ends with `instance_destroy`; the
      model removes it from the table.  No other row changes.  A SHUTOFF row
      makes the source raise after the destroy, ending the pass early; the
      model does not follow that exit. */
  method ReclaimQueuedDeletes(db: map<InstanceId, Instance>, host: string, now: int, interval: int)
    returns (newDb: map<InstanceId, Instance>, reclaimed: set<InstanceId>)
    ensures forall id :: id in reclaimed <==> id in db && db[id].host == host && Reclaimable(db[id], now, interval)
    ensures newDb.Keys == db.Keys - reclaimed
    ensures forall id :: id in newDb ==> newDb[id] == db[id]
  {
    var todo := OnHost(db, host);
    newDb := db;
    reclaimed := {};
    while todo != {}
      invariant todo <= OnHost(db, host)
      invariant forall id :: id in reclaimed <==>
        id in db && db[id].host == host && id !in todo && Reclaimable(db[id], now, interval)
      invariant newDb.Keys == db.Keys - reclaimed
      invariant forall id :: id in newDb ==> newDb[id] == db[id]
      decreases |todo|
    {
      var id :| id in todo;
      var instance := db[id];
      if instance.vmState == SoftDelete && now - instance.deletedAt >= interval {
        newDb := map k | k in newDb && k != id :: newDb[k];
        reclaimed := reclaimed + {id};
      }
      todo := todo - {id};
    }
  }
}
