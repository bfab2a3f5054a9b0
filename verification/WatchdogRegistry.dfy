/** The registry as the kernel keeps it: static variables that the calls update in place. */
module WatchdogRegistry {
  import opened Base
  import opened Registration

  class Core {
    const maxDogs: nat
    var ids: set<nat>
    var idOf: map<Device, nat>
    var data: map<Device, CoreData>
    ghost var live: set<Device>
    var deferred: seq<Device>
    var done: bool
    ghost var attempts: seq<Device>

    ghost function View(): Registry
      reads this
    {
      Registry(maxDogs, ids, idOf, data, live, deferred, done, attempts)
    }

    constructor (maxDogs: nat)
      ensures View() == Boot(maxDogs)
    {
      this.maxDogs := maxDogs;
      ids, idOf, data, live, deferred, done, attempts := {}, map[], map[], {}, [], false, [];
    }

    /** Take an id and set the device up under it, retrying once past a legacy device on id 0. */
    method AcquireId(d: Device, env: Env) returns (id: Option<nat>)
      modifies this
      ensures (View(), id) == Registration.AcquireId(old(View()), d, env)
    {
      id := if env.alias.Some? && env.alias.value !in ids then env.alias else None;
      if id.None? {
        id := LowestFree(ids, 0, maxDogs);
      }
      if id.None? {
        return;
      }
      TryId(d, id.value, env.first);
      if env.first.DevOk? {
        return;
      }
      if !(id.value == 0 && env.first.DevBusy?) {
        return None;
      }
      id := LowestFree(ids, 1, maxDogs);
      if id.None? {
        return;
      }
      TryId(d, id.value, env.second);
      if !env.second.DevOk? {
        return None;
      }
    }

    method TryId(d: Device, id: nat, result: DevResult)
      modifies this
      ensures View() == Registration.TryId(old(View()), d, id, result)
    {
      ids := ids + {id};
      idOf := idOf[d := id];
      data := SetUp(data, d, result);
      if !result.DevOk? {
        ids := ids - {id};
      }
    }

    /** `__watchdog_register_device`. */
    method RegisterNow(d: Device, env: Env) returns (ok: bool)
      modifies this
      ensures View() == Registration.RegisterNow(old(View()), d, env)
      ensures d !in old(live) ==> (ok <==> d in live)
    {
      attempts := attempts + [d];
      if !env.valid {
        return false;
      }
      var id := AcquireId(d, env);
      if id.None? {
        return false;
      }
      if env.stopOnReboot && !env.notifierOk {
        data := data[d := Missing];
        ids := ids - {id.value};
        return false;
      }
      live := live + {d};
      return true;
    }

    method Register(d: Device, env: Env) returns (ok: bool)
      modifies this
      ensures View() == Registration.Register(old(View()), d, env)
      ensures d !in old(live) ==> (ok <==> d in live || !done)
    {
      if done {
        ok := RegisterNow(d, env);
      } else {
        deferred := deferred + [d];
        ok := true;
      }
    }

    /** `ok` is false when the teardown would be handed missing or dead data. */
    method Unregister(d: Device) returns (ok: bool)
      modifies this
      ensures Registration.Unregister(old(View()), d) == if ok then Done(View()) else BadTeardown
      ensures !ok ==> View() == old(View())
    {
      if !done {
        RemoveDeferred(d);
        return true;
      }
      if d !in data || !data[d].Live? {
        return false;
      }
      data := data[d := Missing];
      ids := ids - {if d in idOf then idOf[d] else 0};
      live := live - {d};
      return true;
    }

    /** `watchdog_deferred_registration_del`: walk the list, unlink the first match. */
    method RemoveDeferred(d: Device)
      modifies this`deferred
      ensures deferred == RemoveFirst(old(deferred), d)
    {
      var i := 0;
      while i < |deferred|
        invariant 0 <= i <= |deferred|
        invariant deferred == old(deferred)
        invariant d !in deferred[..i]
      {
        if deferred[i] == d {
          RemoveFirstAt(deferred, d, i);
          deferred := deferred[..i] + deferred[i + 1..];
          return;
        }
        i := i + 1;
      }
      RemoveFirstAbsent(deferred, d);
    }

    /** `watchdog_deferred_registration`: the drain loop of the init call. */
    method DeferredRegistration(envs: seq<Env>)
      requires |envs| == |deferred|
      modifies this
      ensures View() == Init(old(View()), envs)
    {
      done := true;
      var k := 0;
      while deferred != []
        invariant 0 <= k <= |envs| && |envs[k..]| == |deferred|
        invariant Drain(View(), envs[k..]) == Init(old(View()), envs)
        decreases |deferred|
      {
        var d := deferred[0];
        assert envs[k..][1..] == envs[k + 1..];
        deferred := deferred[1..];
        var _ := RegisterNow(d, envs[k]);
        k := k + 1;
      }
    }
  }
}
