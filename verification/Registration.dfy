/** Ids, live devices and the deferred list of the watchdog registry. */
module Registration {
  import opened Base

  type Device = nat  // the address of a struct watchdog_device

  datatype DevResult = DevOk | DevBusy | DevError | DevNoMemory

  /** What wdd->wd_data points to: nothing, data that was freed or never added, or the data of a live device. */
  datatype CoreData = Missing | Dead | Live

  /** Everything one registration attempt learns from the outside. */
  datatype Env = Env(
    valid: bool,             // info, ops and the mandatory operations are there
    alias: Option<nat>,      // the device-tree alias, if there is one
    first: DevResult,        // watchdog_dev_register
    second: DevResult,       // the same, on the retry
    stopOnReboot: bool,
    notifierOk: bool
  )

  datatype Registry = Registry(
    maxDogs: nat,
    ids: set<nat>,             // watchdog_ida
    idOf: map<Device, nat>,    // wdd->id where it has been written
    data: map<Device, CoreData>, // wdd->wd_data where it has been written
    live: set<Device>,         // registered and not yet unregistered
    deferred: seq<Device>,
    done: bool,
    attempts: seq<Device>      // every call of __watchdog_register_device so far
  )

  /** wdd->id is zero until registration writes it. */
  function IdField(r: Registry, d: Device): nat { if d in r.idOf then r.idOf[d] else 0 }

  function DataOf(r: Registry, d: Device): CoreData { if d in r.data then r.data[d] else Missing }

  /** ida_simple_get: the lowest free id in [lo, hi). */
  function LowestFree(ids: set<nat>, lo: nat, hi: nat): (id: Option<nat>)
    ensures id.Some? ==> lo <= id.value < hi && id.value !in ids
    ensures id.Some? ==> forall k :: lo <= k < id.value ==> k in ids
    ensures id.None? ==> forall k :: lo <= k < hi ==> k in ids
    decreases hi - lo
  {
    if lo >= hi then None
    else if lo !in ids then Some(lo)
    else LowestFree(ids, lo + 1, hi)
  }

  function FirstId(r: Registry, env: Env): Option<nat> {
    if env.alias.Some? && env.alias.value !in r.ids then env.alias
    else LowestFree(r.ids, 0, r.maxDogs)
  }

  /** wd_data after watchdog_dev_register: only a failed allocation leaves it as it was. */
  function SetUp(data: map<Device, CoreData>, d: Device, result: DevResult): map<Device, CoreData> {
    match result
    case DevOk => data[d := Live]
    case DevNoMemory => data
    case _ => data[d := Dead]
  }

  /** The id is taken, written into the device, and given back if the device cannot be set up. */
  function TryId(r: Registry, d: Device, id: nat, result: DevResult): Registry {
    r.(idOf := r.idOf[d := id], data := SetUp(r.data, d, result),
       ids := if result.DevOk? then r.ids + {id} else r.ids - {id})
  }

  /** The id under which the device ends up, if any, and the registry at that point. */
  function AcquireId(r: Registry, d: Device, env: Env): (Registry, Option<nat>) {
    var first := FirstId(r, env);
    if first.None? then (r, None)
    else
      var r1 := TryId(r, d, first.value, env.first);
      if env.first.DevOk? then (r1, first)
      else if !(first.value == 0 && env.first.DevBusy?) then (r1, None)
      else
        var second := LowestFree(r1.ids, 1, r1.maxDogs);
        if second.None? then (r1, None)
        else (TryId(r1, d, second.value, env.second), if env.second.DevOk? then second else None)
  }

  /** `__watchdog_register_device`. */
  function RegisterNow(r0: Registry, d: Device, env: Env): Registry {
    var r := r0.(attempts := r0.attempts + [d]);
    if !env.valid then r
    else
      var (r1, id) := AcquireId(r, d, env);
      if id.None? then r1
      else if env.stopOnReboot && !env.notifierOk then r1.(ids := r1.ids - {id.value}, data := r1.data[d := Missing])
      else r1.(live := r1.live + {d})
  }

  function RemoveFirst(ds: seq<Device>, d: Device): seq<Device> {
    if ds == [] then []
    else if ds[0] == d then ds[1..]
    else [ds[0]] + RemoveFirst(ds[1..], d)
  }

  function Register(r: Registry, d: Device, env: Env): Registry {
    if r.done then RegisterNow(r, d, env) else r.(deferred := r.deferred + [d])
  }

  /** The device is taken down, then its id is given back. */
  function UnregisterNow(r: Registry, d: Device): Registry {
    r.(data := r.data[d := Missing], ids := r.ids - {IdField(r, d)}, live := r.live - {d})
  }

  /** `BadTeardown`: cdev_device_del is handed wd_data that is missing or dead. */
  datatype Outcome = Done(registry: Registry) | BadTeardown

  function Unregister(r: Registry, d: Device): Outcome {
    if !r.done then Done(r.(deferred := RemoveFirst(r.deferred, d)))
    else if DataOf(r, d).Live? then Done(UnregisterNow(r, d))
    else BadTeardown
  }

  function Drain(r: Registry, envs: seq<Env>): Registry
    requires |envs| == |r.deferred|
    decreases |envs|
  {
    if r.deferred == [] then r
    else Drain(RegisterNow(r.(deferred := r.deferred[1..]), r.deferred[0], envs[0]), envs[1..])
  }

  /** The init call. */
  function Init(r: Registry, envs: seq<Env>): Registry
    requires |envs| == |r.deferred|
  {
    Drain(r.(done := true), envs)
  }

  // ---------------------------------------------------------------- the books

  /** The allocated ids are exactly the distinct ids of the live devices, and these alone have live data. */
  ghost predicate Balanced(r: Registry) {
    && (forall d :: d in r.live <==> DataOf(r, d).Live?)
    && (forall d :: d in r.live ==> d in r.idOf && r.idOf[d] in r.ids)
    && (forall i :: i in r.ids ==> exists d :: d in r.live && IdField(r, d) == i)
    && (forall d, e :: d in r.live && e in r.live && IdField(r, d) == IdField(r, e) ==> d == e)
  }

  predicate Distinct(ds: seq<Device>) { forall i, j :: 0 <= i < j < |ds| ==> ds[i] != ds[j] }

  ghost predicate InOrder(r: Registry) {
    && Balanced(r)
    && Distinct(r.deferred)
    && (forall d :: d in r.deferred ==> d !in r.live)
    && (r.done ==> r.deferred == [])
    && (!r.done ==> r.live == {} && r.attempts == [])
  }

  /** A failed attempt leaves the ids and the live devices as they were; a successful one adds one of each. */
  ghost predicate AttemptEffect(r: Registry, r': Registry, d: Device) {
    && r'.attempts == r.attempts + [d]
    && r'.deferred == r.deferred && r'.done == r.done && r'.maxDogs == r.maxDogs
    && (forall e :: e in r.live ==> e in r'.idOf && IdField(r', e) == IdField(r, e))
    && (forall e :: e != d ==> DataOf(r', e) == DataOf(r, e))
    && (d in r'.live <==> DataOf(r', d).Live?)
    && (if d in r'.live then
          && d in r'.idOf && r'.idOf[d] !in r.ids
          && r'.ids == r.ids + {r'.idOf[d]} && r'.live == r.live + {d}
        else
          r'.ids == r.ids && r'.live == r.live)
  }

  lemma RegisterNowEffect(r: Registry, d: Device, env: Env)
    requires Balanced(r) && d !in r.live
    ensures AttemptEffect(r, RegisterNow(r, d, env), d)
  {
    AcquireIdEffect(r.(attempts := r.attempts + [d]), d, env);
  }

  /** The lowest id at or above `lo` that is free. */
  ghost predicate IsLowestFree(ids: set<nat>, lo: nat, hi: nat, id: nat) {
    lo <= id < hi && id !in ids && forall k :: lo <= k < id ==> k in ids
  }

  /**
   Under which id a device comes to live: its alias if that is free, else the
   lowest free id; after EBUSY on id 0, the lowest free id above it.
   */
  lemma ChosenId(r: Registry, d: Device, env: Env)
    requires Balanced(r) && d !in r.live && d in RegisterNow(r, d, env).live
    ensures var id := RegisterNow(r, d, env).idOf[d]; var aliased := env.alias.Some? && env.alias.value !in r.ids;
            if env.first.DevOk? then
              if aliased then id == env.alias.value else IsLowestFree(r.ids, 0, r.maxDogs, id)
            else
              && env.first.DevBusy? && (aliased ==> env.alias.value == 0)
              && 0 !in r.ids && IsLowestFree(r.ids, 1, r.maxDogs, id)
  {
    if !env.first.DevOk? {
      var first := FirstId(r.(attempts := r.attempts + [d]), env);
      assert first.Some? && r.ids - {first.value} == r.ids;
    }
  }

  /** Some id in the range is free. */
  ghost predicate SomeFree(ids: set<nat>, lo: nat, hi: nat) { exists id: nat :: lo <= id < hi && id !in ids }

  /** The first attempt finds an id: a free alias, or any other. */
  ghost predicate FirstFound(r: Registry, env: Env) {
    (env.alias.Some? && env.alias.value !in r.ids) || SomeFree(r.ids, 0, r.maxDogs)
  }

  /** The id of the first attempt is 0: as a free alias, or as the lowest free id when there is no free alias. */
  predicate TriesZero(r: Registry, env: Env) {
    0 !in r.ids && if env.alias.Some? && env.alias.value !in r.ids then env.alias.value == 0 else r.maxDogs > 0
  }

  /**
   When a registration brings its device to life, read off the input: it is
   valid; the first id it is given works, or is 0, busy, and another id above
   0 is free and works; and the reboot notifier, if asked for, is accepted.
   */
  lemma RegistrationSucceeds(r: Registry, d: Device, env: Env)
    requires Balanced(r) && d !in r.live
    ensures d in RegisterNow(r, d, env).live <==>
            && env.valid
            && FirstFound(r, env)
            && (env.first.DevOk?
                || (TriesZero(r, env) && env.first.DevBusy? && SomeFree(r.ids, 1, r.maxDogs) && env.second.DevOk?))
            && (env.stopOnReboot ==> env.notifierOk)
  {
    var r1 := r.(attempts := r.attempts + [d]);
    LowestFreeExact(r.ids, 0, r.maxDogs);
    var first := FirstId(r1, env);
    if first.Some? && !env.first.DevOk? {
      assert TryId(r1, d, first.value, env.first).ids == r.ids;
      LowestFreeExact(r.ids, 1, r.maxDogs);
      assert first.value == 0 <==> TriesZero(r, env);
    }
  }

  /** A second id is tried: the first was 0 and busy, and another one is free. */
  ghost predicate Retries(r: Registry, env: Env) {
    TriesZero(r, env) && env.first.DevBusy? && SomeFree(r.ids, 1, r.maxDogs)
  }

  /**
   What a failed registration leaves in wd_data: nothing new if it got no id
   or no memory at first; nothing at all if only the reboot notifier was
   refused, since the device has been taken down again; otherwise data that
   was freed or never added.
   */
  lemma DataAfterFailure(r: Registry, d: Device, env: Env)
    requires Balanced(r) && d !in r.live && d !in RegisterNow(r, d, env).live
    ensures DataOf(RegisterNow(r, d, env), d) ==
            if !env.valid || !FirstFound(r, env) || env.first.DevNoMemory? then DataOf(r, d)
            else if env.first.DevOk? || (Retries(r, env) && env.second.DevOk?) then Missing
            else Dead
  {
    var r1 := r.(attempts := r.attempts + [d]);
    LowestFreeExact(r.ids, 0, r.maxDogs);
    var first := FirstId(r1, env);
    if first.Some? && !env.first.DevOk? {
      assert TryId(r1, d, first.value, env.first).ids == r.ids;
      LowestFreeExact(r.ids, 1, r.maxDogs);
      assert first.value == 0 <==> TriesZero(r, env);
    }
  }

  lemma LowestFreeExact(ids: set<nat>, lo: nat, hi: nat)
    ensures LowestFree(ids, lo, hi).Some? <==> SomeFree(ids, lo, hi)
  {
  }

  lemma AcquireIdEffect(r: Registry, d: Device, env: Env)
    requires !DataOf(r, d).Live?
    ensures var (r', id) := AcquireId(r, d, env);
            && (forall e :: e != d ==> IdField(r', e) == IdField(r, e) && (e in r.idOf <==> e in r'.idOf))
            && (forall e :: e != d ==> DataOf(r', e) == DataOf(r, e))
            && (id.Some? <==> DataOf(r', d).Live?)
            && r' == r.(ids := r'.ids, idOf := r'.idOf, data := r'.data)
            && (id.None? ==> r'.ids == r.ids)
            && (id.Some? ==> d in r'.idOf && r'.idOf[d] == id.value
                             && id.value !in r.ids && r'.ids == r.ids + {id.value})
  {
    var first := FirstId(r, env);
    if first.Some? && !env.first.DevOk? {
      assert TryId(r, d, first.value, env.first).ids == r.ids;
    }
  }

  lemma AttemptKeepsBalance(r: Registry, r': Registry, d: Device)
    requires Balanced(r) && d !in r.live && AttemptEffect(r, r', d)
    ensures Balanced(r')
  {
    forall i | i in r'.ids
      ensures exists e :: e in r'.live && IdField(r', e) == i
    {
      if i in r.ids {
        var e :| e in r.live && IdField(r, e) == i;
        assert e in r'.live && IdField(r', e) == i;
      } else {
        assert d in r'.live && IdField(r', d) == i;
      }
    }
  }

  lemma UnregisterKeepsBalance(r: Registry, d: Device)
    requires Balanced(r) && d in r.live
    ensures Balanced(UnregisterNow(r, d))
  {
    var r' := UnregisterNow(r, d);
    forall i | i in r'.ids
      ensures exists e :: e in r'.live && IdField(r', e) == i
    {
      var e :| e in r.live && IdField(r, e) == i;
      assert e in r'.live && IdField(r', e) == i;
    }
  }

  lemma {:induction false} RemoveFirstAbsent(ds: seq<Device>, d: Device)
    requires d !in ds
    ensures RemoveFirst(ds, d) == ds
  {
    if ds != [] {
      RemoveFirstAbsent(ds[1..], d);
    }
  }

  lemma {:induction false} RemoveFirstAt(ds: seq<Device>, d: Device, i: nat)
    requires i < |ds| && ds[i] == d && d !in ds[..i]
    ensures RemoveFirst(ds, d) == ds[..i] + ds[i + 1..]
  {
    if i > 0 {
      assert ds[0] in ds[..i];
      assert ds[1..][..i - 1] == ds[1..i];
      forall e | e in ds[1..i]
        ensures e in ds[..i]
      {
      }
      RemoveFirstAt(ds[1..], d, i - 1);
    }
  }

  lemma {:induction false} RemoveFirstEffect(ds: seq<Device>, d: Device)
    requires Distinct(ds)
    ensures Distinct(RemoveFirst(ds, d))
    ensures forall e :: e in RemoveFirst(ds, d) <==> e in ds && e != d
  {
    if ds != [] {
      assert ds == [ds[0]] + ds[1..];
      assert forall e :: e in ds <==> e == ds[0] || e in ds[1..];
      assert ds[0] !in ds[1..];
      if ds[0] != d {
        RemoveFirstEffect(ds[1..], d);
      }
    }
  }

  // ---------------------------------------------------------------- init

  ghost predicate Drainable(r: Registry) {
    Balanced(r) && Distinct(r.deferred) && forall d :: d in r.deferred ==> d !in r.live
  }

  /** One turn of the drain loop, whatever the attempt's outcome. */
  lemma DrainTurn(r: Registry, r': Registry)
    requires Drainable(r) && r.deferred != []
    requires AttemptEffect(r.(deferred := r.deferred[1..]), r', r.deferred[0])
    ensures Drainable(r')
    ensures r'.attempts + r'.deferred == r.attempts + r.deferred
    ensures forall d :: d in r'.live ==> d in r.live || d in r.deferred
  {
    var r1 := r.(deferred := r.deferred[1..]);
    assert Balanced(r1);
    AttemptKeepsBalance(r1, r', r.deferred[0]);
    assert r.deferred == [r.deferred[0]] + r'.deferred;
    assert forall d :: d in r'.deferred ==> d in r.deferred;
  }

  /** Draining registers each deferred device once, in order, and leaves nothing behind. */
  lemma {:induction false} DrainEffect(r: Registry, envs: seq<Env>)
    requires |envs| == |r.deferred| && Drainable(r)
    ensures Balanced(Drain(r, envs))
    ensures Drain(r, envs).deferred == [] && Drain(r, envs).done == r.done
    ensures Drain(r, envs).attempts == r.attempts + r.deferred
    ensures forall d :: d in Drain(r, envs).live ==> d in r.live || d in r.deferred
    decreases |envs|
  {
    if r.deferred != [] {
      var r1 := r.(deferred := r.deferred[1..]);
      assert Balanced(r1);
      RegisterNowEffect(r1, r.deferred[0], envs[0]);
      var r2 := RegisterNow(r1, r.deferred[0], envs[0]);
      DrainTurn(r, r2);
      assert forall d :: d in r.deferred[1..] ==> d in r.deferred;
      DrainEffect(r2, envs[1..]);
    }
  }

  // ---------------------------------------------------------------- runs

  datatype Call =
    | RegisterDevice(d: Device, env: Env)
    | UnregisterDevice(d: Device)
    | InitCall(envs: seq<Env>)

  /** A device is registered once at a time, an unregistration gets through, and init runs once. */
  predicate Proper(r: Registry, call: Call) {
    match call
    case RegisterDevice(d, _) => d !in r.live && d !in r.deferred
    case UnregisterDevice(d) => Unregister(r, d).Done?
    case InitCall(envs) => !r.done && |envs| == |r.deferred|
  }

  function Perform(r: Registry, call: Call): Registry
    requires Proper(r, call)
  {
    match call
    case RegisterDevice(d, env) => Register(r, d, env)
    case UnregisterDevice(d) => Unregister(r, d).registry
    case InitCall(envs) => Init(r, envs)
  }

  lemma CallKeepsOrder(r: Registry, call: Call)
    requires InOrder(r) && Proper(r, call)
    ensures InOrder(Perform(r, call))
    ensures r.done ==> Perform(r, call).done
  {
    match call
    case RegisterDevice(d, env) =>
      if r.done {
        RegisterNowEffect(r, d, env);
        AttemptKeepsBalance(r, RegisterNow(r, d, env), d);
      }
    case UnregisterDevice(d) =>
      if r.done {
        UnregisterKeepsBalance(r, d);
      } else {
        RemoveFirstEffect(r.deferred, d);
      }
    case InitCall(envs) =>
      assert Balanced(r.(done := true));
      DrainEffect(r.(done := true), envs);
  }

  predicate AllProper(r: Registry, calls: seq<Call>)
    decreases |calls|
  {
    calls == [] || (Proper(r, calls[0]) && AllProper(Perform(r, calls[0]), calls[1..]))
  }

  function PerformAll(r: Registry, calls: seq<Call>): Registry
    requires AllProper(r, calls)
    decreases |calls|
  {
    if calls == [] then r else PerformAll(Perform(r, calls[0]), calls[1..])
  }

  const EMPTY_IDS: set<nat> := {}

  function Boot(maxDogs: nat): Registry { Registry(maxDogs, EMPTY_IDS, map[], map[], {}, [], false, []) }

  lemma {:induction false} CallsKeepOrder(r: Registry, calls: seq<Call>)
    requires InOrder(r) && AllProper(r, calls)
    ensures InOrder(PerformAll(r, calls))
    ensures r.done ==> PerformAll(r, calls).done
    decreases |calls|
  {
    if calls != [] {
      CallKeepsOrder(r, calls[0]);
      CallsKeepOrder(Perform(r, calls[0]), calls[1..]);
    }
  }

  /** From boot, over every sequence of proper calls, the ids are exactly those of the live devices. */
  lemma BooksAlwaysBalance(maxDogs: nat, calls: seq<Call>)
    requires AllProper(Boot(maxDogs), calls)
    ensures InOrder(PerformAll(Boot(maxDogs), calls))
  {
    CallsKeepOrder(Boot(maxDogs), calls);
  }

  // ---------------------------------------------------------------- before init

  lemma {:induction false} OneMoreCall(r: Registry, calls: seq<Call>, call: Call)
    requires AllProper(r, calls + [call])
    ensures AllProper(r, calls) && Proper(PerformAll(r, calls), call)
    ensures PerformAll(r, calls + [call]) == Perform(PerformAll(r, calls), call)
    decreases |calls|
  {
    if calls == [] {
      assert [] + [call] == [call] && [call][1..] == [];
    } else {
      assert (calls + [call])[1..] == calls[1..] + [call];
      OneMoreCall(Perform(r, calls[0]), calls[1..], call);
    }
  }

  /** The i-th call registers the device, and no later one unregisters it. */
  predicate Waiting(calls: seq<Call>, i: nat, d: Device) {
    && i < |calls| && calls[i].RegisterDevice? && calls[i].d == d
    && forall j :: i < j < |calls| ==> calls[j] != UnregisterDevice(d)
  }

  /** `d` stands before `e`. */
  ghost predicate Before(ds: seq<Device>, d: Device, e: Device) { exists p, q :: 0 <= p < q < |ds| && ds[p] == d && ds[q] == e }

  ghost predicate ListsWaiting(calls: seq<Call>, ds: seq<Device>) {
    && (forall d :: d in ds <==> exists i: nat :: Waiting(calls, i, d))
    && (forall i: nat, j: nat, d, e :: i < j && Waiting(calls, i, d) && Waiting(calls, j, e) ==> Before(ds, d, e))
  }

  lemma RemoveFirstKeepsOrder(ds: seq<Device>, d: Device, e: Device, f: Device)
    requires Before(ds, e, f) && e != d && f != d
    ensures Before(RemoveFirst(ds, d), e, f)
  {
    var p, q :| 0 <= p < q < |ds| && ds[p] == e && ds[q] == f;
    if d in ds {
      var i := FirstAt(ds, d);
      RemoveFirstAt(ds, d, i);
      var rest := ds[..i] + ds[i + 1..];
      var p', q' := if p < i then p else p - 1, if q < i then q else q - 1;
      assert rest[p'] == e && rest[q'] == f;
    } else {
      RemoveFirstAbsent(ds, d);
    }
  }

  lemma {:induction false} FirstAt(ds: seq<Device>, d: Device) returns (i: nat)
    requires d in ds
    ensures i < |ds| && ds[i] == d && d !in ds[..i]
  {
    if ds[0] == d {
      i := 0;
    } else {
      i := FirstAt(ds[1..], d);
      assert ds[..i + 1] == [ds[0]] + ds[1..][..i];
      i := i + 1;
    }
  }

  lemma WaitingAfter(calls: seq<Call>, call: Call, i: nat, d: Device)
    ensures Waiting(calls + [call], i, d) <==>
            (i == |calls| && call.RegisterDevice? && call.d == d)
            || (Waiting(calls, i, d) && call != UnregisterDevice(d))
  {
    var longer := calls + [call];
    assert longer[|calls|] == call;
    assert forall j :: 0 <= j < |calls| ==> longer[j] == calls[j];
    if Waiting(longer, i, d) && i < |calls| {
      forall j | i < j < |calls|
        ensures calls[j] != UnregisterDevice(d)
      {
        assert longer[j] != UnregisterDevice(d);
      }
    }
  }

  lemma RegisterLists(calls: seq<Call>, call: Call, ds: seq<Device>)
    requires ListsWaiting(calls, ds) && call.RegisterDevice? && call.d !in ds
    ensures ListsWaiting(calls + [call], ds + [call.d])
  {
    var longer := ds + [call.d];
    forall i: nat, d
      ensures Waiting(calls + [call], i, d) <==> (i == |calls| && call.d == d) || Waiting(calls, i, d)
    {
      WaitingAfter(calls, call, i, d);
    }
    assert Waiting(calls + [call], |calls|, call.d);
    forall i: nat, j: nat, d, e | i < j && Waiting(calls + [call], i, d) && Waiting(calls + [call], j, e)
      ensures Before(longer, d, e)
    {
      assert Waiting(calls, i, d) && d in ds;
      if j == |calls| {
        var p :| 0 <= p < |ds| && ds[p] == d;
        assert longer[p] == d && longer[|ds|] == e;
      } else {
        var p, q :| 0 <= p < q < |ds| && ds[p] == d && ds[q] == e;
        assert longer[p] == d && longer[q] == e;
      }
    }
  }

  lemma UnregisterLists(calls: seq<Call>, d: Device, ds: seq<Device>)
    requires ListsWaiting(calls, ds) && Distinct(ds)
    ensures ListsWaiting(calls + [UnregisterDevice(d)], RemoveFirst(ds, d))
  {
    var call := UnregisterDevice(d);
    RemoveFirstEffect(ds, d);
    forall i: nat, e
      ensures Waiting(calls + [call], i, e) <==> Waiting(calls, i, e) && e != d
    {
      WaitingAfter(calls, call, i, e);
    }
    forall i: nat, j: nat, e, f | i < j && Waiting(calls + [call], i, e) && Waiting(calls + [call], j, f)
      ensures Before(RemoveFirst(ds, d), e, f)
    {
      RemoveFirstKeepsOrder(ds, d, e, f);
    }
  }

  /**
   Until init the list holds exactly the devices that were registered and not
   unregistered since, in the order of their registrations.
   */
  lemma {:induction false} DeferredExact(maxDogs: nat, calls: seq<Call>)
    requires AllProper(Boot(maxDogs), calls) && forall i :: 0 <= i < |calls| ==> !calls[i].InitCall?
    ensures var r := PerformAll(Boot(maxDogs), calls); !r.done && ListsWaiting(calls, r.deferred)
  {
    if calls != [] {
      var front, last := calls[..|calls| - 1], calls[|calls| - 1];
      assert calls == front + [last];
      OneMoreCall(Boot(maxDogs), front, last);
      DeferredExact(maxDogs, front);
      BooksAlwaysBalance(maxDogs, front);
      var r := PerformAll(Boot(maxDogs), front);
      if last.RegisterDevice? {
        RegisterLists(front, last, r.deferred);
      } else {
        UnregisterLists(front, last.d, r.deferred);
      }
    }
  }

  /**
   In every state such a sequence leads to, an unregistration gets through if
   and only if init has not run or the device is live; that its registration
   returned success is not enough.
   */
  lemma UnregisterExact(maxDogs: nat, calls: seq<Call>, d: Device)
    requires AllProper(Boot(maxDogs), calls)
    ensures var r := PerformAll(Boot(maxDogs), calls);
            && (Unregister(r, d).Done? <==> !r.done || d in r.live)
            && (Unregister(r, d).Done? ==> InOrder(Unregister(r, d).registry))
  {
    BooksAlwaysBalance(maxDogs, calls);
    var r := PerformAll(Boot(maxDogs), calls);
    if Unregister(r, d).Done? {
      CallKeepsOrder(r, UnregisterDevice(d));
    }
  }

  /**
   A deferred registration reports success before anything was checked: if
   init then finds the device invalid, the driver's unregistration is a bad
   teardown.
   */
  lemma DeferredFailure(maxDogs: nat, d: Device, early: Env, atInit: Env)
    requires !atInit.valid
    ensures var calls := [RegisterDevice(d, early), InitCall([atInit])];
            AllProper(Boot(maxDogs), calls) && Unregister(PerformAll(Boot(maxDogs), calls), d) == BadTeardown
  {
    var calls := [RegisterDevice(d, early), InitCall([atInit])];
    var r1 := Perform(Boot(maxDogs), calls[0]);
    assert r1.deferred == [d];
    assert calls[1..] == [InitCall([atInit])] && calls[1..][1..] == [];
    var r2 := Init(r1, [atInit]);
    var turn := RegisterNow(r1.(done := true, deferred := []), d, atInit);
    assert r1.deferred[1..] == [] && [atInit][1..] == [];
    assert r2 == Drain(turn, []) == turn;
    assert PerformAll(r2, []) == r2;
  }

  /** Init drains the list first in, first out; afterwards it is empty for good. */
  lemma InitDrainsForGood(maxDogs: nat, before: seq<Call>, envs: seq<Env>, after: seq<Call>)
    requires AllProper(Boot(maxDogs), before)
    requires Proper(PerformAll(Boot(maxDogs), before), InitCall(envs))
    requires AllProper(Init(PerformAll(Boot(maxDogs), before), envs), after)
    ensures var r := PerformAll(Boot(maxDogs), before);
            && Init(r, envs).attempts == r.deferred && Distinct(r.deferred)
            && Init(r, envs).deferred == []
            && PerformAll(Init(r, envs), after).done && PerformAll(Init(r, envs), after).deferred == []
  {
    var r := PerformAll(Boot(maxDogs), before);
    BooksAlwaysBalance(maxDogs, before);
    CallKeepsOrder(r, InitCall(envs));
    assert Balanced(r.(done := true));
    DrainEffect(r.(done := true), envs);
    CallsKeepOrder(Init(r, envs), after);
  }
}
