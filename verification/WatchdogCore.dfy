/**
 The watchdog core as a deterministic machine: one value for everything the
 code keeps, one function per locked section, and runs as sequences of events.
 Times are in nanoseconds, as the kernel's `ktime_t` is.
 */
module WatchdogCore {
  import opened Base
  import DesignWare

  const UINT_RANGE: nat := 0x1_0000_0000

  /** The driver operations, as far as they change what the core can see. */
  datatype Driver =
    | Generic                    // leaves wdd->timeout as it was asked
    | DesignWareTimer(rate: nat) // rounds wdd->timeout to a hardware period

  /** What registration fixes once and for all. */
  datatype Config = Config(
    driver: Driver,
    maxHwMs: nat,            // max_hw_heartbeat_ms
    minHwMs: nat,            // min_hw_heartbeat_ms
    noWayOut: bool,          // WDOG_NO_WAY_OUT
    magicClose: bool,        // WDIOF_MAGICCLOSE
    hasPing: bool,           // ops->ping is set
    hasStop: bool,           // ops->stop is set
    stopKeepsRunning: bool,  // ops->stop sets WDOG_HW_RUNNING again
    stopOnUnregister: bool   // WDOG_STOP_ON_UNREGISTER
  ) {
    predicate Valid() {
      driver.DesignWareTimer? ==> driver.rate >= 1
    }
  }

  datatype State = State(
    now: int,
    // struct watchdog_device
    timeout: nat,
    active: bool,
    hwRunning: bool,
    // struct watchdog_core_data
    attached: bool,          // wdd is not NULL
    devOpen: bool,
    allowRelease: bool,
    keepalive: bool,
    lastKeepalive: int,
    lastHwKeepalive: int,
    timer: Option<int>,      // expiry of the armed hrtimer
    work: Option<int>,       // when the pending work item was queued
    // the world around it
    hwOps: nat,              // hardware pings and starts so far
    handles: nat,            // open file handles
    moduleRefs: int
  )

  function Ktime(ms: int): int { ms * 1_000_000 }

  /** `timeout * 1000` in an unsigned int. */
  function TimeoutMs(timeout: nat): nat { timeout * 1000 % UINT_RANGE }

  function MinNotZero(x: nat, y: nat): nat {
    if x == 0 then y else if y == 0 then x else Min(x, y)
  }

  function OpStartTimeout(c: Config, timeout: nat): nat
    requires c.Valid()
  {
    match c.driver
    case Generic => timeout
    case DesignWareTimer(rate) => DesignWare.GrantedTimeout(rate, timeout)
  }

  // ---------------------------------------------------------------- locked sections

  /** The parts only the file operations and the queueing of work change. */
  predicate SameHolders(s: State, r: State) {
    && r.now == s.now && r.attached == s.attached && r.devOpen == s.devOpen
    && r.allowRelease == s.allowRelease && r.work == s.work
    && r.handles == s.handles && r.moduleRefs == s.moduleRefs
  }

  /** The two mode bits. */
  predicate SameMode(s: State, r: State) { r.active == s.active && r.hwRunning == s.hwRunning }

  predicate NeedWorker(c: Config, s: State) {
    var t := TimeoutMs(s.timeout);
    || (c.maxHwMs != 0 && s.active && t > c.maxHwMs)
    || (t != 0 && !s.active && s.hwRunning)
  }

  function HwHeartbeatMs(c: Config, s: State): nat {
    MinNotZero(TimeoutMs(s.timeout), c.maxHwMs)
  }

  function NextKeepalive(c: Config, s: State): int {
    var interval := Ktime(HwHeartbeatMs(c, s) / 2);
    if !s.active then interval
    else
      var virtTimeout := s.lastKeepalive + Ktime(TimeoutMs(s.timeout));
      var lastHeartbeat := virtTimeout - Ktime(HwHeartbeatMs(c, s));
      var latest := lastHeartbeat - s.now;
      if latest < interval then latest else interval
  }

  function UpdateWorker(c: Config, s: State): (r: State)
    ensures r == s.(timer := r.timer)
    ensures r.timer.Some? && s.timer.None? ==> NeedWorker(c, s) && r.timer.value > s.now
    ensures !NeedWorker(c, s) ==> r.timer.None?
  {
    if NeedWorker(c, s) then
      var t := NextKeepalive(c, s);
      if t > 0 then s.(timer := Some(s.now + t)) else s
    else
      s.(timer := None)
  }

  /** ops->start, when it succeeds. */
  function OpStart(c: Config, s: State): State
    requires c.Valid()
  {
    s.(hwOps := s.hwOps + 1, timeout := OpStartTimeout(c, s.timeout))
  }

  function OpPing(s: State): State { s.(hwOps := s.hwOps + 1) }

  /** `__watchdog_ping`. */
  function HwPing(c: Config, s: State): (r: State)
    requires c.Valid()
    ensures SameHolders(s, r) && SameMode(s, r)
    ensures c.hasPing ==> r.timeout == s.timeout
  {
    var earliest := s.lastHwKeepalive + Ktime(c.minHwMs);
    if earliest > s.now then
      s.(timer := Some(s.now + (earliest - s.now)))
    else
      var s1 := s.(lastHwKeepalive := s.now);
      var s2 := if c.hasPing then OpPing(s1) else OpStart(c, s1);
      UpdateWorker(c, s2)
  }

  function Ping(c: Config, s: State): (r: State)
    requires c.Valid()
    ensures SameHolders(s, r) && SameMode(s, r)
    ensures c.hasPing ==> r.timeout == s.timeout
  {
    if !s.active && !s.hwRunning then s
    else HwPing(c, s.(keepalive := true, lastKeepalive := s.now))
  }

  /** The locked body of `watchdog_ping_work`. */
  function PingWork(c: Config, s: State): (r: State)
    requires c.Valid()
    ensures SameHolders(s, r) && SameMode(s, r)
    ensures c.hasPing ==> r.timeout == s.timeout
  {
    if s.attached && (s.active || s.hwRunning) then HwPing(c, s) else s
  }

  /** `kthread_queue_work` leaves an already pending item alone. */
  function QueueWork(s: State): State {
    if s.work.None? then s.(work := Some(s.now)) else s
  }

  /** A running counter is pinged if the driver can; otherwise the driver's start is called. */
  function StartOp(c: Config, s: State, fails: bool): State
    requires c.Valid()
  {
    if (s.hwRunning && c.hasPing) || fails then OpPing(s) else OpStart(c, s)
  }

  function MarkStarted(c: Config, s: State): State {
    UpdateWorker(c, s.(active := true, lastKeepalive := s.now, lastHwKeepalive := s.now))
  }

  function Start(c: Config, s: State, fails: bool): (r: State)
    requires c.Valid()
    ensures SameHolders(s, r) && r.hwRunning == s.hwRunning && r.active == (s.active || !fails)
    ensures r.timeout == s.timeout || r.timeout == OpStartTimeout(c, s.timeout)
    ensures !s.active && !fails ==> r.lastKeepalive == r.lastHwKeepalive == s.now && UpdateWorker(c, r) == r
  {
    if s.active then s
    else
      var s1 := StartOp(c, s.(keepalive := true), fails);
      if fails then s1 else MarkStarted(c, s1)
  }

  predicate StopFails(c: Config, s: State, fails: bool) {
    s.active && (c.noWayOut || (c.hasStop && fails))
  }

  function Stop(c: Config, s: State, fails: bool): (r: State)
    ensures SameHolders(s, r) && r.active == StopFails(c, s, fails) && r.timeout == s.timeout
    ensures s.active && !c.noWayOut ==> r.hwRunning == (!c.hasStop || (c.stopKeepsRunning && !fails))
    ensures s.active && !r.active ==> UpdateWorker(c, r) == r
    ensures !s.active || c.noWayOut ==> r == s
  {
    if !s.active || c.noWayOut then s
    else
      var s1 := s.(hwRunning := if c.hasStop then c.stopKeepsRunning && !fails else true);
      if c.hasStop && fails then s1
      else UpdateWorker(c, s1.(active := false))
  }

  /** The bytes `watchdog_write` gets to read before `get_user` faults. */
  function ReadBytes(data: seq<char>, fault: Option<nat>): seq<char> {
    if fault.Some? && fault.value < |data| then data[..fault.value] else data
  }

  predicate Faults(data: seq<char>, fault: Option<nat>) {
    fault.Some? && fault.value < |data|
  }

  function Write(c: Config, s: State, data: seq<char>, fault: Option<nat>): State
    requires c.Valid()
  {
    if data == [] then s
    else
      var s1 := s.(allowRelease := 'V' in ReadBytes(data, fault));
      if Faults(data, fault) || !s1.attached then s1 else Ping(c, s1)
  }

  /** The SETTIMEOUT ioctl: set, update the worker, then ping; a driver that fails keeps its timeout and gets no ping. */
  function SetTimeout(c: Config, s: State, request: nat, fails: bool): State
    requires c.Valid()
  {
    if fails then UpdateWorker(c, s)
    else Ping(c, UpdateWorker(c, s.(timeout := OpStartTimeout(c, request))))
  }

  /** The open bit and, unless the hardware already holds it, the module reference. */
  function ClaimOpen(s: State): State {
    s.(devOpen := true, moduleRefs := if s.hwRunning then s.moduleRefs else s.moduleRefs + 1)
  }

  /** After the start attempt: a handle, or the error path of `watchdog_open`. */
  function FinishOpen(s: State): State {
    if s.active then s.(handles := s.handles + 1)
    else s.(devOpen := false, moduleRefs := s.moduleRefs - 1)
  }

  function Open(c: Config, s: State, moduleAlive: bool, fails: bool): State
    requires c.Valid()
  {
    if s.devOpen || (!s.hwRunning && !moduleAlive) then s
    else FinishOpen(Start(c, ClaimOpen(s), fails))
  }

  /** Closing stops an active device if the magic character came or is not asked for. */
  predicate CloseTriesStop(c: Config, s: State) {
    s.active && (s.allowRelease || !c.magicClose)
  }

  /** Stop if allowed to; if the device stays active, ping it. */
  function StopOrPing(c: Config, s: State, fails: bool): (r: State)
    requires c.Valid()
    ensures SameHolders(s.(allowRelease := s.allowRelease && !s.active), r)
    ensures r.active ==> s.active
    ensures c.hasPing ==> r.timeout == s.timeout
    ensures r.hwRunning != s.hwRunning ==> CloseTriesStop(c, s)
  {
    var s1 := s.(allowRelease := s.allowRelease && !s.active);
    var s2 := if CloseTriesStop(c, s) then Stop(c, s1, fails) else s1;
    if s2.active then Ping(c, s2) else s2
  }

  /** The locked part of a close. */
  function CloseLocked(c: Config, s: State, fails: bool): (r: State)
    requires c.Valid()
    ensures r.attached == s.attached && r.handles == s.handles && r.moduleRefs == s.moduleRefs
    ensures r.devOpen == (s.devOpen && !s.attached)
  {
    if s.attached then UpdateWorker(c, StopOrPing(c, s, fails)).(devOpen := false) else s
  }

  /** The module reference goes back unless the hardware keeps running. */
  function DropReference(s: State): State {
    if s.attached && s.hwRunning then s else s.(moduleRefs := s.moduleRefs - 1)
  }

  function Release(c: Config, s: State, fails: bool): State
    requires c.Valid()
    requires s.handles > 0
  {
    DropReference(CloseLocked(c, s.(handles := s.handles - 1), fails))
  }

  /** The whole of `watchdog_cdev_unregister`, with nothing interleaved. */
  function Unregister(c: Config, s: State, fails: bool): State {
    var s1 := if s.active && c.stopOnUnregister then Stop(c, s, fails) else s;
    s1.(attached := false, timer := None, work := None)
  }

  /**
   `watchdog_cdev_register`. `running` is WDOG_HW_RUNNING on entry, `bootHandled`
   the module parameter, and `fired` says that the immediate timer has gone off.
   */
  function CdevRegister(now: int, timeout: nat, running: bool, bootHandled: bool, fired: bool): State {
    var immediate := running && bootHandled;
    State(
      now, timeout, false, running,
      true, false, false, false, 0, now - 1,
      if immediate && !fired then Some(now) else None,
      if immediate && fired then Some(now) else None,
      0, 0, if running then 1 else 0)
  }

  /** The unconditional start at the end of `watchdog_dev_register`. */
  function StartRegistered(c: Config, s: State): State
    requires c.Valid()
  {
    var s1 := OpStart(c, s.(hwRunning := true));
    UpdateWorker(c, s1.(lastKeepalive := s.now, lastHwKeepalive := s.now))
  }

  function Register(c: Config, now: int, timeout: nat, running: bool, bootHandled: bool, fired: bool): State
    requires c.Valid()
  {
    StartRegistered(c, CdevRegister(now, timeout, running, bootHandled, fired))
  }

  // ---------------------------------------------------------------- runs

  datatype Event =
    | Tick(elapsed: nat)
    | TimerFires
    | WorkerRuns
    | UserWrite(data: seq<char>, fault: Option<nat>)
    | Keepalive
    | EnableCard(fails: bool)
    | DisableCard(fails: bool)
    | ChangeTimeout(request: nat, fails: bool)
    | OpenDevice(moduleAlive: bool, fails: bool)
    | CloseDevice(fails: bool)
    | UnregisterDevice(fails: bool)

  /** An hrtimer fires only once due; work runs only once queued; file operations need a handle. */
  predicate Enabled(s: State, e: Event) {
    match e
    case Tick(_) => true
    case TimerFires => s.timer.Some? && s.timer.value <= s.now
    case WorkerRuns => s.work.Some?
    case OpenDevice(_, _) => s.attached
    case UnregisterDevice(_) => s.attached
    case _ => s.handles > 0
  }

  /** With latency bound `limit`, time passes neither a due timer nor overdue work. */
  predicate Timely(limit: nat, s: State, e: Event) {
    e.Tick? ==>
      && (s.timer.Some? ==> s.now + e.elapsed <= s.timer.value)
      && (s.work.Some? ==> s.now + e.elapsed <= s.work.value + limit)
  }

  function Apply(c: Config, s: State, e: Event): State
    requires c.Valid() && Enabled(s, e)
  {
    match e
    case Tick(d) => s.(now := s.now + d)
    case TimerFires => QueueWork(s.(timer := None))
    case WorkerRuns => PingWork(c, s.(work := None))
    case UserWrite(data, fault) => Write(c, s, data, fault)
    case Keepalive => if s.attached then Ping(c, s) else s
    case EnableCard(fails) => if s.attached then Start(c, s, fails) else s
    case DisableCard(fails) => if s.attached then Stop(c, s, fails) else s
    case ChangeTimeout(request, fails) => if s.attached then SetTimeout(c, s, request, fails) else s
    case OpenDevice(moduleAlive, fails) => Open(c, s, moduleAlive, fails)
    case CloseDevice(fails) => Release(c, s, fails)
    case UnregisterDevice(fails) => Unregister(c, s, fails)
  }

  function Front(es: seq<Event>): seq<Event>
    requires es != []
  {
    es[..|es| - 1]
  }

  function Last(es: seq<Event>): Event
    requires es != []
  {
    es[|es| - 1]
  }

  /** Every event is enabled in the state it finds. */
  predicate Possible(c: Config, s: State, es: seq<Event>)
    requires c.Valid()
    decreases |es|, 0
  {
    es == [] || (Possible(c, s, Front(es)) && Enabled(After(c, s, Front(es)), Last(es)))
  }

  function After(c: Config, s: State, es: seq<Event>): State
    requires c.Valid() && Possible(c, s, es)
    decreases |es|, 1
  {
    if es == [] then s else Apply(c, After(c, s, Front(es)), Last(es))
  }

  /** A run within the latency bound. */
  predicate Punctual(c: Config, limit: nat, s: State, es: seq<Event>)
    requires c.Valid() && Possible(c, s, es)
  {
    es == [] || (Punctual(c, limit, s, Front(es)) && Timely(limit, After(c, s, Front(es)), Last(es)))
  }

  /** One more enabled, punctual event makes a longer run. */
  lemma RunSnoc(c: Config, limit: nat, s: State, es: seq<Event>, e: Event)
    requires c.Valid() && Possible(c, s, es) && Enabled(After(c, s, es), e)
    ensures Possible(c, s, es + [e]) && After(c, s, es + [e]) == Apply(c, After(c, s, es), e)
    ensures Punctual(c, limit, s, es) && Timely(limit, After(c, s, es), e) ==> Punctual(c, limit, s, es + [e])
  {
    assert Front(es + [e]) == es;
  }

  lemma {:induction false} PossiblePrefix(c: Config, s: State, es: seq<Event>, k: nat)
    requires c.Valid() && Possible(c, s, es) && k <= |es|
    ensures Possible(c, s, es[..k])
    ensures k < |es| ==> Enabled(After(c, s, es[..k]), es[k])
    ensures k < |es| ==> Possible(c, s, es[..k + 1]) && After(c, s, es[..k + 1]) == Apply(c, After(c, s, es[..k]), es[k])
  {
    if k == |es| {
      assert es[..k] == es;
    } else if k == |es| - 1 {
      assert es[..k + 1] == es;
    } else {
      PossiblePrefix(c, s, Front(es), k);
      assert Front(es)[..k] == es[..k];
      assert Front(es)[..k + 1] == es[..k + 1];
    }
  }
}
