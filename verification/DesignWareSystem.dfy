/** The core driving the DesignWare counter: whether the hardware is fed, cycle by cycle. */
module DesignWareSystem {
  import opened Base
  import opened WatchdogCore
  import DesignWare

  const NSEC_PER_SEC: int := 1_000_000_000

  /** What probe hands to registration. */
  function DwConfig(rate: nat, hasResetLine: bool, noWayOut: bool): Config
    requires rate >= 1
  {
    Config(DesignWareTimer(rate), DesignWare.MaxHeartbeatMs(rate), 0, noWayOut, true, true, true, !hasResetLine, false)
  }

  predicate UsableRate(rate: nat) { 1000 <= rate <= 0x8000_0000 }

  /**
   The down-counter: the selector in its register, the one it was last reloaded
   with, and when that was. A pulse on the reset line clears both selectors.
   */
  datatype Counter = Counter(selector: Option<nat>, loaded: Option<nat>, reloadedAt: int)

  /** Just reloaded. */
  function Reloaded(selector: Option<nat>, now: int): Counter { Counter(selector, selector, now) }

  /** The counter has cycles left. */
  predicate Alive(rate: nat, h: Counter, now: int) {
    h.loaded.Some? && (now - h.reloadedAt) * rate < DesignWare.Cycles(h.loaded.value) * NSEC_PER_SEC
  }

  /** Before the first open only the clock, the timer and the worker act. */
  predicate Unattended(es: seq<Event>) {
    forall i :: 0 <= i < |es| ==> es[i].Tick? || es[i].TimerFires? || es[i].WorkerRuns?
  }

  /**
   The register after one event: SETTIMEOUT and a start of a counter that is
   not running write it, and a stop by the reset line clears it.
   */
  function SelectorAfter(c: Config, s: State, e: Event, s': State, selector: Option<nat>): Option<nat>
    requires c.Valid() && c.driver.DesignWareTimer?
  {
    if e.ChangeTimeout? && s.attached then Some(DesignWare.SelectTop(c.driver.rate, e.request))
    else if !s.active && s'.active && !s.hwRunning then Some(DesignWare.SelectTop(c.driver.rate, s.timeout))
    else if s.active && !s'.active && !c.stopKeepsRunning then None
    else selector
  }

  function StepCounter(c: Config, s: State, e: Event, s': State, h: Counter): Counter
    requires c.Valid() && c.driver.DesignWareTimer?
  {
    var selector := SelectorAfter(c, s, e, s', h.selector);
    if s'.hwOps != s.hwOps then Reloaded(selector, s'.now)
    else if selector.None? then Reloaded(None, s'.now)
    else h.(selector := selector)
  }

  /** The counter along a run: started by registration, reloaded by every hardware operation. */
  function CounterAfter(c: Config, request: nat, s: State, es: seq<Event>): Counter
    requires c.Valid() && c.driver.DesignWareTimer? && Possible(c, s, es)
  {
    if es == [] then Reloaded(Some(DesignWare.SelectTop(c.driver.rate, request)), s.now)
    else
      StepCounter(c, After(c, s, Front(es)), Last(es), After(c, s, es), CounterAfter(c, request, s, Front(es)))
  }

  // ---------------------------------------------------------------- until the first open

  function Half(s: State): int { Ktime(s.timeout * 1000 / 2) }

  predicate Fed(c: Config, limit: nat, s: State) {
    && s.attached && !s.active && s.hwRunning
    && 1 <= s.timeout && s.timeout * 1000 <= c.maxHwMs <= DesignWare.INT_MAX
    && c.hasPing && c.minHwMs == 0
    && s.lastHwKeepalive <= s.now
    && (s.timer.Some? ==> s.now <= s.timer.value <= s.lastHwKeepalive + Half(s))
    && (s.work.Some? ==> s.work.value <= s.now <= s.work.value + limit
                         && s.work.value <= s.lastHwKeepalive + Half(s))
    && (s.timer.Some? || s.work.Some?)
  }

  lemma WorkerShape(c: Config, limit: nat, s: State)
    requires c.Valid() && Fed(c, limit, s) && s.work.Some?
    ensures Apply(c, s, WorkerRuns) ==
            s.(work := None, lastHwKeepalive := s.now, hwOps := s.hwOps + 1, timer := Some(s.now + Half(s)))
  {
  }

  lemma StepKeepsFed(c: Config, limit: nat, s: State, e: Event)
    requires c.Valid() && Fed(c, limit, s) && Enabled(s, e) && Timely(limit, s, e)
    requires e.Tick? || e.TimerFires? || e.WorkerRuns?
    ensures Fed(c, limit, Apply(c, s, e))
    ensures Apply(c, s, e).timeout == s.timeout
    ensures Apply(c, s, e).lastHwKeepalive == if e.WorkerRuns? then s.now else s.lastHwKeepalive
    ensures e.WorkerRuns? <==> Apply(c, s, e).hwOps != s.hwOps
  {
    if e.WorkerRuns? {
      WorkerShape(c, limit, s);
    }
  }

  lemma StartRegisteredShape(c: Config, s: State)
    requires c.Valid() && !s.active
    requires var granted := OpStartTimeout(c, s.timeout);
             1 <= granted && granted * 1000 <= c.maxHwMs <= DesignWare.INT_MAX
    ensures StartRegistered(c, s) ==
            s.(hwRunning := true, timeout := OpStartTimeout(c, s.timeout), hwOps := s.hwOps + 1,
               lastKeepalive := s.now, lastHwKeepalive := s.now,
               timer := Some(s.now + Ktime(OpStartTimeout(c, s.timeout) * 1000 / 2)))
  {
  }

  lemma RegisterFeeds(rate: nat, hasResetLine: bool, noWayOut: bool, limit: nat,
                      now: int, request: nat, running: bool, bootHandled: bool, fired: bool)
    requires UsableRate(rate) && request >= 1
    ensures var c := DwConfig(rate, hasResetLine, noWayOut);
            var s := Register(c, now, request, running, bootHandled, fired);
            Fed(c, limit, s) && s.timeout == DesignWare.GrantedTimeout(rate, request)
            && s.lastHwKeepalive == now == s.now && s.timer == Some(s.now + Half(s))
  {
    DesignWare.GrantedTimeoutBounds(rate, request);
    DesignWare.MaxHeartbeatFitsExact(rate);
    StartRegisteredShape(DwConfig(rate, hasResetLine, noWayOut), CdevRegister(now, request, running, bootHandled, fired));
  }

  lemma {:induction false} RunKeepsFed(c: Config, request: nat, limit: nat, s: State, es: seq<Event>)
    requires c.Valid() && c.driver.DesignWareTimer? && Fed(c, limit, s) && s.lastHwKeepalive == s.now
    requires Possible(c, s, es) && Punctual(c, limit, s, es) && Unattended(es)
    ensures Fed(c, limit, After(c, s, es)) && After(c, s, es).timeout == s.timeout
    ensures CounterAfter(c, request, s, es) ==
            Reloaded(Some(DesignWare.SelectTop(c.driver.rate, request)), After(c, s, es).lastHwKeepalive)
  {
    if es != [] {
      RunKeepsFed(c, request, limit, s, Front(es));
      StepKeepsFed(c, limit, After(c, s, Front(es)), Last(es));
    }
  }

  lemma ScaleWait(wait: int, seconds: int, unit: int, rate: int, cycles: int)
    requires wait < seconds * unit && seconds * rate <= cycles && rate >= 1 && unit >= 1
    ensures wait * rate < cycles * unit
  {
    assert wait * rate < (seconds * unit) * rate;
    assert (seconds * unit) * rate == (seconds * rate) * unit;
    assert (seconds * rate) * unit <= cycles * unit;
  }

  /** A wait shorter than the granted timeout leaves cycles in the counter. */
  lemma ShortWaitIsAlive(rate: nat, request: nat, wait: int)
    requires rate >= 1
    ensures wait < DesignWare.GrantedTimeout(rate, request) * NSEC_PER_SEC ==>
              wait * rate < DesignWare.Cycles(DesignWare.SelectTop(rate, request)) * NSEC_PER_SEC
  {
    DesignWare.PeriodCoversTimeout(rate, request);
    if wait < DesignWare.GrantedTimeout(rate, request) * NSEC_PER_SEC {
      ScaleWait(wait, DesignWare.GrantedTimeout(rate, request), NSEC_PER_SEC, rate,
                DesignWare.Cycles(DesignWare.SelectTop(rate, request)));
    }
  }

  predicate IsUnattendedRun(c: Config, limit: nat, s: State, es: seq<Event>)
    requires c.Valid()
  {
    Unattended(es) && Possible(c, s, es) && Punctual(c, limit, s, es)
  }

  /** The counter has cycles left after every unattended run. */
  ghost predicate AlwaysAlive(c: Config, request: nat, limit: nat, s: State)
    requires c.Valid() && c.driver.DesignWareTimer?
  {
    forall es: seq<Event> :: IsUnattendedRun(c, limit, s, es) ==>
      Alive(c.driver.rate, CounterAfter(c, request, s, es), After(c, s, es).now)
  }

  /** The longest stretch between two reloads costs fewer cycles than the counter holds. */
  predicate LatencyFits(rate: nat, request: nat, limit: nat, s: State)
    requires rate >= 1
  {
    (Half(s) + limit) * rate < DesignWare.Cycles(DesignWare.SelectTop(rate, request)) * NSEC_PER_SEC
  }

  lemma FedWait(c: Config, limit: nat, s: State)
    requires Fed(c, limit, s)
    ensures s.now - s.lastHwKeepalive <= Half(s) + limit
  {
  }

  lemma TimesRate(a: int, b: int, rate: nat)
    requires a <= b
    ensures a * rate <= b * rate
  {
  }

  lemma FedIsAlive(c: Config, request: nat, limit: nat, s: State, s': State, h: Counter)
    requires c.Valid() && c.driver.DesignWareTimer? && Fed(c, limit, s') && s'.timeout == s.timeout
    requires h == Reloaded(Some(DesignWare.SelectTop(c.driver.rate, request)), s'.lastHwKeepalive)
    ensures LatencyFits(c.driver.rate, request, limit, s) ==> Alive(c.driver.rate, h, s'.now)
  {
    FedWait(c, limit, s');
    TimesRate(s'.now - h.reloadedAt, Half(s) + limit, c.driver.rate);
  }

  /** The run in which the worker is as late as it may be. */
  lemma LatestRun(c: Config, request: nat, limit: nat, s: State) returns (es: seq<Event>)
    requires c.Valid() && c.driver.DesignWareTimer? && Fed(c, limit, s) && s.lastHwKeepalive == s.now
    requires s.timer == Some(s.now + Half(s))
    ensures IsUnattendedRun(c, limit, s, es)
    ensures After(c, s, es).now == s.now + Half(s) + limit
    ensures CounterAfter(c, request, s, es) == Reloaded(Some(DesignWare.SelectTop(c.driver.rate, request)), s.now)
  {
    es := [];
    if s.work.Some? {
      WorkerShape(c, limit, s);
      RunSnoc(c, limit, s, es, WorkerRuns);
      es := es + [WorkerRuns];
    }
    var start := es;
    RunSnoc(c, limit, s, start, Tick(Half(s)));
    RunSnoc(c, limit, s, start + [Tick(Half(s))], TimerFires);
    RunSnoc(c, limit, s, start + [Tick(Half(s))] + [TimerFires], Tick(limit));
    es := start + [Tick(Half(s))] + [TimerFires] + [Tick(limit)];
    RunKeepsFed(c, request, limit, s, es);
  }

  /** From a fed state with a freshly reloaded counter and a freshly armed timer, that condition is exact. */
  lemma AliveExact(c: Config, request: nat, limit: nat, s: State)
    requires c.Valid() && c.driver.DesignWareTimer? && Fed(c, limit, s) && s.lastHwKeepalive == s.now
    requires s.timer == Some(s.now + Half(s))
    ensures AlwaysAlive(c, request, limit, s) <==> LatencyFits(c.driver.rate, request, limit, s)
  {
    if LatencyFits(c.driver.rate, request, limit, s) {
      forall es: seq<Event> | IsUnattendedRun(c, limit, s, es)
        ensures Alive(c.driver.rate, CounterAfter(c, request, s, es), After(c, s, es).now)
      {
        RunKeepsFed(c, request, limit, s, es);
        FedIsAlive(c, request, limit, s, After(c, s, es), CounterAfter(c, request, s, es));
      }
    } else {
      var es := LatestRun(c, request, limit, s);
      assert !Alive(c.driver.rate, CounterAfter(c, request, s, es), After(c, s, es).now);
    }
  }

  /**
   For every usable clock rate and every requested timeout: from registration
   until the first open the counter never reaches zero, in any run, if and only
   if half the granted timeout plus the worker's latency cost fewer cycles than
   the counter holds.
   */
  lemma FedUntilOpened(rate: nat, hasResetLine: bool, noWayOut: bool, limit: nat,
                       now: int, request: nat, running: bool, bootHandled: bool, fired: bool)
    requires UsableRate(rate) && request >= 1
    ensures var c := DwConfig(rate, hasResetLine, noWayOut);
            var s := Register(c, now, request, running, bootHandled, fired);
            AlwaysAlive(c, request, limit, s) <==> LatencyFits(rate, request, limit, s)
  {
    var c := DwConfig(rate, hasResetLine, noWayOut);
    RegisterFeeds(rate, hasResetLine, noWayOut, limit, now, request, running, bootHandled, fired);
    AliveExact(c, request, limit, Register(c, now, request, running, bootHandled, fired));
  }

  /** A latency below half the granted timeout always fits, and so does any below half a second. */
  lemma PromptWorkerFits(rate: nat, hasResetLine: bool, noWayOut: bool, limit: nat,
                         now: int, request: nat, running: bool, bootHandled: bool, fired: bool)
    requires UsableRate(rate) && request >= 1
    ensures var s := Register(DwConfig(rate, hasResetLine, noWayOut), now, request, running, bootHandled, fired);
            && s.timeout == DesignWare.GrantedTimeout(rate, request) >= 1
            && (2 * limit < s.timeout * NSEC_PER_SEC ==> LatencyFits(rate, request, limit, s))
  {
    var s := Register(DwConfig(rate, hasResetLine, noWayOut), now, request, running, bootHandled, fired);
    RegisterFeeds(rate, hasResetLine, noWayOut, limit, now, request, running, bootHandled, fired);
    ShortWaitIsAlive(rate, request, Half(s) + limit);
  }

  // ---------------------------------------------------------------- in every state

  predicate WithinHardware(c: Config, s: State) { 1 <= s.timeout && s.timeout * 1000 <= c.maxHwMs }

  predicate SensibleRequests(es: seq<Event>) {
    forall i :: 0 <= i < |es| && es[i].ChangeTimeout? ==> es[i].request >= 1
  }

  /** Where a step can get a new timeout from when the driver can ping. */
  lemma TimeoutAfterStep(c: Config, s: State, e: Event)
    requires c.Valid() && c.hasPing && Enabled(s, e)
    ensures var timeout := Apply(c, s, e).timeout;
            || timeout == s.timeout
            || timeout == OpStartTimeout(c, s.timeout)
            || (e.ChangeTimeout? && timeout == OpStartTimeout(c, e.request))
  {
    match e
    case Tick(d) =>
    case TimerFires =>
    case WorkerRuns =>
    case UserWrite(data, fault) =>
    case Keepalive =>
    case EnableCard(fails) =>
    case DisableCard(fails) =>
    case ChangeTimeout(request, fails) =>
    case OpenDevice(alive, fails) =>
    case CloseDevice(fails) =>
    case UnregisterDevice(fails) =>
  }

  lemma StepStaysWithin(rate: nat, c: Config, s: State, e: Event)
    requires UsableRate(rate) && c.driver == DesignWareTimer(rate) && c.hasPing
    requires Enabled(s, e) && (e.ChangeTimeout? ==> e.request >= 1)
    ensures c.maxHwMs == DesignWare.MaxHeartbeatMs(rate) && WithinHardware(c, s) ==> WithinHardware(c, Apply(c, s, e))
  {
    TimeoutAfterStep(c, s, e);
    if s.timeout >= 1 {
      DesignWare.GrantedTimeoutBounds(rate, s.timeout);
    }
    if e.ChangeTimeout? {
      DesignWare.GrantedTimeoutBounds(rate, e.request);
    }
  }

  lemma {:induction false} RunStaysWithin(rate: nat, c: Config, s: State, es: seq<Event>)
    requires UsableRate(rate) && c.driver == DesignWareTimer(rate) && c.hasPing
    requires Possible(c, s, es) && SensibleRequests(es)
    ensures c.maxHwMs == DesignWare.MaxHeartbeatMs(rate) && WithinHardware(c, s) ==> WithinHardware(c, After(c, s, es))
  {
    if es != [] {
      RunStaysWithin(rate, c, s, Front(es));
      StepStaysWithin(rate, c, After(c, s, Front(es)), Last(es));
    }
  }

  lemma WithinNeedsNoWorker(rate: nat, c: Config, s: State)
    requires UsableRate(rate)
    ensures c.maxHwMs == DesignWare.MaxHeartbeatMs(rate) && WithinHardware(c, s) ==>
              TimeoutMs(s.timeout) == s.timeout * 1000 <= c.maxHwMs && (s.active ==> !NeedWorker(c, s))
  {
    DesignWare.MaxHeartbeatFitsExact(rate);
  }

  /**
   On this driver the core never has to extend a timeout in software: in every
   state of every run after registration the timeout fits the hardware, so an
   active device needs no worker.
   */
  lemma NeverExtended(rate: nat, hasResetLine: bool, noWayOut: bool,
                      now: int, request: nat, running: bool, bootHandled: bool, fired: bool, es: seq<Event>)
    requires UsableRate(rate) && request >= 1 && SensibleRequests(es)
    requires var c := DwConfig(rate, hasResetLine, noWayOut);
             Possible(c, Register(c, now, request, running, bootHandled, fired), es)
    ensures var c := DwConfig(rate, hasResetLine, noWayOut);
            var s := After(c, Register(c, now, request, running, bootHandled, fired), es);
            && TimeoutMs(s.timeout) == s.timeout * 1000 <= c.maxHwMs
            && (s.active ==> !NeedWorker(c, s))
  {
    var c := DwConfig(rate, hasResetLine, noWayOut);
    RegisterFeeds(rate, hasResetLine, noWayOut, 0, now, request, running, bootHandled, fired);
    var s := Register(c, now, request, running, bootHandled, fired);
    RunStaysWithin(rate, c, s, es);
    WithinNeedsNoWorker(rate, c, After(c, s, es));
  }

  // ---------------------------------------------------------------- while the device is active

  /** The operations of this driver all return zero. */
  predicate Succeeds(e: Event) {
    match e
    case EnableCard(fails) => !fails
    case DisableCard(fails) => !fails
    case ChangeTimeout(_, fails) => !fails
    case OpenDevice(_, fails) => !fails
    case CloseDevice(fails) => !fails
    case UnregisterDevice(fails) => !fails
    case _ => true
  }

  predicate AllSucceed(es: seq<Event>) { forall i :: 0 <= i < |es| ==> Succeeds(es[i]) }

  predicate DwLike(c: Config) {
    && c.driver.DesignWareTimer? && 1 <= c.driver.rate <= 0x8000_0000
    && c.hasPing && c.hasStop && c.minHwMs == 0 && !c.stopOnUnregister
  }

  /** The timeout is one the counter can count, and a counter that is in use counts it from the last ping on. */
  predicate Tracked(c: Config, s: State, h: Counter)
    requires DwLike(c)
  {
    var rate := c.driver.rate;
    && s.lastHwKeepalive <= s.now
    && DesignWare.GrantedTimeout(rate, s.timeout) == s.timeout
    && (h.selector.Some? ==> h.selector.value == DesignWare.SelectTop(rate, s.timeout))
    && (s.active || s.hwRunning ==> h.selector.Some?)
    && (s.active ==> h.loaded == h.selector && s.lastKeepalive <= h.reloadedAt <= s.now)
  }

  /** On this driver a ping always reaches the hardware. */
  lemma PingReloads(c: Config, s: State)
    requires DwLike(c) && s.lastHwKeepalive <= s.now
    ensures var r := HwPing(c, s); r == s.(lastHwKeepalive := s.now, hwOps := s.hwOps + 1, timer := r.timer)
  {
  }

  lemma UserPingReloads(c: Config, s: State)
    requires DwLike(c) && s.lastHwKeepalive <= s.now
    ensures var r := Ping(c, s);
            r == if !s.active && !s.hwRunning then s
                 else s.(keepalive := true, lastKeepalive := s.now, lastHwKeepalive := s.now,
                         hwOps := s.hwOps + 1, timer := r.timer)
  {
    PingReloads(c, s.(keepalive := true, lastKeepalive := s.now));
  }

  lemma StartReloads(c: Config, s: State)
    requires DwLike(c)
    ensures var r := Start(c, s, false);
            r == if s.active then s
                 else s.(active := true, keepalive := true, lastKeepalive := s.now, lastHwKeepalive := s.now,
                         hwOps := s.hwOps + 1, timer := r.timer,
                         timeout := if s.hwRunning then s.timeout else OpStartTimeout(c, s.timeout))
  {
  }

  lemma StopClears(c: Config, s: State)
    requires DwLike(c)
    ensures var r := Stop(c, s, false);
            r == if !s.active || c.noWayOut then s
                 else s.(active := false, hwRunning := c.stopKeepsRunning, timer := r.timer)
  {
  }

  /** The events of the clock, the worker and the user's pings. */
  lemma PingsTracked(c: Config, s: State, e: Event, h: Counter)
    requires DwLike(c) && Tracked(c, s, h) && Enabled(s, e)
    requires e.Tick? || e.TimerFires? || e.WorkerRuns? || e.UserWrite? || e.Keepalive? || e.UnregisterDevice?
    ensures Tracked(c, Apply(c, s, e), StepCounter(c, s, e, Apply(c, s, e), h))
  {
    match e
    case Tick(d) =>
    case TimerFires =>
    case WorkerRuns =>
      PingReloads(c, s.(work := None));
    case UserWrite(data, fault) =>
      UserPingReloads(c, s.(allowRelease := 'V' in ReadBytes(data, fault)));
    case Keepalive =>
      UserPingReloads(c, s);
    case UnregisterDevice(fails) =>
  }

  lemma StartTracked(c: Config, s: State, e: Event, h: Counter)
    requires DwLike(c) && Tracked(c, s, h) && Enabled(s, e) && Succeeds(e) && (e.EnableCard? || e.OpenDevice?)
    ensures Tracked(c, Apply(c, s, e), StepCounter(c, s, e, Apply(c, s, e), h))
  {
    StartReloads(c, s);
    StartReloads(c, ClaimOpen(s));
  }

  lemma DisableTracked(c: Config, s: State, h: Counter)
    requires DwLike(c) && Tracked(c, s, h)
    ensures var r := Stop(c, s, false); Tracked(c, r, StepCounter(c, s, DisableCard(false), r, h))
  {
    StopClears(c, s);
  }

  lemma CloseReloads(c: Config, s: State)
    requires DwLike(c) && s.lastHwKeepalive <= s.now && s.handles > 0
    ensures var r := Release(c, s, false); var stops := CloseTriesStop(c, s) && !c.noWayOut;
            && r.now == s.now && r.timeout == s.timeout && r.lastHwKeepalive <= r.now
            && (if !s.attached || !s.active then
                  r.active == s.active && r.hwRunning == s.hwRunning && r.hwOps == s.hwOps
                  && r.lastKeepalive == s.lastKeepalive
                else if stops then
                  !r.active && r.hwRunning == c.stopKeepsRunning && r.hwOps == s.hwOps
                else
                  r.active && r.hwRunning == s.hwRunning && r.hwOps == s.hwOps + 1 && r.lastKeepalive == s.now)
  {
    var s1 := s.(handles := s.handles - 1, allowRelease := s.allowRelease && !s.active);
    StopClears(c, s1);
    UserPingReloads(c, s1);
  }

  lemma CloseTracked(c: Config, s: State, h: Counter)
    requires DwLike(c) && Tracked(c, s, h) && s.handles > 0
    ensures var r := Release(c, s, false); Tracked(c, r, StepCounter(c, s, CloseDevice(false), r, h))
  {
    CloseReloads(c, s);
  }

  lemma ChangeTracked(c: Config, s: State, request: nat, h: Counter)
    requires DwLike(c) && Tracked(c, s, h) && s.attached
    ensures var r := SetTimeout(c, s, request, false);
            Tracked(c, r, StepCounter(c, s, ChangeTimeout(request, false), r, h))
  {
    DesignWare.SelectTopIdempotent(c.driver.rate, request);
    UserPingReloads(c, UpdateWorker(c, s.(timeout := OpStartTimeout(c, request))));
  }

  lemma StepTracked(c: Config, s: State, e: Event, h: Counter)
    requires DwLike(c) && Tracked(c, s, h) && Enabled(s, e) && Succeeds(e)
    ensures Tracked(c, Apply(c, s, e), StepCounter(c, s, e, Apply(c, s, e), h))
  {
    match e
    case EnableCard(_) => StartTracked(c, s, e, h);
    case OpenDevice(_, _) => StartTracked(c, s, e, h);
    case DisableCard(_) => DisableTracked(c, s, h);
    case CloseDevice(_) => CloseTracked(c, s, h);
    case ChangeTimeout(request, _) =>
      if s.attached {
        ChangeTracked(c, s, request, h);
      }
    case _ => PingsTracked(c, s, e, h);
  }

  lemma {:induction false} RunTracked(c: Config, request: nat, s: State, es: seq<Event>)
    requires DwLike(c) && Possible(c, s, es) && AllSucceed(es)
    requires Tracked(c, s, CounterAfter(c, request, s, []))
    ensures Tracked(c, After(c, s, es), CounterAfter(c, request, s, es))
  {
    if es != [] {
      RunTracked(c, request, s, Front(es));
      StepTracked(c, After(c, s, Front(es)), Last(es), CounterAfter(c, request, s, Front(es)));
    }
  }

  lemma RegisterTracked(rate: nat, hasResetLine: bool, noWayOut: bool,
                        now: int, request: nat, running: bool, bootHandled: bool, fired: bool)
    requires 1 <= rate <= 0x8000_0000
    ensures var c := DwConfig(rate, hasResetLine, noWayOut);
            var s := Register(c, now, request, running, bootHandled, fired);
            DwLike(c) && Tracked(c, s, CounterAfter(c, request, s, []))
  {
    DesignWare.SelectTopIdempotent(rate, request);
  }

  /**
   Over every run of all events after registration, latency unbounded: as long
   as the device is active and the user's last ping is less than the timeout
   ago, the counter has cycles left.
   */
  lemma AliveWhileActive(rate: nat, hasResetLine: bool, noWayOut: bool,
                         now: int, request: nat, running: bool, bootHandled: bool, fired: bool, es: seq<Event>)
    requires 1 <= rate <= 0x8000_0000 && AllSucceed(es)
    requires var c := DwConfig(rate, hasResetLine, noWayOut);
             Possible(c, Register(c, now, request, running, bootHandled, fired), es)
    ensures var c := DwConfig(rate, hasResetLine, noWayOut);
            var s0 := Register(c, now, request, running, bootHandled, fired);
            var s := After(c, s0, es);
            s.active && s.now < s.lastKeepalive + s.timeout * NSEC_PER_SEC ==>
              Alive(rate, CounterAfter(c, request, s0, es), s.now)
  {
    var c := DwConfig(rate, hasResetLine, noWayOut);
    var s0 := Register(c, now, request, running, bootHandled, fired);
    RegisterTracked(rate, hasResetLine, noWayOut, now, request, running, bootHandled, fired);
    RunTracked(c, request, s0, es);
    var s, h := After(c, s0, es), CounterAfter(c, request, s0, es);
    ShortWaitIsAlive(rate, s.timeout, s.now - h.reloadedAt);
  }
}
