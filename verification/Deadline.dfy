/**
 The software-extended deadline. The user's timeout is longer than the hardware
 can count, so a worker pings the hardware on the user's behalf, and must stop
 doing so at exactly the moment that makes the hardware fire `timeout` seconds
 after the user's last ping.
 */
module Deadline {
  import opened Base
  import opened WatchdogCore

  /** What bounds a run: the latency of the worker, and the longest timeout SETTIMEOUT accepts. */
  datatype Terms = Terms(limit: nat, top: nat)

  function HwPeriod(c: Config): int { Ktime(c.maxHwMs) }

  function HalfPeriod(c: Config): int { Ktime(c.maxHwMs / 2) }

  function MinGap(c: Config): int { Ktime(c.minHwMs) }

  function UserPeriod(s: State): int { Ktime(TimeoutMs(s.timeout)) }

  /** The last moment at which a worker ping still respects the user's deadline. */
  function LastCall(c: Config, s: State): int {
    s.lastKeepalive + UserPeriod(s) - HwPeriod(c)
  }

  predicate DeadlinePassed(s: State) { s.now >= s.lastKeepalive + UserPeriod(s) }

  /** SETTIMEOUT to another timeout that only software can provide. */
  predicate ExtendedChange(c: Config, t: Terms, e: Event) {
    e.ChangeTimeout? && !e.fails && c.maxHwMs < TimeoutMs(e.request) <= TimeoutMs(t.top)
  }

  /** User pings by any route, timer expiries, worker runs and the passing of time. */
  predicate Feeding(c: Config, t: Terms, e: Event) {
    e.Tick? || e.TimerFires? || e.WorkerRuns? || e.Keepalive? || e.UserWrite? || ExtendedChange(c, t, e)
  }

  predicate AllFeeding(c: Config, t: Terms, es: seq<Event>) { forall i :: 0 <= i < |es| ==> Feeding(c, t, es[i]) }

  /** A device about to be started whose timeout only software can provide; a timer or work item may be pending. */
  predicate Extended(c: Config, t: Terms, s: State) {
    && c.Valid() && c.driver.Generic?
    && 1 <= c.maxHwMs < TimeoutMs(s.timeout)
    && s.attached && !s.active
    && (s.work.Some? ==> s.work.value <= s.now <= s.work.value + t.limit)
  }

  predicate IsRun(c: Config, t: Terms, s0: State, es: seq<Event>)
    requires c.Valid()
  {
    AllFeeding(c, t, es) && Possible(c, Start(c, s0, false), es) && Punctual(c, t.limit, Start(c, s0, false), es)
  }

  function EndState(c: Config, t: Terms, s0: State, es: seq<Event>): State
    requires c.Valid() && IsRun(c, t, s0, es)
  {
    After(c, Start(c, s0, false), es)
  }

  /** The hardware's own countdown: reloaded by the start and whenever the driver pings or starts it. */
  function ReloadedAt(c: Config, t: Terms, s0: State, es: seq<Event>): int
    requires c.Valid() && IsRun(c, t, s0, es)
  {
    if es == [] then s0.now
    else if EndState(c, t, s0, es).hwOps != EndState(c, t, s0, Front(es)).hwOps then EndState(c, t, s0, es).now
    else ReloadedAt(c, t, s0, Front(es))
  }

  /** The hardware has gone a whole period without being reloaded and has fired. */
  predicate HardwareFired(c: Config, t: Terms, s0: State, es: seq<Event>)
    requires c.Valid() && IsRun(c, t, s0, es)
  {
    EndState(c, t, s0, es).now >= ReloadedAt(c, t, s0, es) + HwPeriod(c)
  }

  /** One more event makes a longer run. */
  lemma Extend(c: Config, t: Terms, s0: State, es: seq<Event>, e: Event)
    requires c.Valid() && IsRun(c, t, s0, es) && Feeding(c, t, e)
    requires Enabled(EndState(c, t, s0, es), e) && Timely(t.limit, EndState(c, t, s0, es), e)
    ensures IsRun(c, t, s0, es + [e])
    ensures EndState(c, t, s0, es + [e]) == Apply(c, EndState(c, t, s0, es), e)
  {
    RunSnoc(c, t.limit, Start(c, s0, false), es, e);
  }

  // ---------------------------------------------------------------- shape of one ping

  predicate Running(c: Config, s: State) {
    c.Valid() && c.driver.Generic? && 1 <= c.maxHwMs < TimeoutMs(s.timeout) && s.attached && s.active
  }

  /** What `__watchdog_ping` does to an active device in this mode. */
  lemma PingShape(c: Config, s: State)
    requires Running(c, s)
    ensures var s' := HwPing(c, s); var wait := Min(HalfPeriod(c), LastCall(c, s) - s.now);
            if s.lastHwKeepalive + MinGap(c) > s.now then
              s' == s.(timer := Some(s.lastHwKeepalive + MinGap(c)))
            else
              s' == s.(lastHwKeepalive := s.now, hwOps := s.hwOps + 1,
                       timer := if wait > 0 then Some(s.now + wait) else s.timer)
  {
  }

  lemma StartShape(c: Config, t: Terms, s: State)
    requires Extended(c, t, s)
    ensures var s' := Start(c, s, false); var wait := FreshWait(c, s.timeout);
            s' == s.(keepalive := true, active := true, hwOps := s.hwOps + 1,
                     lastKeepalive := s.now, lastHwKeepalive := s.now,
                     timer := if wait > 0 then Some(s.now + wait) else s.timer)
  {
  }

  /** The events that restart the user's deadline. */
  predicate IsUserPing(e: Event) {
    e.Keepalive? || (e.UserWrite? && e.data != [] && !Faults(e.data, e.fault)) || (e.ChangeTimeout? && !e.fails)
  }

  /** What such an event changes before it comes to `__watchdog_ping`. */
  function Touched(s: State, e: Event): State {
    s.(lastKeepalive := s.now, keepalive := true,
       timeout := if e.ChangeTimeout? then e.request else s.timeout,
       allowRelease := if e.UserWrite? then 'V' in ReadBytes(e.data, e.fault) else s.allowRelease)
  }

  /** Writes, keepalives and new timeouts are one ping of the touched device, or none. */
  lemma UserPingShape(c: Config, t: Terms, s: State, e: Event)
    requires Running(c, s) && Enabled(s, e) && (e.Keepalive? || e.UserWrite? || ExtendedChange(c, t, e))
    ensures var s' := Apply(c, s, e);
            s' == if IsUserPing(e) then HwPing(c, Touched(s, e)) else s.(allowRelease := s'.allowRelease)
  {
    if e.ChangeTimeout? {
      PingShape(c, Touched(s, e));
      PingShape(c, Touched(UpdateWorker(c, s.(timeout := e.request)), e));
    }
  }

  lemma StepReloads(c: Config, t: Terms, s: State, e: Event)
    requires Running(c, s) && Feeding(c, t, e) && Enabled(s, e)
    ensures var s' := Apply(c, s, e);
            Running(c, s') && s'.lastHwKeepalive == if s'.hwOps != s.hwOps then s'.now else s.lastHwKeepalive
  {
    match e
    case Tick(d) =>
    case TimerFires =>
    case WorkerRuns =>
      PingShape(c, s.(work := None));
    case _ =>
      UserPingShape(c, t, s, e);
      if IsUserPing(e) {
        PingShape(c, Touched(s, e));
      }
  }

  /** Along every run the core's own record of the last hardware ping is the hardware's countdown. */
  lemma {:induction false} RecordIsCountdown(c: Config, t: Terms, s0: State, es: seq<Event>)
    requires Extended(c, t, s0) && IsRun(c, t, s0, es)
    ensures Running(c, EndState(c, t, s0, es))
    ensures ReloadedAt(c, t, s0, es) == EndState(c, t, s0, es).lastHwKeepalive
  {
    if es == [] {
      StartShape(c, t, s0);
    } else {
      RecordIsCountdown(c, t, s0, Front(es));
      StepReloads(c, t, EndState(c, t, s0, Front(es)), Last(es));
    }
  }

  // ---------------------------------------------------------------- never too early

  /** The wait armed by a fresh user ping. */
  function FreshWait(c: Config, timeout: nat): int { Min(HalfPeriod(c), Ktime(TimeoutMs(timeout)) - HwPeriod(c)) }

  /** The longest wait the core can arm in a run that starts with timeout `first`. */
  function LongestWait(c: Config, t: Terms, first: nat): int {
    Max(Max(FreshWait(c, first), FreshWait(c, t.top)), MinGap(c))
  }

  /** No wait armed from here on exceeds `w`. */
  predicate WaitsWithin(c: Config, t: Terms, w: int, s: State) {
    FreshWait(c, s.timeout) <= w && FreshWait(c, t.top) <= w && MinGap(c) <= w
  }

  /** What is pending comes in time. */
  predicate PendingWithin(t: Terms, w: int, s: State) {
    && s.lastHwKeepalive <= s.now && s.lastKeepalive <= s.now
    && (s.timer.Some? ==> s.now <= s.timer.value <= s.lastHwKeepalive + w)
    && (s.work.Some? ==> s.work.value <= s.now <= s.work.value + t.limit && s.work.value <= s.lastHwKeepalive + w)
  }

  /** Someone is on the way to ping in time, or the last call has been answered. */
  predicate Fed(c: Config, t: Terms, w: int, s: State) {
    && Running(c, s) && WaitsWithin(c, t, w, s) && PendingWithin(t, w, s)
    && (s.timer.None? && s.work.None? ==> s.lastHwKeepalive >= LastCall(c, s))
  }

  lemma PingKeepsFed(c: Config, t: Terms, w: int, s: State)
    requires Running(c, s) && c.maxHwMs >= 2 && WaitsWithin(c, t, w, s) && PendingWithin(t, w, s)
    ensures Fed(c, t, w, HwPing(c, s))
  {
    PingShape(c, s);
  }

  lemma UserKeepsFed(c: Config, t: Terms, w: int, s: State, e: Event)
    requires c.maxHwMs >= 2 && Fed(c, t, w, s)
    requires Enabled(s, e) && (e.Keepalive? || e.UserWrite? || ExtendedChange(c, t, e))
    ensures Fed(c, t, w, Apply(c, s, e))
  {
    UserPingShape(c, t, s, e);
    if IsUserPing(e) {
      PingKeepsFed(c, t, w, Touched(s, e));
    }
  }

  lemma StepKeepsFed(c: Config, t: Terms, w: int, s: State, e: Event)
    requires c.maxHwMs >= 2 && Fed(c, t, w, s)
    requires Feeding(c, t, e) && Enabled(s, e) && Timely(t.limit, s, e)
    ensures Fed(c, t, w, Apply(c, s, e))
  {
    match e
    case Tick(d) =>
    case TimerFires =>
    case WorkerRuns =>
      PingKeepsFed(c, t, w, s.(work := None));
    case _ =>
      UserKeepsFed(c, t, w, s, e);
  }

  lemma {:induction false} RunKeepsFed(c: Config, t: Terms, s0: State, es: seq<Event>)
    requires Extended(c, t, s0) && c.maxHwMs >= 2 && IsRun(c, t, s0, es)
    ensures Fed(c, t, LongestWait(c, t, s0.timeout), EndState(c, t, s0, es))
  {
    if es == [] {
      StartShape(c, t, s0);
    } else {
      RunKeepsFed(c, t, s0, Front(es));
      StepKeepsFed(c, t, LongestWait(c, t, s0.timeout), EndState(c, t, s0, Front(es)), Last(es));
    }
  }

  /** In no run does the hardware fire before the user's deadline. */
  ghost predicate NeverEarly(c: Config, t: Terms, s0: State)
    requires c.Valid()
  {
    forall es: seq<Event> :: IsRun(c, t, s0, es) ==>
      (HardwareFired(c, t, s0, es) ==> DeadlinePassed(EndState(c, t, s0, es)))
  }

  lemma FedNotEarly(c: Config, t: Terms, w: int, s: State)
    requires Fed(c, t, w, s)
    ensures w + t.limit < HwPeriod(c) && s.now >= s.lastHwKeepalive + HwPeriod(c) ==> DeadlinePassed(s)
  {
  }

  /**
   As long as the longest armed wait and the latency together stay below the
   hardware period, the hardware never fires before the user's deadline.
   */
  lemma NeverFiresEarly(c: Config, t: Terms, s0: State)
    requires Extended(c, t, s0) && c.maxHwMs >= 2
    requires LongestWait(c, t, s0.timeout) + t.limit < HwPeriod(c)
    ensures NeverEarly(c, t, s0)
  {
    forall es: seq<Event> | IsRun(c, t, s0, es)
      ensures HardwareFired(c, t, s0, es) ==> DeadlinePassed(EndState(c, t, s0, es))
    {
      RunKeepsFed(c, t, s0, es);
      RecordIsCountdown(c, t, s0, es);
      FedNotEarly(c, t, LongestWait(c, t, s0.timeout), EndState(c, t, s0, es));
    }
  }

  // ---------------------------------------------------------------- runs that are too early

  /** A run in which the hardware has fired and the user's deadline has not passed. */
  predicate FiresTooEarly(c: Config, t: Terms, s0: State, es: seq<Event>)
    requires c.Valid()
  {
    IsRun(c, t, s0, es) && HardwareFired(c, t, s0, es) && !DeadlinePassed(EndState(c, t, s0, es))
  }

  /** Just after a hardware ping for the user: nothing queued, the timer armed with a fresh wait. */
  predicate JustPinged(c: Config, s: State, timeout: nat) {
    && Running(c, s) && s.timeout == timeout && s.handles > 0
    && s.lastKeepalive == s.lastHwKeepalive == s.now
    && s.work.None? && s.timer == Some(s.now + FreshWait(c, timeout))
  }

  /** Whatever was pending at the start, once the worker has run nothing is queued, and neither clock has moved. */
  lemma WorkDone(c: Config, t: Terms, s0: State) returns (es: seq<Event>)
    requires Extended(c, t, s0)
    ensures IsRun(c, t, s0, es)
    ensures var s := EndState(c, t, s0, es);
            && Running(c, s) && s.work.None? && s.now == s0.now && s.timeout == s0.timeout && s.handles == s0.handles
            && s.lastKeepalive == s.lastHwKeepalive == s.now
            && (c.maxHwMs == 1 && c.minHwMs == 0 ==> s.timer == s0.timer)
  {
    StartShape(c, t, s0);
    es := [];
    assert IsRun(c, t, s0, es) && EndState(c, t, s0, es) == Start(c, s0, false);
    if s0.work.Some? {
      PingShape(c, Start(c, s0, false).(work := None));
      Extend(c, t, s0, es, WorkerRuns);
      es := es + [WorkerRuns];
    }
  }

  /** A keepalive right after a hardware ping is put off by the minimum gap, if there is one. */
  lemma KeepaliveAtOnce(c: Config, t: Terms, s0: State, es: seq<Event>)
    requires c.Valid() && IsRun(c, t, s0, es)
    requires var s := EndState(c, t, s0, es);
             Running(c, s) && s.handles > 0 && s.work.None? && s.lastKeepalive == s.lastHwKeepalive == s.now
    ensures IsRun(c, t, s0, es + [Keepalive])
    ensures var s, s' := EndState(c, t, s0, es), EndState(c, t, s0, es + [Keepalive]);
            && s' == s.(keepalive := true, hwOps := s'.hwOps, timer := s'.timer)
            && (MinGap(c) > 0 ==> s'.timer == Some(s.now + MinGap(c)))
  {
    var s := EndState(c, t, s0, es);
    UserPingShape(c, t, s, Keepalive);
    PingShape(c, Touched(s, Keepalive));
    Extend(c, t, s0, es, Keepalive);
  }

  /** A keepalive, then the minimum gap: whatever was armed before, time may now pass that far. */
  lemma GapPasses(c: Config, t: Terms, s0: State) returns (es: seq<Event>)
    requires Extended(c, t, s0) && s0.handles > 0
    ensures IsRun(c, t, s0, es)
    ensures var s := EndState(c, t, s0, es);
            && Running(c, s) && s.work.None? && s.timeout == s0.timeout && s.handles == s0.handles
            && s.now == s.lastHwKeepalive + MinGap(c)
  {
    es := WorkDone(c, t, s0);
    KeepaliveAtOnce(c, t, s0, es);
    es := es + [Keepalive];
    if MinGap(c) > 0 {
      Extend(c, t, s0, es, Tick(MinGap(c)));
      es := es + [Tick(MinGap(c))];
    }
  }

  /** From every start, a run to a fresh hardware ping, with the first or with the longest timeout. */
  lemma FreshRun(c: Config, t: Terms, s0: State, change: bool) returns (es: seq<Event>)
    requires Extended(c, t, s0) && c.maxHwMs >= 2 && s0.handles > 0
    requires change ==> c.maxHwMs < TimeoutMs(t.top)
    ensures IsRun(c, t, s0, es)
    ensures JustPinged(c, EndState(c, t, s0, es), if change then t.top else s0.timeout)
  {
    es := GapPasses(c, t, s0);
    var s := EndState(c, t, s0, es);
    var e := if change then ChangeTimeout(t.top, false) else Keepalive;
    UserPingShape(c, t, s, e);
    PingShape(c, Touched(s, e));
    Extend(c, t, s0, es, e);
    es := es + [e];
  }

  /** A worker that may be so late that a fresh wait plus its latency reach the hardware period can be too late. */
  lemma LateWorkerRun(c: Config, t: Terms, s0: State, change: bool) returns (es: seq<Event>)
    requires Extended(c, t, s0) && c.maxHwMs >= 2 && s0.handles > 0
    requires change ==> c.maxHwMs < TimeoutMs(t.top)
    requires FreshWait(c, if change then t.top else s0.timeout) + t.limit >= HwPeriod(c)
    ensures FiresTooEarly(c, t, s0, es)
  {
    es := FreshRun(c, t, s0, change);
    var wait := FreshWait(c, if change then t.top else s0.timeout);
    Extend(c, t, s0, es, Tick(wait));
    es := es + [Tick(wait)];
    Extend(c, t, s0, es, TimerFires);
    es := es + [TimerFires];
    Extend(c, t, s0, es, Tick(HwPeriod(c) - wait));
    es := es + [Tick(HwPeriod(c) - wait)];
    RecordIsCountdown(c, t, s0, es);
  }

  /** So can a user ping that falls within the minimum gap and is put off. */
  lemma DeferredPingRun(c: Config, t: Terms, s0: State) returns (es: seq<Event>)
    requires Extended(c, t, s0) && c.maxHwMs >= 2 && s0.handles > 0
    requires MinGap(c) > 0 && MinGap(c) + t.limit >= HwPeriod(c)
    ensures FiresTooEarly(c, t, s0, es)
  {
    es := FreshRun(c, t, s0, false);
    KeepaliveAtOnce(c, t, s0, es);
    es := es + [Keepalive];
    var wait := Min(MinGap(c), HwPeriod(c));
    Extend(c, t, s0, es, Tick(wait));
    es := es + [Tick(wait)];
    if wait < HwPeriod(c) {
      Extend(c, t, s0, es, TimerFires);
      es := es + [TimerFires];
      Extend(c, t, s0, es, Tick(HwPeriod(c) - wait));
      es := es + [Tick(HwPeriod(c) - wait)];
    }
    RecordIsCountdown(c, t, s0, es);
  }

  /** Nothing stands in the way of a whole hardware period without a ping. */
  lemma PeriodPasses(c: Config, t: Terms, s0: State, es: seq<Event>)
    requires Extended(c, t, s0) && IsRun(c, t, s0, es)
    requires var s := EndState(c, t, s0, es);
             && s.work.None? && (s.timer.Some? ==> s.now + HwPeriod(c) <= s.timer.value)
             && s.lastHwKeepalive == s.now && s.now + HwPeriod(c) < s.lastKeepalive + UserPeriod(s)
    ensures FiresTooEarly(c, t, s0, es + [Tick(HwPeriod(c))])
  {
    Extend(c, t, s0, es, Tick(HwPeriod(c)));
    RecordIsCountdown(c, t, s0, es + [Tick(HwPeriod(c))]);
  }

  /** A one-millisecond heartbeat rounds to a zero interval, the core arms no timer, and the hardware fires early. */
  lemma StarvedRun(c: Config, t: Terms, s0: State) returns (es: seq<Event>)
    requires Extended(c, t, s0) && c.maxHwMs == 1 && (c.minHwMs == 0 || s0.handles > 0)
    ensures FiresTooEarly(c, t, s0, es)
  {
    es := WorkDone(c, t, s0);
    if c.minHwMs > 0 {
      KeepaliveAtOnce(c, t, s0, es);
      es := es + [Keepalive];
    } else if s0.timer.Some? && s0.timer.value < s0.now + HwPeriod(c) {
      es := PendingTimerRuns(c, t, s0, es);
    }
    PeriodPasses(c, t, s0, es);
    es := es + [Tick(HwPeriod(c))];
  }

  lemma WorkerAtOnce(c: Config, s: State)
    requires Running(c, s) && c.maxHwMs == 1 && c.minHwMs == 0 && s.work.None? && Enabled(s, TimerFires)
    requires s.lastHwKeepalive <= s.now
    ensures Apply(c, s, TimerFires).work.Some?
    ensures Apply(c, Apply(c, s, TimerFires), WorkerRuns) ==
            s.(timer := None, lastHwKeepalive := s.now, hwOps := s.hwOps + 1)
  {
    PingShape(c, s.(timer := None));
  }

  /** With a zero interval, a due timer fires once and is not armed again. */
  lemma DueTimerRuns(c: Config, t: Terms, s0: State, es: seq<Event>)
    requires c.Valid() && c.maxHwMs == 1 && c.minHwMs == 0 && IsRun(c, t, s0, es)
    requires var s := EndState(c, t, s0, es);
             Running(c, s) && s.work.None? && s.timer.Some? && s.timer.value <= s.now && s.lastHwKeepalive <= s.now
    ensures IsRun(c, t, s0, es + [TimerFires] + [WorkerRuns])
    ensures var s, s' := EndState(c, t, s0, es), EndState(c, t, s0, es + [TimerFires] + [WorkerRuns]);
            s' == s.(timer := None, lastHwKeepalive := s.now, hwOps := s.hwOps + 1)
  {
    WorkerAtOnce(c, EndState(c, t, s0, es));
    Extend(c, t, s0, es, TimerFires);
    Extend(c, t, s0, es + [TimerFires], WorkerRuns);
  }

  /** A timer left over from before the start. */
  lemma PendingTimerRuns(c: Config, t: Terms, s0: State, before: seq<Event>) returns (es: seq<Event>)
    requires Extended(c, t, s0) && c.maxHwMs == 1 && c.minHwMs == 0 && IsRun(c, t, s0, before)
    requires s0.timer.Some? && s0.timer.value < s0.now + HwPeriod(c)
    requires var s := EndState(c, t, s0, before);
             Running(c, s) && s.work.None? && s.timer == s0.timer && s.lastKeepalive == s.lastHwKeepalive == s.now == s0.now
    ensures IsRun(c, t, s0, es)
    ensures var s := EndState(c, t, s0, es);
            && Running(c, s) && s.work.None? && s.timer.None? && s.lastHwKeepalive == s.now
            && s.lastKeepalive <= s.now < s.lastKeepalive + HwPeriod(c)
  {
    es := before;
    if s0.timer.value > s0.now {
      var wait := s0.timer.value - s0.now;
      Extend(c, t, s0, es, Tick(wait));
      es := es + [Tick(wait)];
    }
    DueTimerRuns(c, t, s0, es);
    es := es + [TimerFires] + [WorkerRuns];
  }

  /**
   For any minimum gap, any latency bound and whatever is pending at the start:
   no run lets the hardware fire early if and only if the half period is not
   rounded away and the longest armed wait plus the latency stay below the
   hardware period.
   */
  lemma NeverEarlyExact(c: Config, t: Terms, s0: State)
    requires Extended(c, t, s0) && s0.handles > 0
    ensures NeverEarly(c, t, s0) <==>
            c.maxHwMs >= 2 && LongestWait(c, t, s0.timeout) + t.limit < HwPeriod(c)
  {
    if c.maxHwMs >= 2 && LongestWait(c, t, s0.timeout) + t.limit < HwPeriod(c) {
      NeverFiresEarly(c, t, s0);
    } else {
      var es;
      if c.maxHwMs < 2 {
        es := StarvedRun(c, t, s0);
      } else if FreshWait(c, s0.timeout) + t.limit >= HwPeriod(c) {
        es := LateWorkerRun(c, t, s0, false);
      } else if FreshWait(c, t.top) + t.limit >= HwPeriod(c) && c.maxHwMs < TimeoutMs(t.top) {
        es := LateWorkerRun(c, t, s0, true);
      } else {
        es := DeferredPingRun(c, t, s0);
      }
      assert FiresTooEarly(c, t, s0, es);
    }
  }

  /** The start that an open makes, on behalf of the handle it is about to return. */
  function Opening(s: State): State { ClaimOpen(s).(handles := s.handles + 1) }

  lemma OpenIsStart(c: Config, t: Terms, s: State, moduleAlive: bool)
    requires Extended(c, t, s) && !s.devOpen && (s.hwRunning || moduleAlive)
    ensures Extended(c, t, Opening(s)) && Open(c, s, moduleAlive, false) == Start(c, Opening(s), false)
  {
    StartShape(c, t, ClaimOpen(s));
    StartShape(c, t, Opening(s));
  }

  /**
   The same equivalence for every open that starts the device, and so for the
   first open after registration, which finds the worker's timer armed.
   */
  lemma OpenNeverEarlyExact(c: Config, t: Terms, s: State, moduleAlive: bool)
    requires Extended(c, t, s) && !s.devOpen && (s.hwRunning || moduleAlive)
    ensures Open(c, s, moduleAlive, false) == Start(c, Opening(s), false)
    ensures NeverEarly(c, t, Opening(s)) <==>
            c.maxHwMs >= 2 && LongestWait(c, t, s.timeout) + t.limit < HwPeriod(c)
  {
    OpenIsStart(c, t, s, moduleAlive);
    NeverEarlyExact(c, t, Opening(s));
  }

  lemma RegisteredIsExtended(c: Config, t: Terms, now: int, timeout: nat, running: bool, bootHandled: bool, fired: bool)
    requires c.Valid() && c.driver.Generic? && 1 <= c.maxHwMs < TimeoutMs(timeout)
    ensures var s := Register(c, now, timeout, running, bootHandled, fired);
            && Extended(c, t, s) && !s.devOpen && s.hwRunning && s.timeout == timeout
            && (c.maxHwMs >= 2 ==> s.timer == Some(now + HalfPeriod(c)))
  {
  }

  // ---------------------------------------------------------------- never too late

  predicate PendingBounded(c: Config, s: State) {
    && (s.timer.Some? ==> s.timer.value <= LastCall(c, s))
    && (s.work.Some? ==> s.work.value <= LastCall(c, s))
  }

  predicate Bounded(c: Config, t: Terms, s: State) {
    s.lastHwKeepalive <= LastCall(c, s) + t.limit && PendingBounded(c, s)
  }

  lemma PingKeepsBounded(c: Config, t: Terms, s: State)
    requires Running(c, s) && c.maxHwMs >= 2 && c.minHwMs == 0
    requires s.lastHwKeepalive <= s.now <= LastCall(c, s) + t.limit
    requires s.work.Some? ==> s.work.value <= LastCall(c, s)
    requires s.now < LastCall(c, s) || (s.timer.Some? ==> s.timer.value <= LastCall(c, s))
    ensures Bounded(c, t, HwPing(c, s))
  {
    PingShape(c, s);
  }

  lemma UserKeepsBounded(c: Config, t: Terms, s: State, e: Event)
    requires Running(c, s) && c.maxHwMs >= 2 && c.minHwMs == 0 && Bounded(c, t, s)
    requires s.lastHwKeepalive <= s.now && (s.work.Some? ==> s.work.value <= s.now)
    requires Enabled(s, e) && (e.Keepalive? || e.UserWrite? || ExtendedChange(c, t, e))
    ensures Bounded(c, t, Apply(c, s, e))
  {
    UserPingShape(c, t, s, e);
    if IsUserPing(e) {
      PingKeepsBounded(c, t, Touched(s, e));
    }
  }

  lemma StepKeepsBounded(c: Config, t: Terms, w: int, s: State, e: Event)
    requires c.maxHwMs >= 2 && c.minHwMs == 0 && Fed(c, t, w, s) && Bounded(c, t, s)
    requires Feeding(c, t, e) && Enabled(s, e) && Timely(t.limit, s, e)
    ensures Bounded(c, t, Apply(c, s, e))
  {
    match e
    case Tick(d) =>
    case TimerFires =>
    case WorkerRuns =>
      PingKeepsBounded(c, t, s.(work := None));
    case _ =>
      UserKeepsBounded(c, t, s, e);
  }

  lemma {:induction false} RunKeepsBounded(c: Config, t: Terms, s0: State, es: seq<Event>)
    requires Extended(c, t, s0) && c.maxHwMs >= 2 && c.minHwMs == 0 && IsRun(c, t, s0, es)
    ensures Bounded(c, t, EndState(c, t, s0, es))
  {
    if es == [] {
      StartShape(c, t, s0);
    } else {
      RunKeepsFed(c, t, s0, Front(es));
      RunKeepsBounded(c, t, s0, Front(es));
      StepKeepsBounded(c, t, LongestWait(c, t, s0.timeout), EndState(c, t, s0, Front(es)), Last(es));
    }
  }

  /** The hardware fires no later than the deadline plus the worker's latency. */
  lemma FiresByDeadline(c: Config, t: Terms, s0: State, es: seq<Event>)
    requires Extended(c, t, s0) && c.maxHwMs >= 2 && c.minHwMs == 0 && IsRun(c, t, s0, es)
    ensures var s := EndState(c, t, s0, es);
            s.now >= s.lastKeepalive + UserPeriod(s) + t.limit ==> HardwareFired(c, t, s0, es)
  {
    RunKeepsBounded(c, t, s0, es);
    RecordIsCountdown(c, t, s0, es);
  }

  /** The worker never pings after its last call, latency aside. */
  lemma NoWorkerPingAfterLastCall(c: Config, t: Terms, s0: State, es: seq<Event>)
    requires Extended(c, t, s0) && c.maxHwMs >= 2 && c.minHwMs == 0 && IsRun(c, t, s0, es)
    requires es != [] && Last(es).WorkerRuns?
    ensures var s := EndState(c, t, s0, es); s.now <= LastCall(c, s) + t.limit
  {
    RunKeepsFed(c, t, s0, Front(es));
    RunKeepsBounded(c, t, s0, Front(es));
    var s := EndState(c, t, s0, Front(es));
    PingShape(c, s.(work := None));
  }

  // ---------------------------------------------------------------- exactly on time

  /** With a prompt worker, "the hardware has fired" and "the deadline has passed" are the same thing. */
  ghost predicate MeetsDeadlineExactly(c: Config, top: nat, s0: State)
    requires c.Valid()
  {
    forall es: seq<Event> :: IsRun(c, Terms(0, top), s0, es) ==>
      (HardwareFired(c, Terms(0, top), s0, es) <==> DeadlinePassed(EndState(c, Terms(0, top), s0, es)))
  }

  /** The deadline is met exactly if and only if half the hardware period is at least a millisecond. */
  lemma DeadlineExact(c: Config, top: nat, s0: State)
    requires Extended(c, Terms(0, top), s0) && c.minHwMs == 0
    ensures MeetsDeadlineExactly(c, top, s0) <==> c.maxHwMs >= 2
  {
    var t := Terms(0, top);
    if c.maxHwMs >= 2 {
      NeverFiresEarly(c, t, s0);
      forall es: seq<Event> | IsRun(c, t, s0, es)
        ensures HardwareFired(c, t, s0, es) <==> DeadlinePassed(EndState(c, t, s0, es))
      {
        FiresByDeadline(c, t, s0, es);
      }
    } else {
      var es := StarvedRun(c, t, s0);
      assert IsRun(c, t, s0, es);
    }
  }

  /** The milliseconds the core computes with are the seconds the user asked for exactly below 2^32 ms. */
  lemma TimeoutMsExact(timeout: nat)
    ensures TimeoutMs(timeout) == timeout * 1000 <==> timeout <= 4_294_967
  {
  }
}
