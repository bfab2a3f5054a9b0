/**
 The worker of a device that nobody has opened yet but whose hardware runs, for
 a driver that leaves timeouts alone: with a heartbeat limit and without one.
 */
module UnopenedDevice {
  import opened Base
  import opened WatchdogCore

  /** The milliseconds after which the hardware fires: the timeout, or the driver's limit if it has a shorter one. */
  function Heartbeat(c: Config, timeout: nat): nat {
    if 0 < c.maxHwMs < TimeoutMs(timeout) then c.maxHwMs else TimeoutMs(timeout)
  }

  /** Half of it, in whole milliseconds. */
  function Half(c: Config, timeout: nat): int { Heartbeat(c, timeout) / 2 * 1_000_000 }

  function Period(c: Config, timeout: nat): int { Heartbeat(c, timeout) * 1_000_000 }

  predicate Unopened(c: Config, s: State) {
    && c.Valid() && c.driver.Generic? && c.minHwMs == 0
    && s.attached && !s.active && s.hwRunning && TimeoutMs(s.timeout) > 0
  }

  /** Before the first open only the clock, the timer and the worker act. */
  predicate IsUnattended(c: Config, limit: nat, s: State, es: seq<Event>)
    requires c.Valid()
  {
    && (forall i :: 0 <= i < |es| ==> es[i].Tick? || es[i].TimerFires? || es[i].WorkerRuns?)
    && Possible(c, s, es) && Punctual(c, limit, s, es)
  }

  /** The worker's interval does not depend on there being a heartbeat limit. */
  lemma WorkerInterval(c: Config, s: State)
    requires Unopened(c, s)
    ensures UpdateWorker(c, s) ==
            if Half(c, s.timeout) > 0 then s.(timer := Some(s.now + Half(c, s.timeout))) else s
  {
    assert HwHeartbeatMs(c, s) == Heartbeat(c, s.timeout);
  }

  lemma WorkerPings(c: Config, s: State)
    requires Unopened(c, s) && s.lastHwKeepalive <= s.now && s.work.Some?
    ensures var half := Half(c, s.timeout);
            Apply(c, s, WorkerRuns) ==
            s.(work := None, lastHwKeepalive := s.now, hwOps := s.hwOps + 1,
               timer := if half > 0 then Some(s.now + half) else s.timer)
  {
    var s1 := s.(work := None, lastHwKeepalive := s.now);
    WorkerInterval(c, if c.hasPing then OpPing(s1) else OpStart(c, s1));
  }

  predicate Fed(c: Config, limit: nat, s: State) {
    && Unopened(c, s) && s.lastHwKeepalive <= s.now
    && (s.timer.Some? ==> s.now <= s.timer.value <= s.lastHwKeepalive + Half(c, s.timeout))
    && (s.work.Some? ==> s.work.value <= s.now <= s.work.value + limit
                         && s.work.value <= s.lastHwKeepalive + Half(c, s.timeout))
    && (s.timer.Some? || s.work.Some?)
  }

  lemma {:induction false} RunKeepsFed(c: Config, limit: nat, s: State, es: seq<Event>)
    requires Fed(c, limit, s) && Half(c, s.timeout) > 0 && IsUnattended(c, limit, s, es)
    ensures Fed(c, limit, After(c, s, es)) && After(c, s, es).timeout == s.timeout
  {
    if es != [] {
      RunKeepsFed(c, limit, s, Front(es));
      if Last(es).WorkerRuns? {
        WorkerPings(c, After(c, s, Front(es)));
      }
    }
  }

  /** The hardware has gone a whole period without a ping. */
  predicate Starved(c: Config, s: State) { s.now >= s.lastHwKeepalive + Period(c, s.timeout) }

  ghost predicate NeverStarved(c: Config, limit: nat, s: State)
    requires c.Valid()
  {
    forall es: seq<Event> :: IsUnattended(c, limit, s, es) ==> !Starved(c, After(c, s, es))
  }

  /** What registration leaves: the hardware just started, the first worker ping armed unless its interval is zero. */
  lemma RegisterShape(c: Config, now: int, timeout: nat, running: bool, bootHandled: bool, fired: bool)
    requires c.Valid() && c.driver.Generic? && c.minHwMs == 0 && TimeoutMs(timeout) > 0
    ensures var s := Register(c, now, timeout, running, bootHandled, fired);
            && Unopened(c, s) && s.timeout == timeout && s.lastHwKeepalive == s.now == now
            && (s.work.Some? ==> s.work.value == now)
            && (if Half(c, timeout) > 0 then s.timer == Some(now + Half(c, timeout))
                else s.timer.None? || (s.timer == Some(now) && s.work.None?))
  {
    var s1 := OpStart(c, CdevRegister(now, timeout, running, bootHandled, fired).(hwRunning := true));
    WorkerInterval(c, s1.(lastKeepalive := now, lastHwKeepalive := now));
  }

  /** Work still queued runs at once. */
  lemma SettledRun(c: Config, limit: nat, s: State) returns (es: seq<Event>)
    requires Fed(c, limit, s) && s.lastHwKeepalive == s.now && s.timer == Some(s.now + Half(c, s.timeout))
    requires Half(c, s.timeout) > 0
    ensures IsUnattended(c, limit, s, es)
    ensures var r := After(c, s, es);
            r.work.None? && r.timeout == s.timeout && r.lastHwKeepalive == r.now && r.timer == Some(r.now + Half(c, r.timeout))
  {
    es := [];
    if s.work.Some? {
      WorkerPings(c, s);
      RunSnoc(c, limit, s, es, WorkerRuns);
      es := es + [WorkerRuns];
    }
  }

  /** The run in which the worker is as late as it may be. */
  lemma LatestRun(c: Config, limit: nat, s: State) returns (es: seq<Event>)
    requires Fed(c, limit, s) && s.lastHwKeepalive == s.now && s.timer == Some(s.now + Half(c, s.timeout))
    requires Half(c, s.timeout) > 0
    ensures IsUnattended(c, limit, s, es)
    ensures var r := After(c, s, es);
            r.timeout == s.timeout && r.now == r.lastHwKeepalive + Half(c, s.timeout) + limit
  {
    es := SettledRun(c, limit, s);
    var half := Half(c, s.timeout);
    RunSnoc(c, limit, s, es, Tick(half));
    RunSnoc(c, limit, s, es + [Tick(half)], TimerFires);
    RunSnoc(c, limit, s, es + [Tick(half)] + [TimerFires], Tick(limit));
    es := es + [Tick(half)] + [TimerFires] + [Tick(limit)];
  }

  /** With a zero interval what is pending runs at once, and nothing ever again. */
  lemma SilentRun(c: Config, limit: nat, s: State) returns (es: seq<Event>)
    requires Unopened(c, s) && Half(c, s.timeout) == 0 && s.lastHwKeepalive == s.now
    requires s.timer.None? || (s.timer == Some(s.now) && s.work.None?)
    ensures IsUnattended(c, limit, s, es)
    ensures Starved(c, After(c, s, es))
  {
    es := [];
    if s.timer.Some? {
      RunSnoc(c, limit, s, es, TimerFires);
      es := es + [TimerFires];
    }
    var s1 := After(c, s, es);
    if s1.work.Some? {
      WorkerPings(c, s1);
      RunSnoc(c, limit, s, es, WorkerRuns);
      es := es + [WorkerRuns];
    }
    RunSnoc(c, limit, s, es, Tick(Period(c, s.timeout)));
    es := es + [Tick(Period(c, s.timeout))];
  }

  lemma NeverStarvedExact(c: Config, limit: nat, s: State)
    requires Fed(c, limit, s) && s.lastHwKeepalive == s.now && s.timer == Some(s.now + Half(c, s.timeout))
    requires Half(c, s.timeout) > 0
    ensures NeverStarved(c, limit, s) <==> Half(c, s.timeout) + limit < Period(c, s.timeout)
  {
    if Half(c, s.timeout) + limit < Period(c, s.timeout) {
      forall es: seq<Event> | IsUnattended(c, limit, s, es)
        ensures !Starved(c, After(c, s, es))
      {
        RunKeepsFed(c, limit, s, es);
      }
    } else {
      var es := LatestRun(c, limit, s);
      assert Starved(c, After(c, s, es));
    }
  }

  /**
   From registration until the first open the hardware is never left alone for
   its whole period, in any run, if and only if half of that period is at least
   a millisecond and leaves room for the worker's latency. Without a limit of
   the driver's the period is the timeout.
   */
  lemma FedUntilOpened(c: Config, limit: nat, now: int, timeout: nat, running: bool, bootHandled: bool, fired: bool)
    requires c.Valid() && c.driver.Generic? && c.minHwMs == 0 && TimeoutMs(timeout) > 0
    ensures NeverStarved(c, limit, Register(c, now, timeout, running, bootHandled, fired)) <==>
            Heartbeat(c, timeout) >= 2 && Half(c, timeout) + limit < Period(c, timeout)
  {
    var s := Register(c, now, timeout, running, bootHandled, fired);
    RegisterShape(c, now, timeout, running, bootHandled, fired);
    if Heartbeat(c, timeout) >= 2 {
      NeverStarvedExact(c, limit, s);
    } else {
      var es := SilentRun(c, limit, s);
      assert Starved(c, After(c, s, es));
    }
  }
}
