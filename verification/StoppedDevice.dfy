/**
 Who operates the hardware, and that nobody does once a device is stopped: a
 stop leaves a queued work item and perhaps a running worker behind.
 */
module StoppedDevice {
  import opened Base
  import opened WatchdogCore

  /** The user has not started it, or has stopped it, and the hardware is not marked running. */
  predicate Stopped(s: State) { !s.active && !s.hwRunning }

  /** The minimum gap since the last hardware ping is over. */
  predicate GapOver(c: Config, s: State) { s.now >= s.lastHwKeepalive + c.minHwMs * 1_000_000 }

  /** Pinged by the user or by the worker, the hardware is reached. */
  predicate Reachable(c: Config, s: State) {
    s.attached && (s.active || s.hwRunning) && GapOver(c, s)
  }

  /** The events that ping, start or restart the hardware in this state. */
  predicate Operates(c: Config, s: State, e: Event) {
    match e
    case WorkerRuns => Reachable(c, s)
    case Keepalive => Reachable(c, s)
    case UserWrite(data, fault) => Reachable(c, s) && data != [] && !(fault.Some? && fault.value < |data|)
    case ChangeTimeout(_, fails) => Reachable(c, s) && !fails
    case CloseDevice(fails) =>
      Reachable(c, s) && s.active && ((c.magicClose && !s.allowRelease) || c.noWayOut || (c.hasStop && fails))
    case EnableCard(_) => s.attached && !s.active
    case OpenDevice(moduleAlive, _) => !s.active && !s.devOpen && (s.hwRunning || moduleAlive)
    case _ => false
  }

  lemma HwPingOperates(c: Config, s: State)
    requires c.Valid()
    ensures HwPing(c, s).hwOps == s.hwOps + if GapOver(c, s) then 1 else 0
  {
  }

  lemma PingOperates(c: Config, s: State)
    requires c.Valid()
    ensures Ping(c, s).hwOps == s.hwOps + if (s.active || s.hwRunning) && GapOver(c, s) then 1 else 0
  {
    HwPingOperates(c, s.(keepalive := true, lastKeepalive := s.now));
  }

  lemma StartOperates(c: Config, s: State, fails: bool)
    requires c.Valid()
    ensures Start(c, s, fails).hwOps == s.hwOps + if s.active then 0 else 1
  {
  }

  lemma CloseOperates(c: Config, s: State, fails: bool)
    requires c.Valid() && s.handles > 0
    ensures Release(c, s, fails).hwOps == s.hwOps + if Operates(c, s, CloseDevice(fails)) then 1 else 0
  {
    var s1 := s.(handles := s.handles - 1, allowRelease := s.allowRelease && !s.active);
    PingOperates(c, s1);
    PingOperates(c, Stop(c, s1, fails));
  }

  lemma UserOperates(c: Config, s: State, e: Event)
    requires c.Valid() && Enabled(s, e) && (e.UserWrite? || e.Keepalive? || e.ChangeTimeout?)
    ensures Apply(c, s, e).hwOps == s.hwOps + if Operates(c, s, e) then 1 else 0
  {
    match e
    case UserWrite(data, fault) => PingOperates(c, s.(allowRelease := 'V' in ReadBytes(data, fault)));
    case Keepalive => PingOperates(c, s);
    case ChangeTimeout(request, fails) =>
      PingOperates(c, UpdateWorker(c, s.(timeout := OpStartTimeout(c, request))));
  }

  /** In every state, one event operates the hardware once or not at all, and exactly these do. */
  lemma OperationsExact(c: Config, s: State, e: Event)
    requires c.Valid() && Enabled(s, e)
    ensures Apply(c, s, e).hwOps == s.hwOps + if Operates(c, s, e) then 1 else 0
  {
    match e
    case Tick(d) =>
    case TimerFires =>
    case WorkerRuns => HwPingOperates(c, s.(work := None));
    case EnableCard(fails) => StartOperates(c, s, fails);
    case DisableCard(fails) =>
    case OpenDevice(alive, fails) => StartOperates(c, ClaimOpen(s), fails);
    case CloseDevice(fails) => CloseOperates(c, s, fails);
    case UnregisterDevice(fails) =>
    case _ => UserOperates(c, s, e);
  }

  // ---------------------------------------------------------------- after a stop

  predicate Starts(e: Event) { e.EnableCard? || e.OpenDevice? }

  /** Still stopped, the hardware not touched, and the timer as it was or disarmed. */
  predicate LeftAlone(s: State, r: State) {
    Stopped(r) && r.hwOps == s.hwOps && (r.timer == s.timer || r.timer == None)
  }

  lemma StepLeavesAlone(c: Config, s: State, e: Event)
    requires c.Valid() && Stopped(s) && Enabled(s, e) && !Starts(e)
    ensures LeftAlone(s, Apply(c, s, e))
  {
    match e
    case Tick(d) =>
    case TimerFires =>
    case WorkerRuns =>
    case UserWrite(data, fault) =>
    case Keepalive =>
    case DisableCard(fails) =>
    case ChangeTimeout(request, fails) =>
    case CloseDevice(fails) =>
    case UnregisterDevice(fails) =>
  }

  /**
   A stopped device, whatever timer or work is still pending, stays stopped and
   untouched in every run without a start or an open.
   */
  lemma {:induction false} StaysStopped(c: Config, s: State, es: seq<Event>)
    requires c.Valid() && Stopped(s) && Possible(c, s, es)
    requires forall i :: 0 <= i < |es| ==> !Starts(es[i])
    ensures LeftAlone(s, After(c, s, es))
  {
    if es != [] {
      StaysStopped(c, s, Front(es));
      StepLeavesAlone(c, After(c, s, Front(es)), Last(es));
    }
  }

  /** So an accepted DISABLECARD is final, though the work it leaves queued still runs. */
  lemma StopIsFinal(c: Config, s: State, es: seq<Event>)
    requires c.Valid() && s.active && s.attached && s.handles > 0
    requires c.hasStop && !c.stopKeepsRunning && !c.noWayOut
    requires Possible(c, Apply(c, s, DisableCard(false)), es) && forall i :: 0 <= i < |es| ==> !Starts(es[i])
    ensures var stopped := Apply(c, s, DisableCard(false)); var r := After(c, stopped, es);
            Stopped(r) && r.hwOps == s.hwOps && r.timer == None && stopped.work == s.work
  {
    StaysStopped(c, Apply(c, s, DisableCard(false)), es);
  }
}
