/**
 What every event leaves, field by field and from the state it finds alone: the
 mode, the clocks, the timer, and who holds the device.
 */
module CoreTransitions {
  import opened Base
  import opened WatchdogCore
  import opened StoppedDevice

  // ---------------------------------------------------------------- conditions an event meets

  /** A user ping, whether or not the minimum gap lets it through. */
  predicate UserPings(s: State, e: Event) {
    match e
    case Keepalive => true
    case UserWrite(data, fault) => data != [] && !(fault.Some? && fault.value < |data|)
    case ChangeTimeout(_, fails) => !fails
    case _ => false
  }

  /** An attempt to start a device that is not active. */
  predicate TriesStart(s: State, e: Event) {
    match e
    case EnableCard(_) => s.attached && !s.active
    case OpenDevice(moduleAlive, _) => !s.active && !s.devOpen && (s.hwRunning || moduleAlive)
    case _ => false
  }

  predicate StartWorks(s: State, e: Event) {
    TriesStart(s, e) && !(if e.EnableCard? then e.fails else if e.OpenDevice? then e.fails else true)
  }

  /** The events that call for a stop: a close only when the magic character came or is not asked for. */
  predicate TriesStop(c: Config, s: State, e: Event) {
    s.attached && s.active && !c.noWayOut &&
    match e
    case DisableCard(_) => true
    case CloseDevice(_) => s.allowRelease || !c.magicClose
    case UnregisterDevice(_) => c.stopOnUnregister
    case _ => false
  }

  predicate StopWorks(c: Config, s: State, e: Event) {
    TriesStop(c, s, e) &&
    match e
    case DisableCard(fails) => !(c.hasStop && fails)
    case CloseDevice(fails) => !(c.hasStop && fails)
    case UnregisterDevice(fails) => !(c.hasStop && fails)
    case _ => false
  }

  /** A close that leaves the device active pings it. */
  predicate ClosePings(c: Config, s: State, e: Event) {
    e.CloseDevice? && s.attached && s.active && !StopWorks(c, s, e)
  }

  // ---------------------------------------------------------------- the mode

  predicate SameClocks(s: State, r: State) {
    r.lastKeepalive == s.lastKeepalive && r.lastHwKeepalive == s.lastHwKeepalive && r.now == s.now
  }

  predicate ModeAfter(c: Config, s: State, e: Event, r: State) {
    && r.active == ((s.active || StartWorks(s, e)) && !StopWorks(c, s, e))
    && r.hwRunning == if TriesStop(c, s, e) then !c.hasStop || (c.stopKeepsRunning && StopWorks(c, s, e)) else s.hwRunning
  }

  lemma StopMode(c: Config, s: State, fails: bool)
    ensures var r := Stop(c, s, fails); var works := s.active && !c.noWayOut && !(c.hasStop && fails);
            && r.active == (s.active && !works)
            && r.hwRunning == if s.active && !c.noWayOut then !c.hasStop || (c.stopKeepsRunning && works) else s.hwRunning
  {
  }

  lemma PingKeepsMode(c: Config, s: State)
    requires c.Valid()
    ensures SameMode(s, Ping(c, s))
  {
  }

  lemma CloseMode(c: Config, s: State, fails: bool)
    requires c.Valid() && s.handles > 0
    ensures ModeAfter(c, s, CloseDevice(fails), Release(c, s, fails))
  {
    var s1 := s.(handles := s.handles - 1, allowRelease := s.allowRelease && !s.active);
    StopMode(c, s1, fails);
    PingKeepsMode(c, s1);
    PingKeepsMode(c, Stop(c, s1, fails));
  }

  /** After every event, in every state, the device is active and marked running exactly as these conditions say. */
  lemma ModeExact(c: Config, s: State, e: Event)
    requires c.Valid() && Enabled(s, e)
    ensures ModeAfter(c, s, e, Apply(c, s, e))
  {
    match e
    case DisableCard(fails) => StopMode(c, s, fails);
    case CloseDevice(fails) => CloseMode(c, s, fails);
    case UnregisterDevice(fails) => StopMode(c, s, fails);
    case _ =>
  }

  // ---------------------------------------------------------------- the clocks

  predicate InUse(s: State) { s.attached && (s.active || s.hwRunning) }

  predicate ClocksAfter(c: Config, s: State, e: Event, r: State) {
    && r.now == s.now + (if e.Tick? then e.elapsed else 0)
    && r.lastKeepalive == (if (UserPings(s, e) && InUse(s)) || StartWorks(s, e) || ClosePings(c, s, e) then s.now
                           else s.lastKeepalive)
    && r.lastHwKeepalive == (if Operates(c, s, e) && (TriesStart(s, e) ==> StartWorks(s, e)) then s.now
                             else s.lastHwKeepalive)
  }

  lemma PingClocks(c: Config, s: State)
    requires c.Valid()
    ensures var r := HwPing(c, s);
            && r.lastKeepalive == s.lastKeepalive
            && r.lastHwKeepalive == if GapOver(c, s) then s.now else s.lastHwKeepalive
  {
  }

  lemma UserPingClocks(c: Config, s: State)
    requires c.Valid()
    ensures var r := Ping(c, s); var inUse := s.active || s.hwRunning;
            && r.lastKeepalive == (if inUse then s.now else s.lastKeepalive)
            && r.lastHwKeepalive == if inUse && GapOver(c, s) then s.now else s.lastHwKeepalive
  {
    PingClocks(c, s.(keepalive := true, lastKeepalive := s.now));
  }

  lemma StopKeepsClocks(c: Config, s: State, fails: bool)
    ensures SameClocks(s, Stop(c, s, fails))
  {
  }

  lemma UpdateKeepsClocks(c: Config, s: State)
    ensures SameClocks(s, UpdateWorker(c, s))
  {
  }

  lemma StartClocks(c: Config, s: State, fails: bool)
    requires c.Valid()
    ensures var r := Start(c, s, fails);
            if s.active || fails then SameClocks(s, r) else r.now == r.lastKeepalive == r.lastHwKeepalive == s.now
  {
  }

  /** What a close does to an attached device before it works the next ping out. */
  lemma CloseShape(c: Config, s: State, fails: bool)
    requires c.Valid() && s.handles > 0 && s.attached
    ensures var s1 := s.(handles := s.handles - 1, allowRelease := s.allowRelease && !s.active);
            var s2 := if TriesStop(c, s, CloseDevice(fails)) then Stop(c, s1, fails) else s1;
            var s3 := if ClosePings(c, s, CloseDevice(fails)) then Ping(c, s2) else s2;
            var r := Release(c, s, fails);
            r == UpdateWorker(c, s3).(devOpen := false, moduleRefs := r.moduleRefs)
  {
  }

  lemma CloseClocks(c: Config, s: State, fails: bool)
    requires c.Valid() && s.handles > 0
    ensures ClocksAfter(c, s, CloseDevice(fails), Release(c, s, fails))
  {
    if s.attached {
      var s1 := s.(handles := s.handles - 1, allowRelease := s.allowRelease && !s.active);
      var s2 := if TriesStop(c, s, CloseDevice(fails)) then Stop(c, s1, fails) else s1;
      CloseShape(c, s, fails);
      StopKeepsClocks(c, s1, fails);
      if ClosePings(c, s, CloseDevice(fails)) {
        StopMode(c, s1, fails);
        UserPingClocks(c, s2);
        UpdateKeepsClocks(c, Ping(c, s2));
      } else {
        UpdateKeepsClocks(c, s2);
      }
    }
  }

  lemma UserClocks(c: Config, s: State, e: Event)
    requires c.Valid() && Enabled(s, e) && (e.UserWrite? || e.Keepalive? || e.ChangeTimeout?)
    ensures ClocksAfter(c, s, e, Apply(c, s, e))
  {
    match e
    case UserWrite(data, fault) => UserPingClocks(c, s.(allowRelease := 'V' in ReadBytes(data, fault)));
    case Keepalive => UserPingClocks(c, s);
    case ChangeTimeout(request, fails) =>
      UserPingClocks(c, UpdateWorker(c, s.(timeout := OpStartTimeout(c, request))));
  }

  /** After every event, in every state, both timestamps are as these conditions say. */
  lemma ClocksExact(c: Config, s: State, e: Event)
    requires c.Valid() && Enabled(s, e)
    ensures ClocksAfter(c, s, e, Apply(c, s, e))
  {
    match e
    case Tick(d) =>
    case TimerFires =>
    case WorkerRuns => PingClocks(c, s.(work := None));
    case EnableCard(fails) => StartClocks(c, s, fails);
    case DisableCard(fails) => StopKeepsClocks(c, s, fails);
    case OpenDevice(alive, fails) => StartClocks(c, ClaimOpen(s), fails);
    case CloseDevice(fails) => CloseClocks(c, s, fails);
    case UnregisterDevice(fails) => StopKeepsClocks(c, s, fails);
    case _ => UserClocks(c, s, e);
  }

  // ---------------------------------------------------------------- the timer

  /**
   The timer that the worker of a device needs, in a state: none without need;
   before the first open half the heartbeat from now; for a timeout beyond the
   driver's limit half that limit from now, but no later than one limit before
   the user's deadline. A wait that is not positive leaves the timer as it was.
   */
  function WorkerTimer(c: Config, s: State, was: Option<int>): Option<int> {
    var t := s.timeout * 1000 % 0x1_0000_0000;
    var limited := 0 < c.maxHwMs < t;
    if s.active && limited then
      Armed(s.now, Min(c.maxHwMs / 2 * 1_000_000, s.lastKeepalive + (t - c.maxHwMs) * 1_000_000 - s.now), was)
    else if !s.active && s.hwRunning && t > 0 then
      Armed(s.now, (if limited then c.maxHwMs else t) / 2 * 1_000_000, was)
    else None
  }

  function Armed(now: int, wait: int, was: Option<int>): Option<int> { if wait > 0 then Some(now + wait) else was }

  lemma UpdateWorkerExact(c: Config, s: State)
    ensures UpdateWorker(c, s) == s.(timer := WorkerTimer(c, s, s.timer))
  {
  }

  /** The time before which the hardware may not be pinged again. */
  function GapEnd(c: Config, s: State): int { s.lastHwKeepalive + c.minHwMs * 1_000_000 }

  /** The event ends by working out the worker's next ping. */
  predicate Reschedules(c: Config, s: State, e: Event) {
    match e
    case WorkerRuns => Reachable(c, s)
    case Keepalive => Reachable(c, s)
    case UserWrite(_, _) => UserPings(s, e) && Reachable(c, s)
    case ChangeTimeout(_, fails) => s.attached && (fails || !InUse(s) || GapOver(c, s))
    case CloseDevice(_) => s.attached
    case _ => StartWorks(s, e) || (StopWorks(c, s, e) && !e.UnregisterDevice?)
  }

  /** A ping that the minimum gap puts off. */
  predicate Defers(c: Config, s: State, e: Event) {
    InUse(s) && !GapOver(c, s) && (e.WorkerRuns? || UserPings(s, e) || ClosePings(c, s, e))
  }

  /** A new timeout works the next ping out once more, before the ping that follows it. */
  predicate NewTimeout(s: State, e: Event) { e.ChangeTimeout? && !e.fails && s.attached }

  predicate TimerAfter(c: Config, s: State, e: Event, r: State)
    requires c.Valid()
  {
    var was := if Defers(c, s, e) then Some(GapEnd(c, s))
               else if NewTimeout(s, e) then WorkerTimer(c, s.(timeout := OpStartTimeout(c, e.request)), s.timer)
               else s.timer;
    r.timer == if e.TimerFires? || e.UnregisterDevice? then None
               else if Reschedules(c, s, e) then WorkerTimer(c, r, was)
               else was
  }

  lemma PingTimer(c: Config, s: State)
    requires c.Valid()
    ensures var r := HwPing(c, s);
            r.timer == if GapOver(c, s) then WorkerTimer(c, r, s.timer) else Some(GapEnd(c, s))
  {
    if GapOver(c, s) {
      var s1 := s.(lastHwKeepalive := s.now);
      UpdateWorkerExact(c, if c.hasPing then OpPing(s1) else OpStart(c, s1));
    }
  }

  lemma UserPingTimer(c: Config, s: State)
    requires c.Valid()
    ensures var r := Ping(c, s);
            r.timer == if !s.active && !s.hwRunning then s.timer
                       else if GapOver(c, s) then WorkerTimer(c, r, s.timer) else Some(GapEnd(c, s))
  {
    PingTimer(c, s.(keepalive := true, lastKeepalive := s.now));
  }

  lemma StartTimer(c: Config, s: State, fails: bool)
    requires c.Valid()
    ensures var r := Start(c, s, fails); r.timer == if s.active || fails then s.timer else WorkerTimer(c, r, s.timer)
  {
    var s1 := StartOp(c, s.(keepalive := true), fails);
    UpdateWorkerExact(c, s1.(active := true, lastKeepalive := s1.now, lastHwKeepalive := s1.now));
  }

  lemma StopTimer(c: Config, s: State, fails: bool)
    ensures var r := Stop(c, s, fails);
            r.timer == if s.active && !r.active then WorkerTimer(c, r, s.timer) else s.timer
  {
    var hw := if c.hasStop then c.stopKeepsRunning && !fails else true;
    UpdateWorkerExact(c, s.(active := false, hwRunning := hw));
  }

  /** The device just before the ping that follows a new timeout. */
  lemma BeforeChangePing(c: Config, s: State, request: nat) returns (q: State)
    requires c.Valid()
    ensures SetTimeout(c, s, request, false) == Ping(c, q)
    ensures q.timer == WorkerTimer(c, s.(timeout := OpStartTimeout(c, request)), s.timer)
    ensures SameMode(s, q) && (GapOver(c, q) <==> GapOver(c, s)) && GapEnd(c, q) == GapEnd(c, s)
  {
    UpdateWorkerExact(c, s.(timeout := OpStartTimeout(c, request)));
    q := UpdateWorker(c, s.(timeout := OpStartTimeout(c, request)));
  }

  lemma FailedChangeTimer(c: Config, s: State, request: nat)
    requires c.Valid() && s.attached
    ensures TimerAfter(c, s, ChangeTimeout(request, true), SetTimeout(c, s, request, true))
  {
    UpdateWorkerExact(c, s);
  }

  lemma ChangeTimer(c: Config, s: State, request: nat)
    requires c.Valid() && s.attached
    ensures TimerAfter(c, s, ChangeTimeout(request, false), SetTimeout(c, s, request, false))
  {
    var q := BeforeChangePing(c, s, request);
    UserPingTimer(c, q);
    PingKeepsMode(c, q);
  }

  /** The close pings and then works the next ping out again: the second time changes nothing. */
  lemma PingThenUpdate(c: Config, s: State)
    requires c.Valid() && (s.active || s.hwRunning)
    ensures var p := Ping(c, s);
            UpdateWorker(c, p).timer == WorkerTimer(c, p, if GapOver(c, s) then s.timer else Some(GapEnd(c, s)))
  {
    UserPingTimer(c, s);
    UpdateWorkerExact(c, Ping(c, s));
  }

  /** What the next ping is worked out from. */
  predicate SameNeeds(s: State, r: State) {
    r.now == s.now && r.timeout == s.timeout && SameMode(s, r) && r.lastKeepalive == s.lastKeepalive
  }

  /** The device just before the ping of a close that does not stop it. */
  lemma BeforeClosePing(c: Config, s: State, fails: bool) returns (q: State)
    requires c.Valid() && s.handles > 0 && s.attached && ClosePings(c, s, CloseDevice(fails))
    ensures q.active && q.timer == s.timer && (GapOver(c, q) <==> GapOver(c, s)) && GapEnd(c, q) == GapEnd(c, s)
    ensures var r := Release(c, s, fails);
            r == UpdateWorker(c, Ping(c, q)).(devOpen := false, moduleRefs := r.moduleRefs)
  {
    var s1 := s.(handles := s.handles - 1, allowRelease := s.allowRelease && !s.active);
    CloseShape(c, s, fails);
    StopMode(c, s1, fails);
    StopTimer(c, s1, fails);
    StopKeepsClocks(c, s1, fails);
    q := if TriesStop(c, s, CloseDevice(fails)) then Stop(c, s1, fails) else s1;
  }

  lemma PingingCloseTimer(c: Config, s: State, fails: bool)
    requires c.Valid() && s.handles > 0 && s.attached && ClosePings(c, s, CloseDevice(fails))
    ensures var r := Release(c, s, fails);
            r.timer == WorkerTimer(c, r, if GapOver(c, s) then s.timer else Some(GapEnd(c, s)))
  {
    var q := BeforeClosePing(c, s, fails);
    PingThenUpdate(c, q);
    UpdateKeepsNeeds(c, Ping(c, q));
  }

  lemma UpdateKeepsNeeds(c: Config, s: State)
    ensures SameNeeds(s, UpdateWorker(c, s))
  {
  }

  lemma SilentCloseTimer(c: Config, s: State, fails: bool)
    requires c.Valid() && s.handles > 0 && s.attached && !ClosePings(c, s, CloseDevice(fails))
    ensures var r := Release(c, s, fails); r.timer == WorkerTimer(c, r, s.timer)
  {
    var s1 := s.(handles := s.handles - 1, allowRelease := s.allowRelease && !s.active);
    var s2 := if TriesStop(c, s, CloseDevice(fails)) then Stop(c, s1, fails) else s1;
    CloseShape(c, s, fails);
    StopMode(c, s1, fails);
    StopTimer(c, s1, fails);
    UpdateWorkerExact(c, s2);
  }

  lemma DetachedClose(c: Config, s: State, fails: bool)
    requires c.Valid() && s.handles > 0 && !s.attached
    ensures Release(c, s, fails).timer == s.timer
  {
  }

  lemma CloseTimer(c: Config, s: State, fails: bool)
    requires c.Valid() && s.handles > 0
    ensures TimerAfter(c, s, CloseDevice(fails), Release(c, s, fails))
  {
    if !s.attached {
      DetachedClose(c, s, fails);
    } else if ClosePings(c, s, CloseDevice(fails)) {
      PingingCloseTimer(c, s, fails);
    } else {
      SilentCloseTimer(c, s, fails);
    }
  }

  lemma StartEventTimer(c: Config, s: State, e: Event)
    requires c.Valid() && Enabled(s, e) && (e.EnableCard? || e.OpenDevice?)
    ensures TimerAfter(c, s, e, Apply(c, s, e))
  {
    match e
    case EnableCard(fails) => StartTimer(c, s, fails);
    case OpenDevice(alive, fails) => StartTimer(c, ClaimOpen(s), fails);
  }

  lemma UserTimer(c: Config, s: State, e: Event)
    requires c.Valid() && Enabled(s, e) && (e.UserWrite? || e.Keepalive? || e.ChangeTimeout?)
    ensures TimerAfter(c, s, e, Apply(c, s, e))
  {
    match e
    case UserWrite(data, fault) => UserPingTimer(c, s.(allowRelease := 'V' in ReadBytes(data, fault)));
    case Keepalive => UserPingTimer(c, s);
    case ChangeTimeout(request, fails) =>
      if s.attached && fails {
        FailedChangeTimer(c, s, request);
      } else if s.attached {
        ChangeTimer(c, s, request);
      }
  }

  /** After every event, in every state, the timer is as these conditions say. */
  lemma TimerExact(c: Config, s: State, e: Event)
    requires c.Valid() && Enabled(s, e)
    ensures TimerAfter(c, s, e, Apply(c, s, e))
  {
    match e
    case Tick(d) =>
    case TimerFires =>
    case WorkerRuns => PingTimer(c, s.(work := None));
    case EnableCard(_) => StartEventTimer(c, s, e);
    case DisableCard(fails) => StopTimer(c, s, fails);
    case OpenDevice(_, _) => StartEventTimer(c, s, e);
    case CloseDevice(fails) => CloseTimer(c, s, fails);
    case UnregisterDevice(fails) =>
    case _ => UserTimer(c, s, e);
  }

  // ---------------------------------------------------------------- timeout, work and holders

  /** A driver without a ping is restarted instead, which applies the timeout once more. */
  function TimeoutAfter(c: Config, s: State, e: Event): nat
    requires c.Valid()
  {
    var asked := if NewTimeout(s, e) then OpStartTimeout(c, e.request) else s.timeout;
    var restarted := if TriesStart(s, e) then StartWorks(s, e) && !(s.hwRunning && c.hasPing)
                     else Operates(c, s, e) && !c.hasPing;
    if restarted then OpStartTimeout(c, asked) else asked
  }

  lemma PingTimeout(c: Config, s: State)
    requires c.Valid()
    ensures HwPing(c, s).timeout == if GapOver(c, s) && !c.hasPing then OpStartTimeout(c, s.timeout) else s.timeout
  {
  }

  lemma UserPingTimeout(c: Config, s: State)
    requires c.Valid()
    ensures Ping(c, s).timeout ==
            if (s.active || s.hwRunning) && GapOver(c, s) && !c.hasPing then OpStartTimeout(c, s.timeout) else s.timeout
  {
    PingTimeout(c, s.(keepalive := true, lastKeepalive := s.now));
  }

  lemma CloseTimeout(c: Config, s: State, fails: bool)
    requires c.Valid() && s.handles > 0
    ensures Release(c, s, fails).timeout == TimeoutAfter(c, s, CloseDevice(fails))
  {
    if s.attached && ClosePings(c, s, CloseDevice(fails)) {
      var q := BeforeClosePing(c, s, fails);
      UserPingTimeout(c, q);
      assert UpdateWorker(c, Ping(c, q)).timeout == Ping(c, q).timeout;
    } else if s.attached {
      CloseShape(c, s, fails);
    }
  }

  lemma UserTimeout(c: Config, s: State, e: Event)
    requires c.Valid() && Enabled(s, e) && (e.UserWrite? || e.Keepalive? || e.ChangeTimeout?)
    ensures Apply(c, s, e).timeout == TimeoutAfter(c, s, e)
  {
    match e
    case UserWrite(data, fault) => UserPingTimeout(c, s.(allowRelease := 'V' in ReadBytes(data, fault)));
    case Keepalive => UserPingTimeout(c, s);
    case ChangeTimeout(request, fails) =>
      UserPingTimeout(c, UpdateWorker(c, s.(timeout := OpStartTimeout(c, request))));
  }

  lemma TimeoutExact(c: Config, s: State, e: Event)
    requires c.Valid() && Enabled(s, e)
    ensures Apply(c, s, e).timeout == TimeoutAfter(c, s, e)
  {
    match e
    case Tick(d) =>
    case TimerFires =>
    case WorkerRuns => PingTimeout(c, s.(work := None));
    case EnableCard(fails) =>
    case DisableCard(fails) =>
    case OpenDevice(alive, fails) =>
    case CloseDevice(fails) => CloseTimeout(c, s, fails);
    case UnregisterDevice(fails) =>
    case _ => UserTimeout(c, s, e);
  }

  predicate Opens(s: State, e: Event) { e.OpenDevice? && !s.devOpen && (s.hwRunning || e.moduleAlive) }

  predicate HoldersAfter(c: Config, s: State, e: Event, r: State) {
    var granted := Opens(s, e) && (s.active || StartWorks(s, e));
    && r.attached == (s.attached && !e.UnregisterDevice?)
    && r.devOpen == (if Opens(s, e) then granted else s.devOpen && !(e.CloseDevice? && s.attached))
    && r.handles == s.handles + (if granted then 1 else if e.CloseDevice? then -1 else 0)
    && r.moduleRefs == s.moduleRefs
         + (if Opens(s, e) then (if s.hwRunning then 0 else 1) - (if granted then 0 else 1)
            else if e.CloseDevice? && !(s.attached && r.hwRunning) then -1 else 0)
    && r.work == if e.TimerFires? then (if s.work.None? then Some(s.now) else s.work)
                 else if e.WorkerRuns? || e.UnregisterDevice? then None else s.work
  }

  lemma CloseHolders(c: Config, s: State, fails: bool)
    requires c.Valid() && s.handles > 0
    ensures HoldersAfter(c, s, CloseDevice(fails), Release(c, s, fails))
  {
    var s1 := s.(handles := s.handles - 1);
    assert SameHolders(s1.(allowRelease := s1.allowRelease && !s1.active), StopOrPing(c, s1, fails));
  }

  lemma OpenHolders(c: Config, s: State, moduleAlive: bool, fails: bool)
    requires c.Valid()
    ensures HoldersAfter(c, s, OpenDevice(moduleAlive, fails), Open(c, s, moduleAlive, fails))
  {
    assert SameHolders(ClaimOpen(s), Start(c, ClaimOpen(s), fails));
  }

  lemma UserHolders(c: Config, s: State, e: Event)
    requires c.Valid() && Enabled(s, e) && (e.UserWrite? || e.Keepalive? || e.ChangeTimeout?)
    ensures HoldersAfter(c, s, e, Apply(c, s, e))
  {
    match e
    case UserWrite(data, fault) =>
      var s1 := s.(allowRelease := 'V' in ReadBytes(data, fault));
      assert SameHolders(s1, Ping(c, s1));
    case Keepalive => assert SameHolders(s, Ping(c, s));
    case ChangeTimeout(request, fails) =>
      var s1 := UpdateWorker(c, s.(timeout := OpStartTimeout(c, request)));
      assert SameHolders(s1, Ping(c, s1));
  }

  /** After every event, in every state, handles, module references and queued work are as these conditions say. */
  lemma HoldersExact(c: Config, s: State, e: Event)
    requires c.Valid() && Enabled(s, e)
    ensures HoldersAfter(c, s, e, Apply(c, s, e))
  {
    match e
    case Tick(d) =>
    case TimerFires =>
    case WorkerRuns => assert SameHolders(s.(work := None), PingWork(c, s.(work := None)));
    case EnableCard(fails) => assert SameHolders(s, Start(c, s, fails));
    case DisableCard(fails) => assert SameHolders(s, Stop(c, s, fails));
    case OpenDevice(alive, fails) => OpenHolders(c, s, alive, fails);
    case CloseDevice(fails) => CloseHolders(c, s, fails);
    case UnregisterDevice(fails) => assert SameHolders(s, Stop(c, s, fails));
    case _ => UserHolders(c, s, e);
  }

  /**
   What character-device registration leaves: idle and unopened, a reference
   only for hardware already running, a hardware ping in the past, and an
   immediate ping on its way exactly if that hardware is to be fed from here.
   */
  lemma CdevRegistered(now: int, timeout: nat, running: bool, bootHandled: bool, fired: bool)
    ensures var s := CdevRegister(now, timeout, running, bootHandled, fired);
            && s.attached && !s.active && s.hwRunning == running && s.timeout == timeout
            && !s.devOpen && !s.allowRelease && !s.keepalive && s.handles == 0 && s.hwOps == 0
            && s.moduleRefs == (if running then 1 else 0)
            && s.now == now == s.lastHwKeepalive + 1 && s.lastKeepalive == 0
            && (s.timer == if running && bootHandled && !fired then Some(now) else None)
            && (s.work == if running && bootHandled && fired then Some(now) else None)
  {
  }
}
