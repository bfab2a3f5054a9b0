/**
 `watchdog_cdev_unregister` against everything it can race with: a timer
 callback, the worker before and inside its locked section, and file operations
 through handles that are still open.
 */
module UnregisterQuiescence {
  import opened Base
  import opened WatchdogCore
  import opened StoppedDevice

  /** How far the unregistering thread has come. */
  datatype Progress =
    | Registered
    | CdevDeleted      // after cdev_device_del and misc_deregister
    | StopDone         // after the optional watchdog_stop
    | Detached         // after wd_data->wdd = NULL
    | TimerCancelled   // after hrtimer_cancel
    | Returned         // after kthread_cancel_work_sync

  datatype System = System(
    core: State,
    progress: Progress,
    callback: bool,    // the timer callback is executing
    working: bool      // the worker has taken the item but not finished it
  )

  datatype Action =
    | Elapse(d: nat)
    | TimerExpires
    | CallbackQueues
    | WorkerTakes
    | WorkerBody
    | UserOperation(e: Event)
    | DeleteCdev
    | StopIfAsked(fails: bool)
    | Detach
    | CancelTimer
    | CancelWork

  predicate IsFileOperation(e: Event) {
    e.UserWrite? || e.Keepalive? || e.EnableCard? || e.DisableCard? || e.ChangeTimeout? || e.CloseDevice?
  }

  /** The two cancel calls return only once the callback, or the work, is not executing. */
  predicate CanAct(p: System, a: Action) {
    match a
    case Elapse(_) => true
    case TimerExpires => p.core.timer.Some? && p.core.timer.value <= p.core.now && !p.callback
    case CallbackQueues => p.callback
    case WorkerTakes => p.core.work.Some? && !p.working
    case WorkerBody => p.working
    case UserOperation(e) =>
      Enabled(p.core, e) && (IsFileOperation(e) || (e.OpenDevice? && p.progress.Registered?))
    case DeleteCdev => p.progress.Registered?
    case StopIfAsked(_) => p.progress.CdevDeleted?
    case Detach => p.progress.StopDone?
    case CancelTimer => p.progress.Detached? && !p.callback
    case CancelWork => p.progress.TimerCancelled? && !p.working
  }

  function Act(c: Config, p: System, a: Action): System
    requires c.Valid() && CanAct(p, a)
  {
    var s := p.core;
    match a
    case Elapse(d) => p.(core := s.(now := s.now + d))
    case TimerExpires => p.(core := s.(timer := None), callback := true)
    case CallbackQueues => p.(core := QueueWork(s), callback := false)
    case WorkerTakes => p.(core := s.(work := None), working := true)
    case WorkerBody => p.(core := PingWork(c, s), working := false)
    case UserOperation(e) => p.(core := Apply(c, s, e))
    case DeleteCdev => p.(progress := CdevDeleted)
    case StopIfAsked(fails) =>
      p.(progress := StopDone, core := if s.active && c.stopOnUnregister then Stop(c, s, fails) else s)
    case Detach => p.(progress := Detached, core := s.(attached := false))
    case CancelTimer => p.(progress := TimerCancelled, core := s.(timer := None))
    case CancelWork => p.(progress := Returned, core := s.(work := None))
  }

  predicate Feasible(c: Config, p: System, acts: seq<Action>)
    requires c.Valid()
    decreases |acts|
  {
    acts == [] || (CanAct(p, acts[0]) && Feasible(c, Act(c, p, acts[0]), acts[1..]))
  }

  function Outcome(c: Config, p: System, acts: seq<Action>): System
    requires c.Valid() && Feasible(c, p, acts)
    decreases |acts|
  {
    if acts == [] then p else Outcome(c, Act(c, p, acts[0]), acts[1..])
  }

  // ---------------------------------------------------------------- invariant

  predicate PastDetach(p: System) {
    p.progress.Detached? || p.progress.TimerCancelled? || p.progress.Returned?
  }

  predicate Consistent(p: System) {
    && (p.core.attached <==> !PastDetach(p))
    && (p.progress.TimerCancelled? || p.progress.Returned? ==> p.core.timer.None? && !p.callback)
    && (p.progress.Returned? ==> p.core.work.None? && !p.working)
  }

  /** Nothing in the core touches the hardware or can still be woken up to do so. */
  predicate Quiet(p: System) {
    p.core.timer.None? && !p.callback && p.core.work.None? && !p.working
  }

  /** No hardware operation and no arming of the timer between the two states. */
  predicate HandsOff(p: System, q: System) {
    && q.core.hwOps == p.core.hwOps
    && (q.core.timer == p.core.timer || q.core.timer == None)
  }

  lemma FileOperationKeepsAttachment(c: Config, s: State, e: Event)
    requires c.Valid() && Enabled(s, e) && (IsFileOperation(e) || e.OpenDevice?)
    ensures Apply(c, s, e).attached == s.attached
    ensures !s.attached ==> var s' := Apply(c, s, e);
              s'.hwOps == s.hwOps && s'.timer == s.timer && s'.work == s.work
  {
    match e
    case UserWrite(data, fault) =>
    case Keepalive =>
    case EnableCard(fails) =>
    case DisableCard(fails) =>
    case ChangeTimeout(request, fails) =>
    case OpenDevice(alive, fails) =>
    case CloseDevice(fails) =>
  }

  lemma StepKeepsConsistent(c: Config, p: System, a: Action)
    requires c.Valid() && Consistent(p) && CanAct(p, a)
    ensures Consistent(Act(c, p, a))
    ensures PastDetach(p) ==> PastDetach(Act(c, p, a)) && HandsOff(p, Act(c, p, a))
    ensures p.progress.Returned? ==> Act(c, p, a).progress.Returned?
  {
    match a
    case UserOperation(e) => FileOperationKeepsAttachment(c, p.core, e);
    case _ =>
  }

  /** Every interleaving keeps the invariant and, past the detach, leaves the hardware and the timer alone. */
  lemma {:induction false} RunKeepsConsistent(c: Config, p: System, acts: seq<Action>)
    requires c.Valid() && Consistent(p) && Feasible(c, p, acts)
    ensures Consistent(Outcome(c, p, acts))
    ensures PastDetach(p) ==> PastDetach(Outcome(c, p, acts)) && HandsOff(p, Outcome(c, p, acts))
    ensures p.progress.Returned? ==> Outcome(c, p, acts).progress.Returned?
    decreases |acts|
  {
    if acts != [] {
      StepKeepsConsistent(c, p, acts[0]);
      RunKeepsConsistent(c, Act(c, p, acts[0]), acts[1..]);
    }
  }

  lemma {:induction false} OutcomeConcat(c: Config, p: System, first: seq<Action>, second: seq<Action>)
    requires c.Valid() && Feasible(c, p, first + second)
    ensures Feasible(c, p, first) && Feasible(c, Outcome(c, p, first), second)
    ensures Outcome(c, p, first + second) == Outcome(c, Outcome(c, p, first), second)
    decreases |first|
  {
    if first == [] {
      assert first + second == second;
    } else {
      assert (first + second)[1..] == first[1..] + second;
      OutcomeConcat(c, Act(c, p, first[0]), first[1..], second);
    }
  }

  /**
   Unregistration is quiescent: from a registered device, in every interleaving,
   whatever follows the detach pings no hardware and arms no timer, and once
   the call has returned the timer and the work item are idle for good.
   */
  lemma UnregisterIsQuiescent(c: Config, p: System, before: seq<Action>, after: seq<Action>)
    requires c.Valid() && p.progress.Registered? && p.core.attached
    requires Feasible(c, p, before + after)
    ensures Feasible(c, p, before) && Feasible(c, Outcome(c, p, before), after)
    ensures PastDetach(Outcome(c, p, before)) ==>
              HandsOff(Outcome(c, p, before), Outcome(c, p, before + after))
    ensures Outcome(c, p, before).progress.Returned? ==>
              Quiet(Outcome(c, p, before)) && Quiet(Outcome(c, p, before + after))
  {
    OutcomeConcat(c, p, before, after);
    RunKeepsConsistent(c, p, before);
    RunKeepsConsistent(c, Outcome(c, p, before), after);
  }

  lemma OneMore(c: Config, p: System, a: Action, rest: seq<Action>)
    requires c.Valid() && CanAct(p, a) && Feasible(c, Act(c, p, a), rest)
    ensures Feasible(c, p, [a] + rest) && Outcome(c, p, [a] + rest) == Outcome(c, Act(c, p, a), rest)
  {
    assert ([a] + rest)[1..] == rest;
  }

  lemma LastThreeSteps(c: Config, s: State)
    requires c.Valid()
    ensures var p := System(s, StopDone, false, false); var steps := [Detach, CancelTimer, CancelWork];
            && Feasible(c, p, steps)
            && Outcome(c, p, steps) == System(s.(attached := false, timer := None, work := None), Returned, false, false)
  {
    var p3 := System(s.(attached := false), Detached, false, false);
    var p4 := System(s.(attached := false, timer := None), TimerCancelled, false, false);
    OneMore(c, p4, CancelWork, []);
    OneMore(c, p3, CancelTimer, [CancelWork] + []);
    OneMore(c, System(s, StopDone, false, false), Detach, [CancelTimer] + ([CancelWork] + []));
    assert [Detach] + ([CancelTimer] + ([CancelWork] + [])) == [Detach, CancelTimer, CancelWork];
  }

  /** Alone, the five steps are the one-step `Unregister` of the run model. */
  lemma UninterleavedUnregister(c: Config, s: State, fails: bool)
    requires c.Valid() && s.attached
    ensures var steps := [DeleteCdev, StopIfAsked(fails)] + [Detach, CancelTimer, CancelWork];
            var p := System(s, Registered, false, false);
            Feasible(c, p, steps) && Outcome(c, p, steps) == System(Unregister(c, s, fails), Returned, false, false)
  {
    var rest := [Detach, CancelTimer, CancelWork];
    var p1 := System(s, CdevDeleted, false, false);
    var stopped := if s.active && c.stopOnUnregister then Stop(c, s, fails) else s;
    LastThreeSteps(c, stopped);
    OneMore(c, p1, StopIfAsked(fails), rest);
    OneMore(c, System(s, Registered, false, false), DeleteCdev, [StopIfAsked(fails)] + rest);
    assert [DeleteCdev] + ([StopIfAsked(fails)] + rest) == [DeleteCdev, StopIfAsked(fails)] + rest;
  }

  // ---------------------------------------------------------------- a stopped device

  /** The worker operates the hardware exactly if it finds the device attached and in use, the minimum gap over. */
  lemma WorkerBodyExact(c: Config, p: System)
    requires c.Valid() && CanAct(p, WorkerBody)
    ensures Act(c, p, WorkerBody).core.hwOps == p.core.hwOps + if Reachable(c, p.core) then 1 else 0
  {
    HwPingOperates(c, p.core);
  }

  predicate NoStart(acts: seq<Action>) {
    forall i :: 0 <= i < |acts| && acts[i].UserOperation? ==> !Starts(acts[i].e)
  }

  lemma ActLeavesAlone(c: Config, p: System, a: Action)
    requires c.Valid() && Stopped(p.core) && CanAct(p, a) && (a.UserOperation? ==> !Starts(a.e))
    ensures LeftAlone(p.core, Act(c, p, a).core)
  {
    if a.UserOperation? {
      StepLeavesAlone(c, p.core, a.e);
    }
  }

  /** However far timer, callback and worker have come, they leave a stopped device alone in every interleaving. */
  lemma {:induction false} StaysStoppedInterleaved(c: Config, p: System, acts: seq<Action>)
    requires c.Valid() && Stopped(p.core) && Feasible(c, p, acts) && NoStart(acts)
    ensures LeftAlone(p.core, Outcome(c, p, acts).core)
    decreases |acts|
  {
    if acts != [] {
      ActLeavesAlone(c, p, acts[0]);
      StaysStoppedInterleaved(c, Act(c, p, acts[0]), acts[1..]);
    }
  }

  /** What unregistration does to an active device: it stops it exactly if asked to, allowed to and able to. */
  lemma StopOnUnregisterExact(c: Config, p: System, fails: bool)
    requires c.Valid() && CanAct(p, StopIfAsked(fails))
    ensures Act(c, p, StopIfAsked(fails)).core.active <==>
            p.core.active && !(c.stopOnUnregister && !c.noWayOut && !(c.hasStop && fails))
    ensures !c.stopOnUnregister ==> Act(c, p, StopIfAsked(fails)).core == p.core
  {
  }

  /** With a driver that really stops, an unregistration that asks for it leaves no running watchdog behind. */
  lemma UnregisterStops(c: Config, p: System, acts: seq<Action>)
    requires c.Valid() && p.progress.CdevDeleted? && p.core.active
    requires c.stopOnUnregister && !c.noWayOut && c.hasStop && !c.stopKeepsRunning
    requires Feasible(c, p, [StopIfAsked(false)] + acts) && NoStart(acts)
    ensures var r := Outcome(c, p, [StopIfAsked(false)] + acts).core;
            Stopped(r) && r.hwOps == p.core.hwOps && r.timer == None
  {
    assert ([StopIfAsked(false)] + acts)[1..] == acts;
    var q := Act(c, p, StopIfAsked(false));
    assert Outcome(c, p, [StopIfAsked(false)] + acts) == Outcome(c, q, acts);
    StaysStoppedInterleaved(c, q, acts);
  }
}
