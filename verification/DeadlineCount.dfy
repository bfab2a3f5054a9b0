/** How many times the worker pings between the user's last ping and the reset. */
module DeadlineCount {
  import opened Base
  import opened WatchdogCore
  import opened Deadline

  /** Worker pings since the user's last ping, or since the start. */
  function WorkerPings(es: seq<Event>): nat {
    if es == [] then 0 else NextPings(Last(es), WorkerPings(Front(es)))
  }

  /** A work item was already queued when that ping came, and will run once more. */
  predicate Leftover(c: Config, t: Terms, s0: State, es: seq<Event>)
    requires c.Valid() && IsRun(c, t, s0, es)
  {
    if es == [] then s0.work.Some?
    else if IsUserPing(Last(es)) then EndState(c, t, s0, Front(es)).work.Some?
    else Leftover(c, t, s0, Front(es))
  }

  function CeilDiv(a: nat, b: nat): nat
    requires b >= 1
  {
    (a + b - 1) / b
  }

  /** ceil((t - hm) / floor(hm / 2)), in milliseconds as the core computes. */
  function Rounds(c: Config, s: State): nat
    requires 2 <= c.maxHwMs < TimeoutMs(s.timeout)
  {
    CeilDiv(TimeoutMs(s.timeout) - c.maxHwMs, c.maxHwMs / 2)
  }

  function Span(c: Config, s: State): int { UserPeriod(s) - HwPeriod(c) }

  /** The moment of the n-th worker ping, if the worker is prompt. */
  function PingTime(c: Config, s: State, n: nat): int {
    s.lastKeepalive + Min(n * HalfPeriod(c), Span(c, s))
  }

  lemma RoundsMeaning(c: Config, s: State, n: nat)
    requires 2 <= c.maxHwMs < TimeoutMs(s.timeout)
    ensures n < Rounds(c, s) <==> n * HalfPeriod(c) < Span(c, s)
    ensures (n + 1) * HalfPeriod(c) == n * HalfPeriod(c) + HalfPeriod(c)
  {
    var a, b := TimeoutMs(s.timeout) - c.maxHwMs, c.maxHwMs / 2;
    QuotientAtLeast(n + 1, b, a + b - 1);
    assert (n + 1) * b == n * b + b;
    assert n * HalfPeriod(c) == (n * b) * 1_000_000;
  }

  /** Not before its planned time, and exactly then if the worker is prompt. */
  predicate Due(t: Terms, actual: int, planned: int) {
    planned <= actual && (t.limit == 0 ==> actual == planned)
  }

  /** `done` pings have been made, and the next one, if any, is on its way. */
  predicate OnSchedule(c: Config, t: Terms, s: State, done: nat)
    requires 2 <= c.maxHwMs < TimeoutMs(s.timeout)
  {
    && done <= Rounds(c, s)
    && Due(t, s.lastHwKeepalive, PingTime(c, s, done))
    && (s.timer.Some? ==> s.work.None? && done < Rounds(c, s) && Due(t, s.timer.value, PingTime(c, s, done + 1)))
    && (s.work.Some? ==> done < Rounds(c, s) && Due(t, s.work.value, PingTime(c, s, done + 1)))
    && (t.limit == 0 && s.timer.None? && s.work.None? ==> done == Rounds(c, s))
  }

  /** After a user ping that found work queued: the timer is re-armed, the work still to run. */
  predicate AwaitingLeftover(c: Config, t: Terms, s: State) {
    && s.lastHwKeepalive == s.lastKeepalive <= s.now && s.work.Some?
    && (s.timer.Some? ==> s.timer.value == PingTime(c, s, 1))
    && (t.limit == 0 ==> s.lastKeepalive == s.now && s.timer.Some?)
  }

  predicate Counted(c: Config, t: Terms, w: int, s: State, pings: nat, leftover: bool) {
    && Fed(c, t, w, s) && c.maxHwMs >= 2 && c.minHwMs == 0
    && (if leftover then if pings == 0 then AwaitingLeftover(c, t, s) else OnSchedule(c, t, s, pings - 1)
        else OnSchedule(c, t, s, pings))
  }

  lemma WorkerAdvances(c: Config, t: Terms, w: int, s: State, done: nat)
    requires Fed(c, t, w, s) && c.maxHwMs >= 2 && c.minHwMs == 0
    requires s.work.Some? && s.timer.None? && OnSchedule(c, t, s, done)
    ensures OnSchedule(c, t, HwPing(c, s.(work := None)), done + 1)
  {
    var s1 := s.(work := None);
    PingShape(c, s1);
    RoundsMeaning(c, s, done);
    RoundsMeaning(c, s, done + 1);
  }

  lemma LeftoverRuns(c: Config, t: Terms, w: int, s: State)
    requires Fed(c, t, w, s) && c.maxHwMs >= 2 && c.minHwMs == 0 && AwaitingLeftover(c, t, s)
    ensures OnSchedule(c, t, HwPing(c, s.(work := None)), 0)
  {
    PingShape(c, s.(work := None));
    RoundsMeaning(c, s, 0);
  }

  /** A user ping restarts the count. */
  lemma UserRestarts(c: Config, t: Terms, s: State)
    requires Running(c, s) && c.maxHwMs >= 2 && c.minHwMs == 0
    requires s.lastHwKeepalive <= s.now == s.lastKeepalive
    ensures s.work.Some? ==> AwaitingLeftover(c, t, HwPing(c, s))
    ensures s.work.None? ==> OnSchedule(c, t, HwPing(c, s), 0)
  {
    PingShape(c, s);
    RoundsMeaning(c, s, 0);
  }

  lemma WorkerKeepsCounted(c: Config, t: Terms, w: int, s: State, pings: nat, leftover: bool)
    requires Counted(c, t, w, s, pings, leftover) && s.work.Some?
    ensures Counted(c, t, w, Apply(c, s, WorkerRuns), pings + 1, leftover)
  {
    StepKeepsFed(c, t, w, s, WorkerRuns);
    if leftover && pings == 0 {
      LeftoverRuns(c, t, w, s);
    } else {
      WorkerAdvances(c, t, w, s, if leftover then pings - 1 else pings);
    }
  }

  lemma UserKeepsCounted(c: Config, t: Terms, w: int, s: State, e: Event)
    requires c.minHwMs == 0 && c.maxHwMs >= 2 && Fed(c, t, w, s)
    requires IsUserPing(e) && Enabled(s, e) && Feeding(c, t, e)
    ensures Counted(c, t, w, Apply(c, s, e), 0, s.work.Some?)
  {
    StepKeepsFed(c, t, w, s, e);
    UserPingShape(c, t, s, e);
    UserRestarts(c, t, Touched(s, e));
  }

  lemma TickKeepsCounted(c: Config, t: Terms, w: int, s: State, d: nat, pings: nat, leftover: bool)
    requires Counted(c, t, w, s, pings, leftover) && Timely(t.limit, s, Tick(d))
    ensures Counted(c, t, w, Apply(c, s, Tick(d)), pings, leftover)
  {
    StepKeepsFed(c, t, w, s, Tick(d));
  }

  lemma TimerKeepsCounted(c: Config, t: Terms, w: int, s: State, pings: nat, leftover: bool)
    requires Counted(c, t, w, s, pings, leftover) && Enabled(s, TimerFires)
    ensures Counted(c, t, w, Apply(c, s, TimerFires), pings, leftover)
  {
    StepKeepsFed(c, t, w, s, TimerFires);
    RoundsMeaning(c, s, 0);
  }

  /** An empty or faulting write pings nothing. */
  lemma WriteKeepsCounted(c: Config, t: Terms, w: int, s: State, e: Event, pings: nat, leftover: bool)
    requires Counted(c, t, w, s, pings, leftover)
    requires e.UserWrite? && !IsUserPing(e) && Enabled(s, e)
    ensures Counted(c, t, w, Apply(c, s, e), pings, leftover)
  {
    StepKeepsFed(c, t, w, s, e);
    UserPingShape(c, t, s, e);
  }

  function NextPings(e: Event, pings: nat): nat {
    if IsUserPing(e) then 0 else if e.WorkerRuns? then pings + 1 else pings
  }

  lemma StepKeepsCounted(c: Config, t: Terms, w: int, s: State, e: Event, pings: nat, leftover: bool)
    requires Counted(c, t, w, s, pings, leftover)
    requires Feeding(c, t, e) && Enabled(s, e) && Timely(t.limit, s, e)
    ensures Counted(c, t, w, Apply(c, s, e), NextPings(e, pings), if IsUserPing(e) then s.work.Some? else leftover)
  {
    match e
    case Tick(d) => TickKeepsCounted(c, t, w, s, d, pings, leftover);
    case TimerFires => TimerKeepsCounted(c, t, w, s, pings, leftover);
    case WorkerRuns => WorkerKeepsCounted(c, t, w, s, pings, leftover);
    case _ =>
      if IsUserPing(e) {
        UserKeepsCounted(c, t, w, s, e);
      } else {
        WriteKeepsCounted(c, t, w, s, e, pings, leftover);
      }
  }

  lemma StartCounted(c: Config, t: Terms, s0: State)
    requires Extended(c, t, s0) && c.maxHwMs >= 2 && c.minHwMs == 0
    ensures Counted(c, t, LongestWait(c, t, s0.timeout), Start(c, s0, false), 0, s0.work.Some?)
  {
    StartShape(c, t, s0);
    RoundsMeaning(c, Start(c, s0, false), 0);
  }

  lemma {:induction false} RunKeepsCounted(c: Config, t: Terms, s0: State, es: seq<Event>)
    requires Extended(c, t, s0) && c.maxHwMs >= 2 && c.minHwMs == 0 && IsRun(c, t, s0, es)
    ensures Counted(c, t, LongestWait(c, t, s0.timeout), EndState(c, t, s0, es), WorkerPings(es), Leftover(c, t, s0, es))
  {
    if es == [] {
      StartCounted(c, t, s0);
    } else {
      RunKeepsCounted(c, t, s0, Front(es));
      var pings, leftover := WorkerPings(Front(es)), Leftover(c, t, s0, Front(es));
      StepKeepsCounted(c, t, LongestWait(c, t, s0.timeout), EndState(c, t, s0, Front(es)), Last(es), pings, leftover);
    }
  }

  /**
   However late the worker, it pings at most ceil((t - hm) / floor(hm / 2))
   times after the user's last ping, plus the one run that was already queued
   when that ping came; a prompt worker has pinged exactly that often once the
   last call is past.
   */
  lemma ExactWorkerPings(c: Config, t: Terms, s0: State, es: seq<Event>)
    requires Extended(c, t, s0) && c.maxHwMs >= 2 && c.minHwMs == 0 && IsRun(c, t, s0, es)
    ensures var s := EndState(c, t, s0, es); var extra := if Leftover(c, t, s0, es) then 1 else 0;
            && 2 <= c.maxHwMs < TimeoutMs(s.timeout)
            && WorkerPings(es) <= Rounds(c, s) + extra
            && (t.limit == 0 && s.now > LastCall(c, s) ==> WorkerPings(es) == Rounds(c, s) + extra)
  {
    RunKeepsCounted(c, t, s0, es);
    RunKeepsBounded(c, t, s0, es);
  }
}
