/**
 Read leveling by searching for the DQS burst: a scan over the delay range whose
 step shrinks as any lane gets close, with a small state machine per lane. The
 read-FIFO pointers a lane reports at a tap are an arbitrary function.
 */
module ReadLeveling {
  import opened Base

  const TAPS_PER_RD_SAMPLE: nat := 128
  const MAX_RD_SAMPLES: nat := 32
  const MAX_RL_VALUE: nat := 4096
  const RL_JITTER_WIDTH_LMT: nat := 20
  const ADLL_TAPS_IN_CYCLE: nat := 64

  datatype Fifo = Fifo(low: nat, high: nat)

  type Readings = (nat, nat) -> Fifo  // by tap and lane

  datatype Phase = Ahead | Inside | Behind

  datatype Lane = Lane(phase: Phase, value: nat, minValue: nat, maxValue: nat)

  predicate IsLockPair(f: Fifo) { f.low == 0x10 && f.high == 0x3ff7 }

  predicate IsStep(step: int) { step == 64 || step == 32 || step == 16 || step == 2 }

  /** The resolution that the FIFO pointers ask for, the closer to the window the finer. */
  function Hint(f: Fifo): nat {
    if f == Fifo(0x8, 0x3ffb) then 2
    else if f == Fifo(0x4, 0x3ffd) then 16
    else if f == Fifo(0x2, 0x3ffe) then 32
    else 64
  }

  /** What one sample does to a lane. */
  function LaneStep(lane: Lane, f: Fifo, tap: nat): Lane {
    match lane.phase
    case Ahead => if IsLockPair(f) then lane.(phase := Inside, value := tap, minValue := tap) else lane
    case Behind => lane
    case Inside =>
      var middle := (tap + lane.value) / 2;
      if IsLockPair(f) then
        if tap - lane.minValue > ADLL_TAPS_IN_CYCLE then Lane(Behind, middle, lane.minValue, tap)
        else lane.(maxValue := tap)
      else if tap - lane.value < RL_JITTER_WIDTH_LMT then lane.(phase := Ahead)
      else lane.(phase := Behind, value := middle)
  }

  const START_LANE: Lane := Lane(Ahead, 0, 0, 0)

  /** The lane after the given samples. */
  function LaneAfter(fifo: Readings, k: nat, taps: seq<nat>): Lane {
    if taps == [] then START_LANE
    else
      var n := |taps| - 1;
      LaneStep(LaneAfter(fifo, k, taps[..n]), fifo(taps[n], k), taps[n])
  }

  /** The resolution a lane wants after a sample: the finest once it locks, a hint while it is ahead. */
  function Wanted(lane: Lane, f: Fifo, tap: nat): nat {
    if LaneStep(lane, f, tap).phase.Behind? && !lane.phase.Behind? then 2
    else if lane.phase.Ahead? then Hint(f)
    else 64
  }

  /** The step after lanes below `n` have seen `tap`: no coarser than any of them wants. */
  function Finest(fifo: Readings, n: nat, taps: seq<nat>, tap: nat, step: nat): nat {
    if n == 0 then step
    else Min(Finest(fifo, n - 1, taps, tap, step), Wanted(LaneAfter(fifo, n - 1, taps), fifo(tap, n - 1), tap))
  }

  /** The step of a search on `n` lanes after the given samples. */
  function StepAfter(fifo: Readings, n: nat, taps: seq<nat>): nat {
    if taps == [] then 64
    else
      var m := |taps| - 1;
      Finest(fifo, n, taps[..m], taps[m], StepAfter(fifo, n, taps[..m]))
  }

  // ---------------------------------------------------------------- what a lane's state means

  /** Every sampled tap from `start` on has shown the lock pair. */
  ghost predicate SteadySince(fifo: Readings, taps: seq<nat>, k: nat, start: nat) {
    start in taps && forall t :: t in taps && start <= t ==> IsLockPair(fifo(t, k))
  }

  /**
   `value` is the midpoint of sampled taps `start..end`; every sample before the
   end showed the lock pair, and the interval is wide enough for the way it ended.
   */
  ghost predicate LockedOn(fifo: Readings, taps: seq<nat>, k: nat, value: nat, start: nat, end: nat) {
    && start in taps && end in taps && start < end
    && value == (start + end) / 2
    && (forall t :: t in taps && start <= t < end ==> IsLockPair(fifo(t, k)))
    && (if IsLockPair(fifo(end, k)) then end - start > ADLL_TAPS_IN_CYCLE else end - start >= RL_JITTER_WIDTH_LMT)
  }

  /** The lane is where its samples have taken it, and they justify its state. */
  ghost predicate Justified(fifo: Readings, taps: seq<nat>, k: nat, lane: Lane) {
    && lane == LaneAfter(fifo, k, taps)
    && match lane.phase
       case Ahead => true
       case Inside => lane.minValue == lane.value && SteadySince(fifo, taps, k, lane.value)
       case Behind => exists start, end :: LockedOn(fifo, taps, k, lane.value, start, end)
  }

  lemma LaneAfterOneMore(fifo: Readings, k: nat, taps: seq<nat>, tap: nat)
    ensures LaneAfter(fifo, k, taps + [tap]) == LaneStep(LaneAfter(fifo, k, taps), fifo(tap, k), tap)
  {
    assert (taps + [tap])[..|taps|] == taps;
  }

  lemma NextSample(fifo: Readings, k: nat, taps: seq<nat>, n: nat)
    requires n < |taps|
    ensures LaneAfter(fifo, k, taps[..n + 1]) == LaneStep(LaneAfter(fifo, k, taps[..n]), fifo(taps[n], k), taps[n])
  {
    assert taps[..n + 1] == taps[..n] + [taps[n]];
    LaneAfterOneMore(fifo, k, taps[..n], taps[n]);
  }

  ghost predicate AllBelow(taps: seq<nat>, bound: nat) { forall t :: t in taps ==> t < bound }

  /** A later sample does not disturb a lock. */
  lemma LockSurvives(fifo: Readings, taps: seq<nat>, k: nat, lane: Lane, tap: nat)
    requires Justified(fifo, taps, k, lane) && lane.phase.Behind? && AllBelow(taps, tap)
    ensures Justified(fifo, taps + [tap], k, lane)
  {
    LaneAfterOneMore(fifo, k, taps, tap);
    var start, end :| LockedOn(fifo, taps, k, lane.value, start, end);
    assert LockedOn(fifo, taps + [tap], k, lane.value, start, end);
  }

  lemma LockValueInRange(fifo: Readings, taps: seq<nat>, k: nat, lane: Lane)
    requires Justified(fifo, taps, k, lane) && lane.phase.Behind? && AllBelow(taps, MAX_RL_VALUE)
    ensures lane.value < MAX_RL_VALUE
  {
    var start, end :| LockedOn(fifo, taps, k, lane.value, start, end);
  }

  /** The lane never reports the lock pair. */
  ghost predicate NeverLocks(fifo: Readings, k: nat) {
    forall tap: nat :: !IsLockPair(fifo(tap, k))
  }

  // ---------------------------------------------------------------- one lane at one tap

  /** The state switch of the search for a lane that is not yet behind. */
  method ObserveLane(fifo: Readings, ghost taps: seq<nat>, k: nat, lane: Lane, tap: nat, step: nat)
    returns (after: Lane, newStep: nat, locked: bool)
    requires Justified(fifo, taps, k, lane) && !lane.phase.Behind? && AllBelow(taps, tap) && IsStep(step)
    ensures Justified(fifo, taps + [tap], k, after)
    ensures locked <==> after.phase.Behind?
    ensures IsStep(newStep) && newStep == Min(step, Wanted(lane, fifo(tap, k), tap))
    ensures locked ==> newStep == 2
    ensures lane.phase.Ahead? && fifo(tap, k) == Fifo(0x8, 0x3ffb) ==> newStep == 2
    ensures lane.phase.Ahead? && fifo(tap, k) == Fifo(0x4, 0x3ffd) ==> newStep == if step > 16 then 16 else step
    ensures lane.phase.Ahead? && fifo(tap, k) == Fifo(0x2, 0x3ffe) ==> newStep == if step > 32 then 32 else step
    ensures !locked && (lane.phase.Inside? || fifo(tap, k) !in {Fifo(0x8, 0x3ffb), Fifo(0x4, 0x3ffd), Fifo(0x2, 0x3ffe)}) ==>
              newStep == step
    ensures lane.phase.Ahead? && NeverLocks(fifo, k) ==> after.phase.Ahead?
  {
    LaneAfterOneMore(fifo, k, taps, tap);
    var f := fifo(tap, k);
    after, newStep, locked := lane, step, false;
    if lane.phase.Ahead? {
      if IsLockPair(f) {
        after := lane.(phase := Inside, value := tap, minValue := tap);
      } else {
        newStep := Min(step, Hint(f));
      }
    } else {
      if IsLockPair(f) {
        after := after.(maxValue := tap);
        if after.maxValue - after.minValue > ADLL_TAPS_IN_CYCLE {
          after := after.(phase := Behind, value := (tap + lane.value) / 2);
          locked, newStep := true, 2;
          assert LockedOn(fifo, taps + [tap], k, after.value, lane.value, tap);
        }
      } else {
        if tap - lane.value < RL_JITTER_WIDTH_LMT {
          after := after.(phase := Ahead);
        } else {
          after := after.(phase := Behind, value := (tap + lane.value) / 2);
          locked, newStep := true, 2;
          assert LockedOn(fifo, taps + [tap], k, after.value, lane.value, tap);
        }
      }
    }
  }

  // ---------------------------------------------------------------- counting lanes

  function CountBehind(lanes: seq<Lane>): nat {
    if lanes == [] then 0
    else CountBehind(lanes[..|lanes| - 1]) + if lanes[|lanes| - 1].phase.Behind? then 1 else 0
  }

  function CountInactive(active: seq<bool>): nat {
    if active == [] then 0
    else CountInactive(active[..|active| - 1]) + if active[|active| - 1] then 0 else 1
  }

  predicate AllActiveBehind(active: seq<bool>, lanes: seq<Lane>)
    requires |active| == |lanes|
  {
    forall k :: 0 <= k < |lanes| && active[k] ==> lanes[k].phase.Behind?
  }

  lemma {:induction false} CountBehindUpdate(lanes: seq<Lane>, k: nat, lane: Lane)
    requires k < |lanes| && !lanes[k].phase.Behind?
    ensures CountBehind(lanes[k := lane]) == CountBehind(lanes) + if lane.phase.Behind? then 1 else 0
  {
    var n := |lanes| - 1;
    if k == n {
      assert lanes[k := lane][..n] == lanes[..n];
    } else {
      assert lanes[k := lane][..n] == lanes[..n][k := lane];
      CountBehindUpdate(lanes[..n], k, lane);
    }
  }

  /** The active lanes that have not locked. */
  function CountMissing(active: seq<bool>, lanes: seq<Lane>): nat
    requires |active| == |lanes|
  {
    if lanes == [] then 0
    else
      var n := |lanes| - 1;
      CountMissing(active[..n], lanes[..n]) + if active[n] && !lanes[n].phase.Behind? then 1 else 0
  }

  /** The inactive lanes that have. */
  function CountIntruders(active: seq<bool>, lanes: seq<Lane>): nat
    requires |active| == |lanes|
  {
    if lanes == [] then 0
    else
      var n := |lanes| - 1;
      CountIntruders(active[..n], lanes[..n]) + if !active[n] && lanes[n].phase.Behind? then 1 else 0
  }

  /** What the single lock count really says: an inactive lane that locks stands in for a missing one. */
  lemma {:induction false} LockBalance(active: seq<bool>, lanes: seq<Lane>)
    requires |active| == |lanes|
    ensures CountInactive(active) + CountBehind(lanes) + CountMissing(active, lanes) ==
            |lanes| + CountIntruders(active, lanes)
  {
    if lanes != [] {
      LockBalance(active[..|lanes| - 1], lanes[..|lanes| - 1]);
    }
  }

  /** When inactive lanes never lock, the lanes are all accounted for exactly when every active one has locked. */
  lemma {:induction false} FullCount(active: seq<bool>, lanes: seq<Lane>)
    requires |active| == |lanes|
    requires forall k :: 0 <= k < |lanes| && !active[k] ==> !lanes[k].phase.Behind?
    ensures CountInactive(active) + CountBehind(lanes) <= |lanes|
    ensures CountInactive(active) + CountBehind(lanes) == |lanes| <==> AllActiveBehind(active, lanes)
  {
    if lanes != [] {
      var n := |lanes| - 1;
      FullCount(active[..n], lanes[..n]);
      assert AllActiveBehind(active, lanes) <==>
             AllActiveBehind(active[..n], lanes[..n]) && (active[n] ==> lanes[n].phase.Behind?);
    }
  }

  /** The count the search starts from: the inactive lanes, counted per chip-select and divided out. */
  method InitialLocks(maxCs: nat, active: seq<bool>) returns (init: nat)
    requires maxCs >= 1
    ensures init == CountInactive(active)
  {
    var total := 0;
    ghost var inactive := CountInactive(active);
    for cs := 0 to maxCs
      invariant total == cs * inactive
    {
      var n := CountRow(active);
      total := total + n;
      assert (cs + 1) * inactive == cs * inactive + inactive;
    }
    init := total / maxCs;
    DivideOut(maxCs, inactive);
  }

  method CountRow(active: seq<bool>) returns (n: nat)
    ensures n == CountInactive(active)
  {
    n := 0;
    for k := 0 to |active|
      invariant n == CountInactive(active[..k])
    {
      assert active[..k + 1][..k] == active[..k];
      if !active[k] {
        n := n + 1;
      }
    }
    assert active[..|active|] == active;
  }

  lemma DivideOut(m: int, n: int)
    requires m >= 1
    ensures (m * n) / m == n
  {
    var q := (m * n) / m;
    assert m * (n - q) == (m * n) % m;
    assert n - q >= 1 ==> m * (n - q) >= m;
    assert n - q <= -1 ==> m * (n - q) <= -m;
  }

  // ---------------------------------------------------------------- the search

  /** `lo` and `hi` are the least and greatest locked values; 4096 and 0 stand for none. */
  ghost predicate TracksExtremes(lanes: seq<Lane>, lo: nat, hi: nat) {
    && (forall k :: 0 <= k < |lanes| && lanes[k].phase.Behind? ==> lo <= lanes[k].value <= hi)
    && (lo == MAX_RL_VALUE || exists k :: 0 <= k < |lanes| && lanes[k].phase.Behind? && lanes[k].value == lo)
    && (hi == 0 || exists k :: 0 <= k < |lanes| && lanes[k].phase.Behind? && lanes[k].value == hi)
  }

  lemma ExtremesAfterLock(lanes: seq<Lane>, k: nat, lane: Lane, lo: nat, hi: nat)
    requires k < |lanes| && !lanes[k].phase.Behind? && TracksExtremes(lanes, lo, hi)
    requires lane.phase.Behind?
    ensures TracksExtremes(lanes[k := lane], Min(lo, lane.value), Max(hi, lane.value))
  {
    var after := lanes[k := lane];
    assert after[k].phase.Behind? && after[k].value == lane.value;
    if lo < lane.value && lo != MAX_RL_VALUE {
      var j :| 0 <= j < |lanes| && lanes[j].phase.Behind? && lanes[j].value == lo;
      assert after[j] == lanes[j];
    }
    if hi > lane.value {
      var j :| 0 <= j < |lanes| && lanes[j].phase.Behind? && lanes[j].value == hi;
      assert after[j] == lanes[j];
    }
  }

  lemma ExtremesUnlocked(lanes: seq<Lane>, k: nat, lane: Lane, lo: nat, hi: nat)
    requires k < |lanes| && !lanes[k].phase.Behind? && TracksExtremes(lanes, lo, hi)
    requires !lane.phase.Behind?
    ensures TracksExtremes(lanes[k := lane], lo, hi)
  {
    var after := lanes[k := lane];
    if lo != MAX_RL_VALUE {
      var j :| 0 <= j < |lanes| && lanes[j].phase.Behind? && lanes[j].value == lo;
      assert after[j] == lanes[j];
    }
    if hi != 0 {
      var j :| 0 <= j < |lanes| && lanes[j].phase.Behind? && lanes[j].value == hi;
      assert after[j] == lanes[j];
    }
  }

  ghost predicate AllJustified(fifo: Readings, taps: seq<nat>, lanes: seq<Lane>) {
    forall k :: 0 <= k < |lanes| ==> Justified(fifo, taps, k, lanes[k])
  }

  datatype Progress = Progress(step: nat, locks: nat, lo: nat, hi: nat)

  ghost predicate Booked(lanes: seq<Lane>, init: nat, p: Progress) {
    IsStep(p.step) && p.locks == init + CountBehind(lanes) && TracksExtremes(lanes, p.lo, p.hi)
  }

  /** What a lane may become at a tap: a locked lane stays as it is, a silent one stays ahead. */
  ghost predicate LaneMoves(fifo: Readings, k: nat, lane: Lane, after: Lane) {
    && (lane.phase.Behind? ==> after == lane)
    && (lane.phase.Ahead? && NeverLocks(fifo, k) ==> after.phase.Ahead?)
  }

  /** Lanes below `done` have seen the new tap, the others have not. */
  ghost predicate Midway(fifo: Readings, taps: seq<nat>, tap: nat, was: seq<Lane>, lanes: seq<Lane>, done: nat) {
    && |lanes| == |was| && done <= |lanes|
    && (forall k :: 0 <= k < done ==> Justified(fifo, taps + [tap], k, lanes[k]) && LaneMoves(fifo, k, was[k], lanes[k]))
    && (forall k :: done <= k < |lanes| ==> lanes[k] == was[k])
  }

  /** Lane `k` sees the tap, in place; the lock count, the extremes and the step follow. */
  method ObserveAt(fifo: Readings, ghost taps: seq<nat>, tap: nat, lanes: array<Lane>, k: nat, init: nat, p: Progress)
    returns (q: Progress)
    requires k < lanes.Length && Justified(fifo, taps, k, lanes[k]) && AllBelow(taps, tap)
    requires Booked(lanes[..], init, p)
    modifies lanes
    ensures lanes[..] == old(lanes[..])[k := lanes[k]]
    ensures Justified(fifo, taps + [tap], k, lanes[k]) && LaneMoves(fifo, k, old(lanes[k]), lanes[k])
    ensures Booked(lanes[..], init, q)
    ensures q.step == Min(p.step, Wanted(old(lanes[k]), fifo(tap, k), tap))
  {
    q := p;
    ghost var before := lanes[..];
    if lanes[k].phase.Behind? {
      LockSurvives(fifo, taps, k, lanes[k], tap);
      assert lanes[..] == before[k := lanes[k]];
      return;
    }
    var after, step, locked := ObserveLane(fifo, taps, k, lanes[k], tap, p.step);
    CountBehindUpdate(before, k, after);
    lanes[k] := after;
    assert lanes[..] == before[k := after];
    if locked {
      ExtremesAfterLock(before, k, after, p.lo, p.hi);
      q := Progress(step, p.locks + 1, Min(p.lo, after.value), Max(p.hi, after.value));
    } else {
      ExtremesUnlocked(before, k, after, p.lo, p.hi);
      q := p.(step := step);
    }
  }

  ghost function Gap(taps: seq<nat>, j: nat): int
    requires j + 1 < |taps|
  {
    taps[j + 1] as int - taps[j] as int
  }

  /** Consecutive samples are one admissible step apart, and the steps never grow. */
  ghost predicate ShrinkingSteps(taps: seq<nat>) {
    && (forall j: nat :: j + 1 < |taps| ==> IsStep(Gap(taps, j)))
    && (forall i: nat, j: nat :: i < j && j + 1 < |taps| ==> Gap(taps, j) <= Gap(taps, i))
  }

  /** The next tap to sample lies one step past the last one, and the step is no wider than any before. */
  ghost predicate NextTap(taps: seq<nat>, tap: nat, step: nat) {
    && (taps == [] ==> tap == 0)
    && (taps != [] ==> taps[0] == 0 && tap == taps[|taps| - 1] + step)
    && (forall j: nat :: j + 1 < |taps| ==> step <= Gap(taps, j))
  }

  lemma SampleTap(taps: seq<nat>, tap: nat, step: nat, newStep: nat)
    requires ShrinkingSteps(taps) && AllBelow(taps, tap) && NextTap(taps, tap, step)
    requires IsStep(step) && IsStep(newStep) && newStep <= step
    ensures ShrinkingSteps(taps + [tap])
    ensures AllBelow(taps + [tap], tap + newStep)
    ensures NextTap(taps + [tap], tap + newStep, newStep)
  {
    var longer := taps + [tap];
    forall j: nat | j + 1 < |longer|
      ensures Gap(longer, j) == if j + 1 < |taps| then Gap(taps, j) else step
    {
    }
  }

  ghost predicate SilentLanesAhead(fifo: Readings, lanes: seq<Lane>) {
    forall k :: 0 <= k < |lanes| && NeverLocks(fifo, k) ==> lanes[k].phase.Ahead?
  }

  /** What holds each time the search is about to sample `tap`. */
  ghost predicate Scanned(fifo: Readings, taps: seq<nat>, tap: nat, lanes: seq<Lane>, init: nat, p: Progress) {
    && AllJustified(fifo, taps, lanes) && SilentLanesAhead(fifo, lanes)
    && Booked(lanes, init, p)
    && AllBelow(taps, tap) && AllBelow(taps, MAX_RL_VALUE) && ShrinkingSteps(taps) && NextTap(taps, tap, p.step)
    && p.step == StepAfter(fifo, |lanes|, taps) && GapsAsWanted(fifo, |lanes|, taps)
  }

  /** Each gap is the step that the samples before it have led to. */
  ghost predicate GapsAsWanted(fifo: Readings, n: nat, taps: seq<nat>) {
    forall j: nat {:trigger Gap(taps, j)} :: j + 1 < |taps| ==> Gap(taps, j) == StepAfter(fifo, n, taps[..j + 1])
  }

  lemma OneGapMore(fifo: Readings, n: nat, taps: seq<nat>, tap: nat)
    requires GapsAsWanted(fifo, n, taps) && NextTap(taps, tap, StepAfter(fifo, n, taps))
    ensures GapsAsWanted(fifo, n, taps + [tap])
    ensures StepAfter(fifo, n, taps + [tap]) == Finest(fifo, n, taps, tap, StepAfter(fifo, n, taps))
  {
    var longer := taps + [tap];
    assert longer[..|taps|] == taps;
    forall j: nat | j + 1 < |longer|
      ensures Gap(longer, j) == StepAfter(fifo, n, longer[..j + 1])
    {
      if j + 1 < |taps| {
        assert longer[..j + 1] == taps[..j + 1];
        assert Gap(taps, j) == StepAfter(fifo, n, taps[..j + 1]);
      }
    }
  }

  lemma LanesDone(fifo: Readings, taps: seq<nat>, tap: nat, was: seq<Lane>, lanes: seq<Lane>)
    requires Midway(fifo, taps, tap, was, lanes, |lanes|) && SilentLanesAhead(fifo, was)
    ensures AllJustified(fifo, taps + [tap], lanes) && SilentLanesAhead(fifo, lanes)
  {
  }

  lemma TurnDone(fifo: Readings, taps: seq<nat>, tap: nat, was: seq<Lane>, lanes: seq<Lane>, init: nat, p: Progress, q: Progress)
    requires Scanned(fifo, taps, tap, was, init, p) && tap < MAX_RL_VALUE
    requires Passing(fifo, taps, tap, was, lanes, |lanes|, init, q) && StepSoFar(fifo, taps, tap, |lanes|, p.step, q.step)
    ensures Scanned(fifo, taps + [tap], tap + q.step, lanes, init, q)
  {
    LanesDone(fifo, taps, tap, was, lanes);
    OneGapMore(fifo, |lanes|, taps, tap);
    SampleTap(taps, tap, p.step, q.step);
  }

  /** The step once lanes below `k` have seen the tap. */
  ghost predicate StepSoFar(fifo: Readings, taps: seq<nat>, tap: nat, k: nat, step: nat, now: nat) {
    now <= step && now == Finest(fifo, k, taps, tap, step)
  }

  /** Lanes below `k` have seen the tap, and are booked. */
  ghost predicate Passing(fifo: Readings, taps: seq<nat>, tap: nat, was: seq<Lane>, lanes: seq<Lane>, k: nat, init: nat, q: Progress) {
    Midway(fifo, taps, tap, was, lanes, k) && Booked(lanes, init, q)
  }

  /** One turn of the inner loop. */
  method ObserveNext(fifo: Readings, ghost taps: seq<nat>, tap: nat, lanes: array<Lane>, k: nat, ghost was: seq<Lane>,
                     init: nat, ghost step: nat, p: Progress)
    returns (q: Progress)
    requires k < lanes.Length && AllJustified(fifo, taps, was) && AllBelow(taps, tap)
    requires Passing(fifo, taps, tap, was, lanes[..], k, init, p) && StepSoFar(fifo, taps, tap, k, step, p.step)
    modifies lanes
    ensures Passing(fifo, taps, tap, was, lanes[..], k + 1, init, q) && StepSoFar(fifo, taps, tap, k + 1, step, q.step)
  {
    ghost var before := lanes[..];
    assert before[k] == was[k] && Justified(fifo, taps, k, before[k]);
    q := ObserveAt(fifo, taps, tap, lanes, k, init, p);
  }

  /** The inner loop: every lane sees the tap. */
  method PassOver(fifo: Readings, ghost taps: seq<nat>, tap: nat, lanes: array<Lane>, init: nat, p: Progress, ghost was: seq<Lane>)
    returns (q: Progress)
    requires was == lanes[..] && AllJustified(fifo, taps, was) && AllBelow(taps, tap) && Booked(was, init, p)
    modifies lanes
    ensures Passing(fifo, taps, tap, was, lanes[..], lanes.Length, init, q)
    ensures StepSoFar(fifo, taps, tap, lanes.Length, p.step, q.step)
  {
    q := p;
    var k := 0;
    while k < lanes.Length
      invariant k <= lanes.Length
      invariant Passing(fifo, taps, tap, was, lanes[..], k, init, q)
      invariant StepSoFar(fifo, taps, tap, k, p.step, q.step)
    {
      q := ObserveNext(fifo, taps, tap, lanes, k, was, init, p.step, q);
      k := k + 1;
    }
  }

  /** One iteration of the search: sample the tap and move on. */
  method ObserveAll(fifo: Readings, ghost taps: seq<nat>, tap: nat, lanes: array<Lane>, init: nat, p: Progress)
    returns (q: Progress)
    requires Scanned(fifo, taps, tap, lanes[..], init, p) && tap < MAX_RL_VALUE
    modifies lanes
    ensures Scanned(fifo, taps + [tap], tap + q.step, lanes[..], init, q)
    ensures q.step >= 2
  {
    ghost var was := lanes[..];
    q := PassOver(fifo, taps, tap, lanes, init, p, was);
    TurnDone(fifo, taps, tap, was, lanes[..], init, p, q);
  }

  /** What the search leaves: every lane justified by the taps sampled, the locks counted, the extremes exact. */
  ghost predicate Searched(fifo: Readings, taps: seq<nat>, lanes: seq<Lane>, init: nat, p: Progress) {
    && AllJustified(fifo, taps, lanes) && SilentLanesAhead(fifo, lanes)
    && taps != [] && taps[0] == 0 && AllBelow(taps, MAX_RL_VALUE) && ShrinkingSteps(taps)
    && p.step == StepAfter(fifo, |lanes|, taps) && GapsAsWanted(fifo, |lanes|, taps)
    && Booked(lanes, init, p)
  }

  /** The search on one chip-select; `exited` tells whether it stopped early. */
  method Search(fifo: Readings, init: nat, lanes: array<Lane>)
    returns (p: Progress, exited: bool, ghost taps: seq<nat>)
    requires forall k :: 0 <= k < lanes.Length ==> lanes[k] == START_LANE
    modifies lanes
    ensures Searched(fifo, taps, lanes[..], init, p)
    ensures exited <==> p.locks == lanes.Length
    ensures !exited ==> taps[|taps| - 1] + p.step >= MAX_RL_VALUE
  {
    taps := [];
    exited := false;
    p := Progress(64, init, MAX_RL_VALUE, 0);
    BeforeFirst(fifo, lanes[..], init);
    var tap := 0;
    ghost var due := 0;
    while tap < MAX_RL_VALUE
      invariant due == tap && Scanned(fifo, taps, due, lanes[..], init, p)
      invariant tap > 0 ==> taps != [] && p.locks != lanes.Length
      decreases MAX_RL_VALUE - tap
    {
      p := ObserveAll(fifo, taps, tap, lanes, init, p);
      taps, due := taps + [tap], tap + p.step;
      if p.locks == lanes.Length {
        exited := true;
        break;
      }
      tap := tap + p.step;
    }
    AfterLast(fifo, taps, due, lanes[..], init, p);
  }

  lemma BeforeFirst(fifo: Readings, lanes: seq<Lane>, init: nat)
    requires forall k :: 0 <= k < |lanes| ==> lanes[k] == START_LANE
    ensures Scanned(fifo, [], 0, lanes, init, Progress(64, init, MAX_RL_VALUE, 0))
  {
    NoneBehind(lanes);
  }

  lemma AfterLast(fifo: Readings, taps: seq<nat>, due: nat, lanes: seq<Lane>, init: nat, p: Progress)
    requires Scanned(fifo, taps, due, lanes, init, p) && taps != []
    ensures Searched(fifo, taps, lanes, init, p)
  {
  }

  /**
   The search does not miss a window: once a lane has shown the lock pair at
   consecutive samples more than a cycle apart, it is locked.
   */
  lemma WideWindowLocks(fifo: Readings, k: nat, taps: seq<nat>, i: nat, j: nat)
    requires i < j < |taps| && taps[j] - taps[i] > ADLL_TAPS_IN_CYCLE
    requires forall a, b :: 0 <= a < b < |taps| ==> taps[a] < taps[b]
    requires forall t :: i <= t <= j ==> IsLockPair(fifo(taps[t], k))
    ensures LaneAfter(fifo, k, taps).phase.Behind?
  {
    StaysInside(fifo, k, taps, i, j - 1);
    NextSample(fifo, k, taps, j);
    StaysBehind(fifo, k, taps, j + 1);
  }

  /** While the pair shows, the lane has entered at the latest at sample i. */
  lemma {:induction false} StaysInside(fifo: Readings, k: nat, taps: seq<nat>, i: nat, j: nat)
    requires i <= j < |taps|
    requires forall a, b :: 0 <= a < b < |taps| ==> taps[a] < taps[b]
    requires forall t :: i <= t <= j ==> IsLockPair(fifo(taps[t], k))
    ensures var lane := LaneAfter(fifo, k, taps[..j + 1]);
            lane.phase.Behind? || (lane.phase.Inside? && lane.minValue <= taps[i])
    decreases j
  {
    NextSample(fifo, k, taps, j);
    if i < j {
      StaysInside(fifo, k, taps, i, j - 1);
    } else {
      EnteredBefore(fifo, k, taps, j);
    }
  }

  /** A lane inside its window entered at a tap already sampled. */
  lemma {:induction false} EnteredBefore(fifo: Readings, k: nat, taps: seq<nat>, n: nat)
    requires n <= |taps| && forall a, b :: 0 <= a < b < |taps| ==> taps[a] < taps[b]
    ensures var lane := LaneAfter(fifo, k, taps[..n]);
            lane.phase.Inside? ==> forall t :: n <= t < |taps| ==> lane.minValue < taps[t]
  {
    if n > 0 {
      EnteredBefore(fifo, k, taps, n - 1);
      NextSample(fifo, k, taps, n - 1);
    }
  }

  lemma {:induction false} StaysBehind(fifo: Readings, k: nat, taps: seq<nat>, n: nat)
    requires n <= |taps| && LaneAfter(fifo, k, taps[..n]).phase.Behind?
    ensures LaneAfter(fifo, k, taps) == LaneAfter(fifo, k, taps[..n])
    decreases |taps|
  {
    if n == |taps| {
      assert taps[..n] == taps;
    } else {
      var m := |taps| - 1;
      assert taps[..m][..n] == taps[..n];
      StaysBehind(fifo, k, taps[..m], n);
    }
  }

  /** When the inactive lanes are silent, the search stops early exactly when every active lane has locked. */
  lemma ExitMeansLocked(fifo: Readings, active: seq<bool>, lanes: seq<Lane>)
    requires |active| == |lanes| && SilentLanesAhead(fifo, lanes)
    requires forall k :: 0 <= k < |active| && !active[k] ==> NeverLocks(fifo, k)
    ensures CountInactive(active) + CountBehind(lanes) == |lanes| <==> AllActiveBehind(active, lanes)
  {
    FullCount(active, lanes);
  }

  lemma {:induction false} TapsIncrease(taps: seq<nat>, a: nat, b: nat)
    requires ShrinkingSteps(taps) && a < b < |taps|
    ensures taps[a] < taps[b]
    decreases b
  {
    assert IsStep(Gap(taps, b - 1));
    if a < b - 1 {
      TapsIncrease(taps, a, b - 1);
    }
  }

  /** A lane that always shows the pair has locked once the scan is more than a cycle past its start. */
  lemma LoudLaneLocks(fifo: Readings, taps: seq<nat>, k: nat)
    requires taps != [] && taps[0] == 0 && ShrinkingSteps(taps) && taps[|taps| - 1] > ADLL_TAPS_IN_CYCLE
    requires forall tap: nat :: IsLockPair(fifo(tap, k))
    ensures LaneAfter(fifo, k, taps).phase.Behind?
  {
    forall a, b | 0 <= a < b < |taps|
      ensures taps[a] < taps[b]
    {
      TapsIncrease(taps, a, b);
    }
    WideWindowLocks(fifo, k, taps, 0, |taps| - 1);
  }

  lemma IntruderCounts(fifo: Readings, taps: seq<nat>, lanes: seq<Lane>, p: Progress)
    requires |lanes| == 2 && Searched(fifo, taps, lanes, 1, p)
    requires p.locks != 2 ==> taps[|taps| - 1] + p.step >= MAX_RL_VALUE
    requires NeverLocks(fifo, 0) && forall tap: nat :: IsLockPair(fifo(tap, 1))
    ensures p.locks == 2
  {
    if taps[|taps| - 1] > ADLL_TAPS_IN_CYCLE {
      LoudLaneLocks(fifo, taps, 1);
      assert lanes[1] == LaneAfter(fifo, 1, taps) && lanes[0].phase.Ahead?;
      assert lanes[..1] == [lanes[0]] && lanes[..1][..0] == [];
      assert CountBehind(lanes[..1]) == 0;
    }
  }

  /** A run that is taken for success: the active lane 0 never locks, and the inactive lane 1 stands in for it. */
  method StandIn(fifo: Readings, lanes: array<Lane>) returns (p: Progress, exited: bool)
    requires lanes.Length == 2 && lanes[0] == lanes[1] == START_LANE
    requires NeverLocks(fifo, 0) && forall tap: nat :: IsLockPair(fifo(tap, 1))
    modifies lanes
    ensures exited && !AllActiveBehind([true, false], lanes[..])
  {
    var init := CountRow([true, false]);
    assert [true, false][..1] == [true] && [true][..0] == [];
    assert CountInactive([true]) == 0;
    ghost var taps;
    p, exited, taps := Search(fifo, init, lanes);
    IntruderCounts(fifo, taps, lanes[..], p);
    assert lanes[..][0].phase.Ahead?;
  }

  lemma {:induction false} NoneBehind(lanes: seq<Lane>)
    requires forall k :: 0 <= k < |lanes| ==> !lanes[k].phase.Behind?
    ensures CountBehind(lanes) == 0
  {
    if lanes != [] {
      NoneBehind(lanes[..|lanes| - 1]);
    }
  }

  // ---------------------------------------------------------------- programming the result

  /** C's division truncates toward zero. */
  function TruncDiv(x: int, d: nat): int
    requires d >= 1
  {
    if x >= 0 then x / d else -((-x) / d)
  }

  /** The quotient by 32, the only one taken, rounds toward zero for either sign. */
  lemma TruncDivMeaning(x: int)
    ensures var q := TruncDiv(x, MAX_RD_SAMPLES);
            if x >= 0 then q >= 0 && 32 * q <= x < 32 * q + 32 else q <= 0 && 32 * q - 32 < x <= 32 * q
  {
  }

  function TruncMod(x: int, d: nat): int
    requires d >= 1
  {
    x - d * TruncDiv(x, d)
  }

  /** The read-leveling register: the delay in bits 4..0, the phase in bits 8..6. */
  function Encode(adll: int, phase: int): nat { adll % 32 + 64 * (phase % 8) }

  /** The delay, in taps, that a register value and a read-sample delay select together. */
  function ProgrammedDelay(cycles: int, reg: nat): int {
    TAPS_PER_RD_SAMPLE * cycles + 32 * (reg / 64) + reg % 64
  }

  /** During the search the tap under test is what is programmed. */
  lemma SearchProgramsTap(tap: nat)
    ensures var rest := tap % TAPS_PER_RD_SAMPLE;
            ProgrammedDelay(tap / TAPS_PER_RD_SAMPLE, Encode(rest % MAX_RD_SAMPLES, rest / MAX_RD_SAMPLES)) == tap
  {
  }

  datatype LaneResult = LaneResult(adll: int, phase: int, reg: nat)

  function FinalLane(value: int, cycles: int): LaneResult {
    var i := value - cycles * TAPS_PER_RD_SAMPLE;
    var adll, phase := TruncMod(i, MAX_RD_SAMPLES), TruncDiv(i, MAX_RD_SAMPLES);
    LaneResult(adll, phase, Encode(adll, phase))
  }

  /** Splitting a locked value into cycles, phase and delay loses nothing while the phase fits its field. */
  lemma FinalLanePreservesDelay(value: nat, lo: nat)
    requires lo <= value
    ensures var cycles := lo / TAPS_PER_RD_SAMPLE; var f := FinalLane(value, cycles);
            && TAPS_PER_RD_SAMPLE * cycles + 32 * f.phase + f.adll == value
            && 0 <= f.adll < 32 && 0 <= f.phase
            && (f.phase <= 7 <==> value - TAPS_PER_RD_SAMPLE * cycles < 256)
            && (ProgrammedDelay(cycles, f.reg) == value <==> value - TAPS_PER_RD_SAMPLE * cycles < 256)
  {
    SplitValue(value - lo / TAPS_PER_RD_SAMPLE * TAPS_PER_RD_SAMPLE);
  }

  lemma SplitValue(i: nat)
    ensures TruncDiv(i, 32) == i / 32 && TruncMod(i, 32) == i % 32
    ensures i == 32 * (i / 32) + i % 32
    ensures i / 32 <= 7 <==> i < 256
    ensures Encode(i % 32, i / 32) / 64 == (i / 32) % 8 && Encode(i % 32, i / 32) % 64 == i % 32
    ensures (i / 32) % 8 == i / 32 <==> i < 256
  {
  }

  /** The post-processing loop: one register per active lane. */
  method PostProcess(active: seq<bool>, lanes: seq<Lane>, lo: nat, casLatency: nat, regs: array<nat>)
    returns (readSample: nat, readReady: nat)
    requires |active| == |lanes| == regs.Length
    modifies regs
    ensures readSample == casLatency + 2 * (lo / TAPS_PER_RD_SAMPLE) && readReady == readSample + 8
    ensures forall k :: 0 <= k < regs.Length ==>
              regs[k] == if active[k] then FinalLane(lanes[k].value, lo / TAPS_PER_RD_SAMPLE).reg else old(regs[k])
  {
    var cycles := lo / TAPS_PER_RD_SAMPLE;
    readSample := casLatency + 2 * cycles;
    readReady := readSample + 8;
    for k := 0 to regs.Length
      invariant forall j :: 0 <= j < k ==>
                  regs[j] == if active[j] then FinalLane(lanes[j].value, cycles).reg else old(regs[j])
      invariant forall j :: k <= j < regs.Length ==> regs[j] == old(regs[j])
    {
      if active[k] {
        var i := lanes[k].value - cycles * TAPS_PER_RD_SAMPLE;
        var adll := TruncMod(i, MAX_RD_SAMPLES);
        var phase := TruncDiv(i, MAX_RD_SAMPLES);
        regs[k] := Encode(adll, phase);
      }
    }
  }

  ghost predicate AllProgrammed(active: seq<bool>, lanes: seq<Lane>, lo: nat, regs: seq<nat>)
    requires |active| == |lanes| == |regs|
  {
    forall k :: 0 <= k < |lanes| && active[k] ==> ProgrammedDelay(lo / TAPS_PER_RD_SAMPLE, regs[k]) == lanes[k].value
  }

  /**
   `lo` and `hi` are the least and greatest locked values, and the registers
   select exactly the locked delay of every active lane if and only if the
   slowest lane is less than two cycles past the common base.
   */
  ghost predicate Leveled(active: seq<bool>, lanes: seq<Lane>, p: Progress, regs: seq<nat>)
    requires |active| == |lanes| == |regs|
  {
    && IsLeastLocked(lanes, p.lo) && IsGreatestLocked(lanes, p.hi)
    && (AllProgrammed(active, lanes, p.lo, regs)
        <==> p.hi - TAPS_PER_RD_SAMPLE * (p.lo / TAPS_PER_RD_SAMPLE) < 256)
  }

  lemma Conclude(fifo: Readings, active: seq<bool>, taps: seq<nat>, lanes: seq<Lane>, p: Progress, regs: seq<nat>)
    requires |active| == |lanes| == |regs| && true in active && AllActiveBehind(active, lanes)
    requires Searched(fifo, taps, lanes, CountInactive(active), p)
    requires forall k :: 0 <= k < |active| && !active[k] ==> NeverLocks(fifo, k)
    requires forall k :: 0 <= k < |regs| && active[k] ==>
               regs[k] == FinalLane(lanes[k].value, p.lo / TAPS_PER_RD_SAMPLE).reg
    ensures Leveled(active, lanes, p, regs)
  {
    LocksInRange(fifo, taps, lanes);
    ActiveLocked(active, lanes, p);
    ProgrammedExact(active, lanes, p, regs);
  }

  /** Every lane that is not connected stays silent. */
  ghost predicate Quiet(fifo: Readings, active: seq<bool>) {
    forall k :: 0 <= k < |active| && !active[k] ==> NeverLocks(fifo, k)
  }

  /** Every active lane that locked has its delay programmed exactly if it is less than two cycles past the base. */
  ghost predicate LockedProgrammed(active: seq<bool>, lanes: seq<Lane>, lo: nat, regs: seq<nat>)
    requires |active| == |lanes| == |regs|
  {
    forall k :: 0 <= k < |lanes| && active[k] && lanes[k].phase.Behind? ==>
      (ProgrammedDelay(lo / TAPS_PER_RD_SAMPLE, regs[k]) == lanes[k].value <==>
       lanes[k].value - TAPS_PER_RD_SAMPLE * (lo / TAPS_PER_RD_SAMPLE) < 256)
  }

  lemma ConcludeLanes(active: seq<bool>, lanes: seq<Lane>, p: Progress, regs: seq<nat>)
    requires |active| == |lanes| == |regs| && TracksExtremes(lanes, p.lo, p.hi)
    requires forall k :: 0 <= k < |regs| && active[k] ==>
               regs[k] == FinalLane(lanes[k].value, p.lo / TAPS_PER_RD_SAMPLE).reg
    ensures LockedProgrammed(active, lanes, p.lo, regs)
  {
    forall k | 0 <= k < |lanes| && active[k] && lanes[k].phase.Behind?
      ensures ProgrammedDelay(p.lo / TAPS_PER_RD_SAMPLE, regs[k]) == lanes[k].value <==>
              lanes[k].value - TAPS_PER_RD_SAMPLE * (p.lo / TAPS_PER_RD_SAMPLE) < 256
    {
      FinalLanePreservesDelay(lanes[k].value, p.lo);
    }
  }

  /**
   Search and post-processing of one chip-select together, whatever the lanes
   report. The search stops early exactly when as many inactive lanes have
   locked as active ones have not. With the inactive lanes silent that means
   that every active lane has locked, and then the chip-select is leveled.
   */
  method LevelChipSelect(fifo: Readings, active: seq<bool>, casLatency: nat, maxCs: nat, lanes: array<Lane>, regs: array<nat>)
    returns (p: Progress, exited: bool, readSample: nat, readReady: nat)
    requires lanes.Length == |active| == regs.Length && maxCs >= 1
    requires forall k :: 0 <= k < lanes.Length ==> lanes[k] == START_LANE
    modifies lanes, regs
    ensures exited <==> CountMissing(active, lanes[..]) == CountIntruders(active, lanes[..])
    ensures LockedProgrammed(active, lanes[..], p.lo, regs[..])
    ensures readSample == casLatency + 2 * (p.lo / 128) && readReady == readSample + 8
    ensures forall k :: 0 <= k < regs.Length && !active[k] ==> regs[k] == old(regs[k])
    ensures Quiet(fifo, active) ==> (exited <==> AllActiveBehind(active, lanes[..]))
    ensures Quiet(fifo, active) && exited && true in active ==> Leveled(active, lanes[..], p, regs[..])
  {
    var init := InitialLocks(maxCs, active);
    ghost var taps;
    p, exited, taps := Search(fifo, init, lanes);
    var found := lanes[..];
    LockBalance(active, found);
    readSample, readReady := PostProcess(active, found, p.lo, casLatency, regs);
    ConcludeLanes(active, found, p, regs[..]);
    ghost var quiet := Quiet(fifo, active);
    if quiet {
      ExitMeansLocked(fifo, active, found);
    }
    if quiet && exited && true in active {
      Conclude(fifo, active, taps, found, p, regs[..]);
    }
  }

  ghost predicate IsLeastLocked(lanes: seq<Lane>, lo: nat) {
    && (exists k :: 0 <= k < |lanes| && lanes[k].phase.Behind? && lanes[k].value == lo)
    && forall k :: 0 <= k < |lanes| && lanes[k].phase.Behind? ==> lo <= lanes[k].value
  }

  ghost predicate IsGreatestLocked(lanes: seq<Lane>, hi: nat) {
    && (exists k :: 0 <= k < |lanes| && lanes[k].phase.Behind? && lanes[k].value == hi)
    && forall k :: 0 <= k < |lanes| && lanes[k].phase.Behind? ==> lanes[k].value <= hi
  }

  lemma LocksInRange(fifo: Readings, taps: seq<nat>, lanes: seq<Lane>)
    requires AllJustified(fifo, taps, lanes) && AllBelow(taps, MAX_RL_VALUE)
    ensures forall k :: 0 <= k < |lanes| && lanes[k].phase.Behind? ==> lanes[k].value < MAX_RL_VALUE
  {
    forall k | 0 <= k < |lanes| && lanes[k].phase.Behind?
      ensures lanes[k].value < MAX_RL_VALUE
    {
      LockValueInRange(fifo, taps, k, lanes[k]);
    }
  }

  lemma ActiveLocked(active: seq<bool>, lanes: seq<Lane>, p: Progress)
    requires |active| == |lanes| && true in active && AllActiveBehind(active, lanes)
    requires TracksExtremes(lanes, p.lo, p.hi)
    requires forall k :: 0 <= k < |lanes| && lanes[k].phase.Behind? ==> lanes[k].value < MAX_RL_VALUE
    ensures IsLeastLocked(lanes, p.lo) && IsGreatestLocked(lanes, p.hi)
  {
    var k :| 0 <= k < |active| && active[k];
    assert lanes[k].phase.Behind?;
  }

  lemma ProgrammedExact(active: seq<bool>, lanes: seq<Lane>, p: Progress, regs: seq<nat>)
    requires |active| == |lanes| == |regs| && AllActiveBehind(active, lanes)
    requires IsLeastLocked(lanes, p.lo) && IsGreatestLocked(lanes, p.hi)
    requires forall k :: 0 <= k < |lanes| && lanes[k].phase.Behind? ==> active[k]
    requires forall k :: 0 <= k < |regs| && active[k] ==>
               regs[k] == FinalLane(lanes[k].value, p.lo / TAPS_PER_RD_SAMPLE).reg
    ensures AllProgrammed(active, lanes, p.lo, regs) <==>
            p.hi - TAPS_PER_RD_SAMPLE * (p.lo / TAPS_PER_RD_SAMPLE) < 256
  {
    forall k | 0 <= k < |lanes| && active[k]
      ensures ProgrammedDelay(p.lo / TAPS_PER_RD_SAMPLE, regs[k]) == lanes[k].value <==>
              lanes[k].value - TAPS_PER_RD_SAMPLE * (p.lo / TAPS_PER_RD_SAMPLE) < 256
    {
      FinalLanePreservesDelay(lanes[k].value, p.lo);
    }
    var top :| 0 <= top < |lanes| && lanes[top].phase.Behind? && lanes[top].value == p.hi;
  }
}
