/**
 Receive centralization: per lane, intersect the pass windows of eight bits over
 a range of patterns and programme the centre of what is left. The edges the
 training hardware reports are arbitrary.
 */
module Centralization {
  import opened Base

  const BUS_WIDTH_IN_BITS: nat := 8
  const MAX_WINDOW_SIZE_RX: nat := 32
  const MIN_WINDOW_SIZE: nat := 6

  /** What the two searches report for one lane and one pattern. */
  datatype Edges = Edges(starts: seq<nat>, ends: seq<nat>, lowLocked: seq<bool>, highLocked: seq<bool>)

  predicate IsEdges(e: Edges) {
    && |e.starts| == |e.ends| == |e.lowLocked| == |e.highLocked| == BUS_WIDTH_IN_BITS
    && forall b :: 0 <= b < BUS_WIDTH_IN_BITS ==> e.starts[b] <= 255 && e.ends[b] <= 255
  }

  datatype Lane = Lane(start: nat, end: nat, state: nat)

  const INITIAL_LANE: Lane := Lane(0, MAX_WINDOW_SIZE_RX - 1, 0)

  // ---------------------------------------------------------------- buffer helpers

  predicate AllTrue(s: seq<bool>) { forall b :: 0 <= b < |s| ==> s[b] }

  /** The least entry, 0xff for an empty buffer. */
  function BufMin(buf: seq<nat>): nat {
    if buf == [] then 0xff else Min(BufMin(buf[..|buf| - 1]), buf[|buf| - 1])
  }

  /** The greatest entry, 0 for an empty buffer. */
  function BufMax(buf: seq<nat>): nat {
    if buf == [] then 0 else Max(BufMax(buf[..|buf| - 1]), buf[|buf| - 1])
  }

  lemma {:induction false} BufMinMeaning(buf: seq<nat>)
    ensures forall b :: 0 <= b < |buf| ==> BufMin(buf) <= buf[b]
    ensures BufMin(buf) == 0xff || exists b :: 0 <= b < |buf| && buf[b] == BufMin(buf)
  {
    if buf != [] {
      var front := buf[..|buf| - 1];
      BufMinMeaning(front);
      if BufMin(buf) == BufMin(front) && BufMin(front) != 0xff {
        var b :| 0 <= b < |front| && front[b] == BufMin(front);
        assert buf[b] == BufMin(buf);
      }
    }
  }

  lemma {:induction false} BufMaxMeaning(buf: seq<nat>)
    ensures forall b :: 0 <= b < |buf| ==> buf[b] <= BufMax(buf)
    ensures BufMax(buf) == 0 || exists b :: 0 <= b < |buf| && buf[b] == BufMax(buf)
  {
    if buf != [] {
      var front := buf[..|buf| - 1];
      BufMaxMeaning(front);
      if BufMax(buf) == BufMax(front) && BufMax(front) != 0 {
        var b :| 0 <= b < |front| && front[b] == BufMax(front);
        assert buf[b] == BufMax(buf);
      }
    }
  }

  method IsPupLock(bits: seq<bool>) returns (locked: bool)
    ensures locked == AllTrue(bits)
  {
    for b := 0 to |bits|
      invariant forall j :: 0 <= j < b ==> bits[j]
    {
      if !bits[b] {
        return false;
      }
    }
    return true;
  }

  method GetBufMin(buf: seq<nat>) returns (v: nat)
    ensures v == BufMin(buf)
  {
    v := 0xff;
    for b := 0 to |buf|
      invariant v == BufMin(buf[..b])
    {
      assert buf[..b + 1][..b] == buf[..b];
      if buf[b] < v {
        v := buf[b];
      }
    }
    assert buf[..|buf|] == buf;
  }

  method GetBufMax(buf: seq<nat>) returns (v: nat)
    ensures v == BufMax(buf)
  {
    v := 0;
    for b := 0 to |buf|
      invariant v == BufMax(buf[..b])
    {
      assert buf[..b + 1][..b] == buf[..b];
      if buf[b] > v {
        v := buf[b];
      }
    }
    assert buf[..|buf|] == buf;
  }

  // ---------------------------------------------------------------- which windows count

  predicate Locked(e: Edges) { AllTrue(e.lowLocked) && AllTrue(e.highLocked) }

  /** Without a lock, a bit can still be used if only its far edge is missing. */
  predicate BitFixable(e: Edges, b: nat)
    requires IsEdges(e) && b < BUS_WIDTH_IN_BITS
  {
    e.starts[b] > 0 && e.ends[b] == 0
  }

  predicate Fixable(e: Edges)
    requires IsEdges(e)
  {
    forall b :: 0 <= b < BUS_WIDTH_IN_BITS ==> BitFixable(e, b)
  }

  predicate Usable(e: Edges)
    requires IsEdges(e)
  {
    Locked(e) || Fixable(e)
  }

  function StartOf(e: Edges, b: nat): nat
    requires IsEdges(e) && b < BUS_WIDTH_IN_BITS
  {
    e.starts[b]
  }

  /** The far edge of a bit after the fix-up. */
  function UsedEnd(e: Edges, b: nat): nat
    requires IsEdges(e) && b < BUS_WIDTH_IN_BITS
  {
    if !Locked(e) && BitFixable(e, b) then MAX_WINDOW_SIZE_RX - 1 else e.ends[b]
  }

  function UsedEnds(e: Edges): seq<nat>
    requires IsEdges(e)
  {
    seq(BUS_WIDTH_IN_BITS, b requires 0 <= b < BUS_WIDTH_IN_BITS => UsedEnd(e, b))
  }

  /** The pattern contributes to the lane's window. */
  predicate Contributes(lane: Lane, e: Edges)
    requires IsEdges(e)
  {
    Locked(e) || (lane.state != 1 && Fixable(e))
  }

  predicate WindowValid(lane: Lane) {
    var s, e := lane.start, lane.end;
    || (e + 1 > s + MIN_WINDOW_SIZE && e + 1 < s + MAX_WINDOW_SIZE_RX)
    || (s == 0 && e != 0)
    || (s != MAX_WINDOW_SIZE_RX - 1 && e == MAX_WINDOW_SIZE_RX - 1)
  }

  /** What one pattern does to a lane. */
  function LaneStep(lane: Lane, e: Edges): Lane
    requires IsEdges(e)
  {
    if Contributes(lane, e) then
      Lane(Max(lane.start, BufMax(e.starts)), Min(lane.end, BufMin(UsedEnds(e))), lane.state)
    else
      lane.(state := 1)
  }

  /** `m` is the greatest of the numbers and `least`. */
  ghost predicate IsGreatest(m: nat, least: nat, xs: seq<nat>) {
    m >= least && (m == least || m in xs) && forall x :: x in xs ==> x <= m
  }

  /** `m` is the least of the numbers and `most`. */
  ghost predicate IsLeast(m: nat, most: nat, xs: seq<nat>) {
    m <= most && (m == most || m in xs) && forall x :: x in xs ==> m <= x
  }

  lemma FixableMeaning(e: Edges)
    requires IsEdges(e)
    ensures Fixable(e) <==> forall b :: 0 <= b < 8 ==> e.starts[b] > 0 && e.ends[b] == 0
  {
    forall b | 0 <= b < 8
      ensures BitFixable(e, b) <==> e.starts[b] > 0 && e.ends[b] == 0
    {
    }
  }

  /**
   What one pattern does to a lane, from the report alone. If every search has
   locked, both edges move in. If not, a lane given up before stays as it is;
   another moves its near edge if every bit has a start but no end, and is given
   up otherwise.
   */
  lemma LaneStepMeaning(lane: Lane, e: Edges)
    requires IsEdges(e) && lane.end <= 31
    ensures var r := LaneStep(lane, e); var all := forall b :: 0 <= b < 8 ==> e.lowLocked[b] && e.highLocked[b];
            var oneSided := forall b :: 0 <= b < 8 ==> e.starts[b] > 0 && e.ends[b] == 0;
            if all then
              r.state == lane.state && IsGreatest(r.start, lane.start, e.starts) && IsLeast(r.end, lane.end, e.ends)
            else if lane.state == 1 then r == lane
            else if oneSided then
              r.state == lane.state && IsGreatest(r.start, lane.start, e.starts) && r.end == lane.end
            else r == lane.(state := 1)
  {
    BufMaxMeaning(e.starts);
    BufMinMeaning(UsedEnds(e));
    if Locked(e) {
      assert UsedEnds(e) == e.ends;
    } else if Fixable(e) {
      assert forall b :: 0 <= b < 8 ==> UsedEnds(e)[b] == 31;
    }
    FixableMeaning(e);
  }

  /** One lane under one pattern: lock test, fix-up, intersection. */
  method ProcessPattern(lane: Lane, e: Edges) returns (after: Lane, contributed: bool)
    requires IsEdges(e)
    ensures contributed == Contributes(lane, e)
    ensures after == LaneStep(lane, e)
  {
    var ends := e.ends;
    var low := IsPupLock(e.lowLocked);
    var high := IsPupLock(e.highLocked);
    if !(low && high) {
      if lane.state == 1 {
        return lane, false;
      }
      var failed := false;
      for b := 0 to BUS_WIDTH_IN_BITS
        invariant |ends| == BUS_WIDTH_IN_BITS
        invariant failed <==> exists j :: 0 <= j < b && !BitFixable(e, j)
        invariant forall j :: 0 <= j < b ==> ends[j] == UsedEnd(e, j)
        invariant forall j :: b <= j < BUS_WIDTH_IN_BITS ==> ends[j] == e.ends[j]
      {
        if e.starts[b] > 0 && ends[b] == 0 {
          ends := ends[b := MAX_WINDOW_SIZE_RX - 1];
        } else {
          failed := true;
          assert !BitFixable(e, b);
        }
      }
      if failed {
        return lane.(state := 1), false;
      }
    }
    assert ends == UsedEnds(e);
    var hi := GetBufMin(ends);
    var lo := GetBufMax(e.starts);
    return Lane(Max(lane.start, lo), Min(lane.end, hi), lane.state), true;
  }

  // ---------------------------------------------------------------- a lane over many patterns

  /** The effect of the patterns so far on one lane, as bounds: `state` 1 means it was given up. */
  ghost predicate Intersected(es: seq<Edges>, lane: Lane)
    requires forall p :: 0 <= p < |es| ==> IsEdges(es[p])
  {
    && lane.end <= MAX_WINDOW_SIZE_RX - 1
    && (lane.state == 0 || lane.state == 1)
    && (lane.state == 1 <==> exists p :: 0 <= p < |es| && !Usable(es[p]))
    && (lane.state == 0 ==>
          && (forall p, b :: 0 <= p < |es| && 0 <= b < BUS_WIDTH_IN_BITS ==> StartOf(es[p], b) <= lane.start)
          && (forall p, b :: 0 <= p < |es| && 0 <= b < BUS_WIDTH_IN_BITS ==> lane.end <= UsedEnd(es[p], b))
          && (lane.start == 0 || exists p, b :: StartAt(es, p, b, lane.start))
          && (lane.end == MAX_WINDOW_SIZE_RX - 1 || exists p, b :: EndAt(es, p, b, lane.end)))
  }

  predicate StartAt(es: seq<Edges>, p: int, b: int, v: nat)
    requires forall p :: 0 <= p < |es| ==> IsEdges(es[p])
  {
    0 <= p < |es| && 0 <= b < BUS_WIDTH_IN_BITS && StartOf(es[p], b) == v
  }

  predicate EndAt(es: seq<Edges>, p: int, b: int, v: nat)
    requires forall p :: 0 <= p < |es| ==> IsEdges(es[p])
  {
    0 <= p < |es| && 0 <= b < BUS_WIDTH_IN_BITS && UsedEnd(es[p], b) == v
  }

  lemma StartWitness(es: seq<Edges>, e: Edges, start: nat)
    requires forall p :: 0 <= p < |es| ==> IsEdges(es[p])
    requires IsEdges(e) && (start == 0 || exists p, b :: StartAt(es, p, b, start))
    ensures var start' := Max(start, BufMax(e.starts));
            start' == 0 || exists p, b :: StartAt(es + [e], p, b, start')
  {
    BufMaxMeaning(e.starts);
    if start < BufMax(e.starts) {
      var b :| 0 <= b < BUS_WIDTH_IN_BITS && e.starts[b] == BufMax(e.starts);
      assert StartAt(es + [e], |es|, b, e.starts[b]);
    } else if start != 0 {
      var p, b :| StartAt(es, p, b, start);
      assert StartAt(es + [e], p, b, start);
    }
  }

  lemma EndWitness(es: seq<Edges>, e: Edges, end: nat)
    requires forall p :: 0 <= p < |es| ==> IsEdges(es[p])
    requires IsEdges(e) && end <= MAX_WINDOW_SIZE_RX - 1
    requires end == MAX_WINDOW_SIZE_RX - 1 || exists p, b :: EndAt(es, p, b, end)
    ensures var end' := Min(end, BufMin(UsedEnds(e)));
            end' == MAX_WINDOW_SIZE_RX - 1 || exists p, b :: EndAt(es + [e], p, b, end')
  {
    BufMinMeaning(UsedEnds(e));
    if BufMin(UsedEnds(e)) < end {
      var b :| 0 <= b < BUS_WIDTH_IN_BITS && UsedEnds(e)[b] == BufMin(UsedEnds(e));
      assert EndAt(es + [e], |es|, b, UsedEnd(e, b));
    } else if end != MAX_WINDOW_SIZE_RX - 1 {
      var p, b :| EndAt(es, p, b, end);
      assert EndAt(es + [e], p, b, end);
    }
  }

  lemma StepIntersects(es: seq<Edges>, e: Edges, lane: Lane)
    requires forall p :: 0 <= p < |es| ==> IsEdges(es[p])
    requires IsEdges(e) && Intersected(es, lane)
    ensures Intersected(es + [e], LaneStep(lane, e))
  {
    var all, after := es + [e], LaneStep(lane, e);
    assert all[|es|] == e;
    if lane.state == 1 {
      var p :| 0 <= p < |es| && !Usable(es[p]);
      assert !Usable(all[p]);
    } else if !Contributes(lane, e) {
      assert !Usable(all[|es|]);
    } else {
      StartWitness(es, e, lane.start);
      EndWitness(es, e, lane.end);
      BufMaxMeaning(e.starts);
      BufMinMeaning(UsedEnds(e));
      forall p, b | 0 <= p < |all| && 0 <= b < BUS_WIDTH_IN_BITS
        ensures StartOf(all[p], b) <= after.start && after.end <= UsedEnd(all[p], b)
      {
        assert UsedEnds(e)[b] == UsedEnd(e, b);
      }
      assert forall p :: 0 <= p < |all| ==> Usable(all[p]);
    }
  }

  // ---------------------------------------------------------------- the result

  /** The false-lock states set before the centre is computed; both still count as locked. */
  function FinalState(lane: Lane): int {
    var width := lane.end - lane.start;
    if lane.state == 1 then 1
    else if lane.end == 0 && width < MIN_WINDOW_SIZE && width > 2 then 3
    else if lane.end == MAX_WINDOW_SIZE_RX - 1 && width < MIN_WINDOW_SIZE && width > 2 then 2
    else lane.state
  }

  function Centre(lane: Lane): nat { (lane.end + lane.start) / 2 }

  /** The "start of window" false-lock state is never reached: it asks for a window that ends at 0 and is wider than 2. */
  lemma StateThreeIsDead(lane: Lane)
    requires lane.state == 0
    ensures FinalState(lane) == 0 || FinalState(lane) == 2
    ensures FinalState(lane) == 2 <==> lane.end == 31 && 26 <= lane.start <= 28
  {
  }

  /** The window is at least seven taps, or is cut off at either end of the range. */
  predicate Wide(lane: Lane) {
    || lane.end - lane.start >= 6
    || (lane.start == 0 && lane.end > 0)
    || (lane.end == 31 && lane.start != 31)
  }

  /** The two macros of the window check, within the range: the upper limit of the first never matters. */
  lemma AcceptedWindows(lane: Lane)
    requires lane.end <= 31
    ensures WindowValid(lane) <==> Wide(lane)
  {
  }

  predicate CentreInEveryWindow(es: seq<Edges>, centre: nat)
    requires forall p :: 0 <= p < |es| ==> IsEdges(es[p])
  {
    forall p, b :: 0 <= p < |es| && 0 <= b < BUS_WIDTH_IN_BITS ==> StartOf(es[p], b) <= centre <= UsedEnd(es[p], b)
  }

  predicate StartsInRange(es: seq<Edges>)
    requires forall p :: 0 <= p < |es| ==> IsEdges(es[p])
  {
    forall p, b :: 0 <= p < |es| && 0 <= b < BUS_WIDTH_IN_BITS ==> StartOf(es[p], b) <= MAX_WINDOW_SIZE_RX - 1
  }

  /**
   For a lane that was not given up and whose window passed the check: the window
   is a proper one exactly when every reported start is within the receive range,
   and then its centre lies inside the window of every bit under every pattern.
   */
  lemma CentreExact(es: seq<Edges>, lane: Lane)
    requires forall p :: 0 <= p < |es| ==> IsEdges(es[p])
    requires Intersected(es, lane) && lane.state == 0 && WindowValid(lane)
    ensures lane.start < lane.end <==> StartsInRange(es)
    ensures StartsInRange(es) ==> CentreInEveryWindow(es, Centre(lane))
  {
    if StartsInRange(es) {
      if lane.start != 0 {
        var p, b :| StartAt(es, p, b, lane.start);
        assert StartOf(es[p], b) <= MAX_WINDOW_SIZE_RX - 1;
      }
      assert lane.start < lane.end;
    }
  }

  /** A start beyond the range slips through the check when no far edge was found. */
  lemma OutOfRangeStartAccepted(lane: Lane)
    requires lane.start >= MAX_WINDOW_SIZE_RX && lane.end == MAX_WINDOW_SIZE_RX - 1
    ensures WindowValid(lane) && lane.start > lane.end
  {
  }

  // ---------------------------------------------------------------- all lanes, all patterns

  type Report = seq<seq<Edges>>  // by pattern and lane

  predicate IsReport(r: Report, lanes: nat) {
    forall p :: 0 <= p < |r| ==> |r[p]| == lanes && forall k :: 0 <= k < lanes ==> IsEdges(r[p][k])
  }

  /** One lane's edges over the first `n` patterns. */
  function Column(r: Report, k: nat, n: nat): (es: seq<Edges>)
    requires n <= |r| && forall p :: 0 <= p < |r| ==> k < |r[p]| && IsEdges(r[p][k])
    ensures |es| == n && forall p :: 0 <= p < n ==> es[p] == r[p][k]
  {
    seq(n, p requires 0 <= p < n => r[p][k])
  }

  /** The lane after the first `n` patterns. */
  function LaneAfter(r: Report, k: nat, n: nat): Lane
    requires n <= |r| && forall p :: 0 <= p < |r| ==> k < |r[p]| && IsEdges(r[p][k])
  {
    if n == 0 then INITIAL_LANE else LaneStep(LaneAfter(r, k, n - 1), r[n - 1][k])
  }

  /** The window is the intersection of the patterns' windows, for every lane and every number of patterns. */
  lemma {:induction false} LaneIsIntersection(r: Report, k: nat, n: nat)
    requires n <= |r| && forall p :: 0 <= p < |r| ==> k < |r[p]| && IsEdges(r[p][k])
    ensures Intersected(Column(r, k, n), LaneAfter(r, k, n))
  {
    if n > 0 {
      LaneIsIntersection(r, k, n - 1);
      assert Column(r, k, n) == Column(r, k, n - 1) + [r[n - 1][k]];
      StepIntersects(Column(r, k, n - 1), r[n - 1][k], LaneAfter(r, k, n - 1));
    }
  }

  /** Every bit reports the same start and no far edge, and none has locked. */
  function NoFarEdge(start: nat): Edges {
    var none := seq(BUS_WIDTH_IN_BITS, _ => false);
    Edges(seq(BUS_WIDTH_IN_BITS, _ => start), seq(BUS_WIDTH_IN_BITS, _ => 0), none, none)
  }

  /** So one pattern is enough for a window that starts after its end and is not rejected. */
  lemma OutOfRangeReport(start: nat)
    requires MAX_WINDOW_SIZE_RX <= start <= 255
    ensures var r: Report := [[NoFarEdge(start)]];
            IsReport(r, 1) && LaneAfter(r, 0, 1) == Lane(start, MAX_WINDOW_SIZE_RX - 1, 0) && !Rejects(r, 0, 0)
  {
    var e := NoFarEdge(start);
    assert !e.lowLocked[0] && e.starts[0] == start;
    assert Fixable(e) && UsedEnds(e)[0] == MAX_WINDOW_SIZE_RX - 1;
    BufMaxMeaning(e.starts);
    BufMinMeaning(UsedEnds(e));
    OutOfRangeStartAccepted(LaneStep(INITIAL_LANE, e));
  }

  /** Pattern `n` contributes to the lane's window and leaves it invalid: the whole routine gives up. */
  predicate Rejects(r: Report, k: nat, n: nat)
    requires n < |r| && forall p :: 0 <= p < |r| ==> k < |r[p]| && IsEdges(r[p][k])
  {
    Contributes(LaneAfter(r, k, n), r[n][k]) && !WindowValid(LaneAfter(r, k, n + 1))
  }

  /** Some active lane rejects some pattern. */
  ghost predicate SomeReject(r: Report, active: seq<bool>)
    requires IsReport(r, |active|)
  {
    exists k, n :: 0 <= k < |active| && active[k] && 0 <= n < |r| && Rejects(r, k, n)
  }

  ghost predicate LaneDone(r: Report, lanes: seq<Lane>, k: nat, n: nat)
    requires k < |lanes| && n <= |r| && IsReport(r, |lanes|)
  {
    lanes[k] == LaneAfter(r, k, n) && forall i :: 0 <= i < n ==> !Rejects(r, k, i)
  }

  ghost predicate AllDone(r: Report, active: seq<bool>, lanes: seq<Lane>, n: nat) {
    && |active| == |lanes| && n <= |r| && IsReport(r, |lanes|)
    && forall k {:trigger LaneDone(r, lanes, k, n)} :: 0 <= k < |lanes| && active[k] ==> LaneDone(r, lanes, k, n)
  }

  /** Lanes below `done` have seen pattern `n`, the others have not. */
  ghost predicate PartlyDone(r: Report, active: seq<bool>, lanes: seq<Lane>, n: nat, done: nat) {
    && |active| == |lanes| && n < |r| && IsReport(r, |lanes|) && done <= |lanes|
    && (forall k {:trigger LaneDone(r, lanes, k, n + 1)} ::
          0 <= k < done && active[k] ==> LaneDone(r, lanes, k, n + 1))
    && (forall k {:trigger LaneDone(r, lanes, k, n)} ::
          done <= k < |lanes| && active[k] ==> LaneDone(r, lanes, k, n))
  }

  /** The pattern loop for one lane, in place; `ok` is false where the code returns at once. */
  method ProcessLane(r: Report, active: seq<bool>, n: nat, lanes: array<Lane>, k: nat) returns (ok: bool)
    requires PartlyDone(r, active, lanes[..], n, k) && k < lanes.Length && active[k]
    modifies lanes
    ensures ok ==> PartlyDone(r, active, lanes[..], n, k + 1)
    ensures !ok ==> Rejects(r, k, n)
  {
    ghost var before := lanes[..];
    assert LaneDone(r, before, k, n);
    var after, contributed := ProcessPattern(lanes[k], r[n][k]);
    lanes[k] := after;
    ok := !contributed || WindowValid(after);
    assert lanes[..] == before[k := after];
    if ok {
      assert LaneDone(r, lanes[..], k, n + 1);
      OthersUnchanged(r, active, before, lanes[..], n, k);
    }
  }

  lemma OthersUnchanged(r: Report, active: seq<bool>, before: seq<Lane>, lanes: seq<Lane>, n: nat, k: nat)
    requires PartlyDone(r, active, before, n, k) && k < |lanes| == |before|
    requires forall j :: 0 <= j < |lanes| && j != k ==> lanes[j] == before[j]
    requires active[k] ==> LaneDone(r, lanes, k, n + 1)
    ensures PartlyDone(r, active, lanes, n, k + 1)
  {
    forall j | 0 <= j < k && active[j]
      ensures LaneDone(r, lanes, j, n + 1)
    {
      assert LaneDone(r, before, j, n + 1);
    }
    forall j | k < j < |lanes| && active[j]
      ensures LaneDone(r, lanes, j, n)
    {
      assert LaneDone(r, before, j, n);
    }
  }

  lemma PatternFinished(r: Report, active: seq<bool>, lanes: seq<Lane>, n: nat)
    requires PartlyDone(r, active, lanes, n, |lanes|)
    ensures AllDone(r, active, lanes, n + 1)
  {
  }

  lemma PatternBegins(r: Report, active: seq<bool>, lanes: seq<Lane>, n: nat)
    requires AllDone(r, active, lanes, n) && n < |r|
    ensures PartlyDone(r, active, lanes, n, 0)
  {
  }

  /** The accumulation over the pattern range. */
  method Accumulate(r: Report, active: seq<bool>, lanes: array<Lane>) returns (status: Status)
    requires |active| == lanes.Length && IsReport(r, lanes.Length)
    modifies lanes
    ensures status.MvOk? ==> AllDone(r, active, lanes[..], |r|)
    ensures status.MvFail? <==> SomeReject(r, active)
  {
    InitLanes(r, active, lanes);
    var n := 0;
    while n < |r|
      invariant 0 <= n <= |r|
      invariant AllDone(r, active, lanes[..], n)
    {
      PatternBegins(r, active, lanes[..], n);
      var k := 0;
      while k < lanes.Length
        invariant 0 <= k <= lanes.Length
        invariant PartlyDone(r, active, lanes[..], n, k)
      {
        if active[k] {
          var ok := ProcessLane(r, active, n, lanes, k);
          if !ok {
            return MvFail;
          }
        } else {
          OthersUnchanged(r, active, lanes[..], lanes[..], n, k);
        }
        k := k + 1;
      }
      PatternFinished(r, active, lanes[..], n);
      n := n + 1;
    }
    NothingRejected(r, active, lanes[..]);
    return MvOk;
  }

  lemma NothingRejected(r: Report, active: seq<bool>, lanes: seq<Lane>)
    requires AllDone(r, active, lanes, |r|)
    ensures !SomeReject(r, active)
  {
    forall k, n | 0 <= k < |active| && active[k] && 0 <= n < |r|
      ensures !Rejects(r, k, n)
    {
      assert LaneDone(r, lanes, k, |r|);
    }
  }

  method InitLanes(r: Report, active: seq<bool>, lanes: array<Lane>)
    requires |active| == lanes.Length && IsReport(r, lanes.Length)
    modifies lanes
    ensures AllDone(r, active, lanes[..], 0)
  {
    for k := 0 to lanes.Length
      invariant forall j :: 0 <= j < k ==> lanes[j] == INITIAL_LANE
    {
      lanes[k] := INITIAL_LANE;
    }
  }

  ghost predicate ResultAt(r: Report, lanes: seq<Lane>, centres: seq<nat>, k: nat)
    requires |lanes| == |centres| && k < |lanes| && IsReport(r, |lanes|)
  {
    LaneResult(r, k, lanes[k], centres[k])
  }

  /** What centralization promises for every active lane. */
  ghost predicate AllResults(r: Report, active: seq<bool>, lanes: seq<Lane>, centres: seq<nat>, n: nat) {
    && |active| == |lanes| == |centres| && n <= |lanes| && IsReport(r, |lanes|)
    && forall k {:trigger ResultAt(r, lanes, centres, k)} :: 0 <= k < n && active[k] ==> ResultAt(r, lanes, centres, k)
  }

  /** One turn of the closing loop: the centre of a lane that was not given up. */
  method ProgrammeLane(r: Report, active: seq<bool>, lanes: seq<Lane>, k: nat, centres: array<nat>) returns (given: bool)
    requires AllDone(r, active, lanes, |r|) && |r| > 0 && k < centres.Length == |lanes| && active[k]
    requires AllResults(r, active, lanes, centres[..], k)
    modifies centres
    ensures AllResults(r, active, lanes, centres[..], k + 1)
    ensures given <==> lanes[k].state == 1
    ensures centres[..] == if given then old(centres[..]) else old(centres[..])[k := centres[k]]
  {
    ghost var before := centres[..];
    assert LaneDone(r, lanes, k, |r|);
    LaneConclusion(r, k, lanes[k], centres[k]);
    given := FinalState(lanes[k]) == 1;
    if !given {
      centres[k] := Centre(lanes[k]);
    }
    assert ResultAt(r, lanes, centres[..], k);
    forall j | 0 <= j < k && active[j]
      ensures ResultAt(r, lanes, centres[..], j)
    {
      assert ResultAt(r, lanes, before, j);
    }
  }

  /** Only an active lane that was not given up is programmed. */
  predicate Untouched(active: seq<bool>, lanes: seq<Lane>, before: seq<nat>, centres: seq<nat>)
    requires |active| == |lanes| == |before| == |centres|
  {
    forall k :: 0 <= k < |lanes| && (!active[k] || lanes[k].state == 1) ==> centres[k] == before[k]
  }

  /** The closing loop. */
  method ProgrammeCentres(r: Report, active: seq<bool>, lanes: seq<Lane>, centres: array<nat>) returns (failed: bool)
    requires AllDone(r, active, lanes, |r|) && |r| > 0 && centres.Length == |lanes|
    modifies centres
    ensures AllResults(r, active, lanes, centres[..], |lanes|)
    ensures Untouched(active, lanes, old(centres[..]), centres[..])
    ensures failed <==> exists k :: 0 <= k < |lanes| && active[k] && lanes[k].state == 1
  {
    failed := false;
    for k := 0 to |lanes|
      invariant failed <==> exists j :: 0 <= j < k && active[j] && lanes[j].state == 1
      invariant AllResults(r, active, lanes, centres[..], k)
      invariant Untouched(active, lanes, old(centres[..]), centres[..])
    {
      if active[k] {
        var given := ProgrammeLane(r, active, lanes, k, centres);
        failed := failed || given;
      }
    }
  }

  /**
   Receive centralization over a non-empty pattern range. It fails outright
   exactly when some active lane rejects a pattern; otherwise a lane is
   programmed exactly when all its patterns were usable, with the middle of the
   greatest start and the least end, which then lies inside every bit's window
   for every pattern, given that all reported starts are within the receive
   range.
   */
  method CentralizeRx(r: Report, active: seq<bool>, lanes: array<Lane>, centres: array<nat>) returns (status: Status, failed: bool)
    requires |active| == lanes.Length == centres.Length && IsReport(r, lanes.Length) && |r| > 0
    modifies lanes, centres
    ensures status.MvFail? <==> SomeReject(r, active)
    ensures status.MvOk? ==> AllResults(r, active, lanes[..], centres[..], lanes.Length)
    ensures status.MvOk? ==> Untouched(active, lanes[..], old(centres[..]), centres[..])
    ensures status.MvFail? ==> centres[..] == old(centres[..])
    ensures status.MvOk? ==> (failed <==> exists k :: 0 <= k < lanes.Length && active[k] && lanes[..][k].state == 1)
  {
    failed := false;
    status := Accumulate(r, active, lanes);
    if status.MvOk? {
      failed := ProgrammeCentres(r, active, lanes[..], centres);
    }
  }

  lemma LaneConclusion(r: Report, k: nat, lane: Lane, unset: nat)
    requires |r| > 0 && forall p :: 0 <= p < |r| ==> k < |r[p]| && IsEdges(r[p][k])
    requires lane == LaneAfter(r, k, |r|) && !Rejects(r, k, |r| - 1)
    ensures FinalState(lane) == 1 ==> LaneResult(r, k, lane, unset)
    ensures LaneResult(r, k, lane, Centre(lane))
    ensures FinalState(lane) == 1 <==> lane.state == 1
  {
    LaneIsIntersection(r, k, |r|);
    AcceptedWindows(lane);
    if lane.state == 0 {
      CentreExact(Column(r, k, |r|), lane);
    }
  }

  /** The margins from the programmed value to the two edges of the window differ by at most one tap. */
  predicate InTheMiddle(lane: Lane, centre: nat) { 2 * centre <= lane.start + lane.end <= 2 * centre + 1 }

  /** What centralization promises for one lane. */
  ghost predicate LaneResult(r: Report, k: nat, lane: Lane, centre: nat)
    requires forall p :: 0 <= p < |r| ==> k < |r[p]| && IsEdges(r[p][k])
  {
    var es := Column(r, k, |r|);
    && Intersected(es, lane)
    && (lane.state == 0 ==>
          && Wide(lane)
          && InTheMiddle(lane, centre)
          && (lane.start < lane.end <==> StartsInRange(es))
          && (StartsInRange(es) ==> CentreInEveryWindow(es, centre)))
  }
}
