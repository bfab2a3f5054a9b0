/**
 When a lane locks, read off its samples alone: a stretch of samples showing the
 lock pair locks it exactly if it is wide enough for the way it ends.
 */
module ReadLevelingLocks {
  import opened ReadLeveling

  predicate Increasing(taps: seq<nat>) { forall a, b :: 0 <= a < b < |taps| ==> taps[a] < taps[b] }

  predicate PairAt(fifo: Readings, k: nat, taps: seq<nat>, j: nat)
    requires j < |taps|
  {
    fifo(taps[j], k) == Fifo(0x10, 0x3ff7)
  }

  /** The pair shows from sample `i` up to before `n`, not just before `i`, and for no more than a cycle. */
  ghost predicate Open(fifo: Readings, k: nat, taps: seq<nat>, i: nat, n: nat) {
    && i < n <= |taps| && (i > 0 ==> !PairAt(fifo, k, taps, i - 1))
    && forall t :: i <= t < n ==> PairAt(fifo, k, taps, t) && taps[t] <= taps[i] + 64
  }

  /** The stretch that began at `i` ends at `m`: the pair is lost there, or has shown for more than a cycle. */
  ghost predicate Ends(fifo: Readings, k: nat, taps: seq<nat>, i: nat, m: nat) {
    m < |taps| && Open(fifo, k, taps, i, m) && (!PairAt(fifo, k, taps, m) || taps[m] > taps[i] + 64)
  }

  /** It ends as a valid segment: after more than a cycle, or lost after at least 20 taps. */
  ghost predicate Locks(fifo: Readings, k: nat, taps: seq<nat>, i: nat, m: nat) {
    Ends(fifo, k, taps, i, m) && taps[m] >= taps[i] + 20
  }

  /** The lane is inside a stretch only while the pair shows. */
  lemma InsideShowsPair(fifo: Readings, k: nat, taps: seq<nat>, n: nat)
    requires n <= |taps| && LaneAfter(fifo, k, taps[..n]).phase.Inside?
    ensures n > 0 && PairAt(fifo, k, taps, n - 1)
  {
    assert n > 0 ==> taps[..n] == taps[..n - 1] + [taps[n - 1]];
    if n > 0 {
      LaneAfterOneMore(fifo, k, taps[..n - 1], taps[n - 1]);
    }
  }

  lemma StretchBegins(fifo: Readings, k: nat, taps: seq<nat>, i: nat)
    requires Open(fifo, k, taps, i, i + 1) && !LaneAfter(fifo, k, taps[..i]).phase.Behind?
    ensures var lane := LaneAfter(fifo, k, taps[..i + 1]);
            lane.phase.Inside? && lane.value == lane.minValue == taps[i]
  {
    NextSample(fifo, k, taps, i);
    if LaneAfter(fifo, k, taps[..i]).phase.Inside? {
      InsideShowsPair(fifo, k, taps, i);
    }
  }

  /** Within a stretch an unlocked lane is inside, holding the tap at which it began. */
  lemma {:induction false} InsideStretch(fifo: Readings, k: nat, taps: seq<nat>, i: nat, n: nat)
    requires Increasing(taps) && Open(fifo, k, taps, i, n)
    requires !LaneAfter(fifo, k, taps[..i]).phase.Behind?
    ensures var lane := LaneAfter(fifo, k, taps[..n]);
            lane.phase.Inside? && lane.value == lane.minValue == taps[i]
    decreases n
  {
    if n == i + 1 {
      StretchBegins(fifo, k, taps, i);
    } else {
      InsideStretch(fifo, k, taps, i, n - 1);
      NextSample(fifo, k, taps, n - 1);
    }
  }

  /**
   How a stretch ends. A lane not yet locked when it begins is locked after it,
   on the middle of its two ends, if and only if the end lies at least 20 taps
   after the beginning; otherwise it was jitter and the lane is ahead again.
   */
  lemma StretchExact(fifo: Readings, k: nat, taps: seq<nat>, i: nat, m: nat)
    requires Increasing(taps) && Ends(fifo, k, taps, i, m)
    requires !LaneAfter(fifo, k, taps[..i]).phase.Behind?
    ensures var lane := LaneAfter(fifo, k, taps[..m + 1]);
            if taps[m] >= taps[i] + 20 then lane.phase.Behind? && lane.value == (taps[i] + taps[m]) / 2
            else lane.phase.Ahead?
  {
    InsideStretch(fifo, k, taps, i, m);
    NextSample(fifo, k, taps, m);
  }

  // ---------------------------------------------------------------- whole runs

  /** No stretch has locked before sample `n`. */
  ghost predicate NoLockBefore(fifo: Readings, k: nat, taps: seq<nat>, n: nat) {
    forall i, m :: 0 <= i < m < n ==> !Locks(fifo, k, taps, i, m)
  }

  ghost predicate FirstLock(fifo: Readings, k: nat, taps: seq<nat>, i: nat, m: nat) {
    Locks(fifo, k, taps, i, m) && NoLockBefore(fifo, k, taps, m)
  }

  /** A lane's state after `n` samples, in terms of the samples. */
  ghost predicate Traced(fifo: Readings, k: nat, taps: seq<nat>, n: nat, lane: Lane) {
    match lane.phase
    case Ahead => NoLockBefore(fifo, k, taps, n) && (n > 0 ==> n <= |taps| && !PairAt(fifo, k, taps, n - 1))
    case Inside => NoLockBefore(fifo, k, taps, n)
                   && lane.minValue == lane.value
                   && exists i: nat :: Open(fifo, k, taps, i, n) && taps[i] == lane.value
    case Behind => exists i: nat, m: nat ::
                     m < n && FirstLock(fifo, k, taps, i, m) && lane.value == (taps[i] + taps[m]) / 2
  }

  /** Only one stretch can be open at a sample. */
  lemma OneStretch(fifo: Readings, k: nat, taps: seq<nat>, i: nat, j: nat, n: nat)
    requires Open(fifo, k, taps, i, n) && Open(fifo, k, taps, j, n)
    ensures i == j
  {
  }

  lemma InsideStep(fifo: Readings, k: nat, taps: seq<nat>, n: nat, i: nat, lane: Lane)
    requires Increasing(taps) && n < |taps| && NoLockBefore(fifo, k, taps, n) && Open(fifo, k, taps, i, n)
    requires lane.phase.Inside? && lane.minValue == lane.value == taps[i]
    ensures Traced(fifo, k, taps, n + 1, LaneStep(lane, fifo(taps[n], k), taps[n]))
  {
    forall j, m | 0 <= j < m < n + 1 && Locks(fifo, k, taps, j, m)
      ensures m == n && j == i
    {
      if m == n {
        OneStretch(fifo, k, taps, i, j, n);
      }
    }
    if Locks(fifo, k, taps, i, n) {
      assert FirstLock(fifo, k, taps, i, n);
    } else if PairAt(fifo, k, taps, n) {
      assert Open(fifo, k, taps, i, n + 1);
    }
  }

  lemma AheadStep(fifo: Readings, k: nat, taps: seq<nat>, n: nat, lane: Lane)
    requires n < |taps| && lane.phase.Ahead? && Traced(fifo, k, taps, n, lane)
    ensures Traced(fifo, k, taps, n + 1, LaneStep(lane, fifo(taps[n], k), taps[n]))
  {
    forall j, m | 0 <= j < m < n + 1
      ensures !Locks(fifo, k, taps, j, m)
    {
      assert m == n ==> !PairAt(fifo, k, taps, n - 1);
    }
    if PairAt(fifo, k, taps, n) {
      assert Open(fifo, k, taps, n, n + 1);
    }
  }

  lemma {:induction false} RunTraced(fifo: Readings, k: nat, taps: seq<nat>, n: nat)
    requires Increasing(taps) && n <= |taps|
    ensures Traced(fifo, k, taps, n, LaneAfter(fifo, k, taps[..n]))
  {
    if n > 0 {
      RunTraced(fifo, k, taps, n - 1);
      NextSample(fifo, k, taps, n - 1);
      var lane := LaneAfter(fifo, k, taps[..n - 1]);
      match lane.phase
      case Ahead => AheadStep(fifo, k, taps, n - 1, lane);
      case Inside =>
        var i: nat :| Open(fifo, k, taps, i, n - 1) && taps[i] == lane.value;
        InsideStep(fifo, k, taps, n - 1, i, lane);
      case Behind =>
        var i: nat, m: nat :|
          m < n - 1 && FirstLock(fifo, k, taps, i, m) && lane.value == (taps[i] + taps[m]) / 2;
        assert m < n && FirstLock(fifo, k, taps, i, m);
    }
  }

  /**
   Over every sequence of samples: the lane has locked if and only if some
   stretch of them ends as a valid segment, and its value is the middle of the
   first one that does.
   */
  lemma LockExact(fifo: Readings, k: nat, taps: seq<nat>)
    requires Increasing(taps)
    ensures LaneAfter(fifo, k, taps).phase.Behind? <==> exists i: nat, m: nat :: Locks(fifo, k, taps, i, m)
    ensures forall i: nat, m: nat :: FirstLock(fifo, k, taps, i, m) ==>
              LaneAfter(fifo, k, taps).value == (taps[i] + taps[m]) / 2
  {
    assert taps[..|taps|] == taps;
    RunTraced(fifo, k, taps, |taps|);
    forall i: nat, m: nat | FirstLock(fifo, k, taps, i, m)
      ensures LaneAfter(fifo, k, taps).value == (taps[i] + taps[m]) / 2
    {
      OnlyFirst(fifo, k, taps, i, m);
    }
  }

  lemma SameEnd(fifo: Readings, k: nat, taps: seq<nat>, i: nat, m: nat, j: nat, q: nat)
    requires FirstLock(fifo, k, taps, i, m) && FirstLock(fifo, k, taps, j, q)
    ensures m == q
  {
    assert i < m && j < q && Locks(fifo, k, taps, i, m) && Locks(fifo, k, taps, j, q);
  }

  lemma OnlyFirst(fifo: Readings, k: nat, taps: seq<nat>, i: nat, m: nat)
    requires FirstLock(fifo, k, taps, i, m) && Traced(fifo, k, taps, |taps|, LaneAfter(fifo, k, taps))
    ensures LaneAfter(fifo, k, taps).value == (taps[i] + taps[m]) / 2
  {
    assert LaneAfter(fifo, k, taps).phase.Behind?;
    var j: nat, q: nat :|
      FirstLock(fifo, k, taps, j, q) && LaneAfter(fifo, k, taps).value == (taps[j] + taps[q]) / 2;
    SameEnd(fifo, k, taps, i, m, j, q);
    OneStretch(fifo, k, taps, i, j, m);
  }

  /** For the search itself: every lane, active or not, has locked exactly if its own samples say so. */
  lemma SearchLocksExact(fifo: Readings, taps: seq<nat>, lanes: seq<Lane>, init: nat, p: Progress, k: nat)
    requires Searched(fifo, taps, lanes, init, p) && k < |lanes|
    ensures lanes[k].phase.Behind? <==> exists i: nat, m: nat :: Locks(fifo, k, taps, i, m)
    ensures forall i: nat, m: nat :: FirstLock(fifo, k, taps, i, m) ==> lanes[k].value == (taps[i] + taps[m]) / 2
  {
    forall a, b | 0 <= a < b < |taps|
      ensures taps[a] < taps[b]
    {
      TapsIncrease(taps, a, b);
    }
    LockExact(fifo, k, taps);
    assert Justified(fifo, taps, k, lanes[k]);
  }
}
