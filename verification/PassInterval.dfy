/**
 The circular pass-interval finder of the data-mask training: from a vector of
 pass and fail taps and a marker, the run of passing taps at or before the marker.
 */
module PassInterval {
  import opened Base

  const PASS: nat := 0
  const FAIL: nat := 1

  /** A vector of tap results, one period long; positions beyond it wrap around. */
  predicate IsVector(v: seq<nat>) {
    2 <= |v| <= 255 && forall i :: 0 <= i < |v| ==> v[i] == PASS || v[i] == FAIL
  }

  predicate Passes(v: seq<nat>, k: int)
    requires IsVector(v) && k >= 0
  {
    v[k % |v|] == PASS
  }

  predicate AllPass(v: seq<nat>) { forall i :: 0 <= i < |v| ==> v[i] == PASS }

  predicate AllFail(v: seq<nat>) { forall i :: 0 <= i < |v| ==> v[i] == FAIL }

  predicate Mixed(v: seq<nat>) { !AllPass(v) && !AllFail(v) }

  /** `l..r` is a maximal run of passing taps on the circle. */
  predicate IsPassRun(v: seq<nat>, l: int, r: int)
    requires IsVector(v)
  {
    && 1 <= l <= r
    && (forall k :: l <= k <= r ==> Passes(v, k))
    && !Passes(v, l - 1) && !Passes(v, r + 1)
  }

  /** The marker is inside the run, or only failing taps separate it from the run's right end. */
  predicate Reaches(v: seq<nat>, l: int, r: int, marker: nat)
    requires IsVector(v) && 1 <= l <= r
  {
    l <= marker <= r || (r < marker && forall k :: r < k <= marker ==> !Passes(v, k))
  }

  /** The taps up to and including the marker contain a fail directly followed by a pass. */
  predicate HasRise(v: seq<nat>, marker: nat)
    requires IsVector(v) && marker < |v|
  {
    exists j :: 0 <= j < marker && v[j] == FAIL && v[j + 1] == PASS
  }

  /** The taps from the marker to the end of the vector all pass. */
  predicate PassesToEnd(v: seq<nat>, from: nat)
    requires IsVector(v) && from < |v|
  {
    forall k :: from <= k < |v| ==> v[k] == PASS
  }

  /** When the search gives up on a mixed vector, read off the input. */
  predicate Unfound(v: seq<nat>, marker: nat)
    requires IsVector(v) && marker <= 2 * |v| - 1
  {
    if marker < |v| then !HasRise(v, marker) else PassesToEnd(v, marker - |v|)
  }

  /** `r` is the passing tap the search settles on for the right end of the run. */
  predicate IsRightEnd(v: seq<nat>, marker: nat, r: int)
    requires IsVector(v)
  {
    && 0 <= r < 2 * |v| && Passes(v, r) && !Passes(v, r + 1)
    && (if Passes(v, marker) then
          marker <= r && (r >= |v| ==> r < 2 * |v| - 1) && forall k :: marker <= k <= r ==> Passes(v, k)
        else
          r < marker && forall k :: r < k <= marker ==> !Passes(v, k))
  }

  /** The two ways the search for the right end meets its limit. */
  predicate RightStuck(v: seq<nat>, marker: nat)
    requires IsVector(v) && marker < 2 * |v|
  {
    if Passes(v, marker) then marker >= |v| && PassesToEnd(v, marker - |v|)
    else marker < |v| && forall k :: 0 <= k <= marker ==> v[k] == FAIL
  }

  /** Nothing but passes from tap 0 to `r`: the left scan does not wrap and runs off the vector. */
  predicate LeftStuck(v: seq<nat>, r: int) {
    r < |v| && forall k :: 0 <= k <= r ==> v[k] == PASS
  }

  // ---------------------------------------------------------------- wrap-around facts

  lemma Wrap(v: seq<nat>, k: int)
    requires IsVector(v) && 0 <= k < 2 * |v|
    ensures k % |v| == if k < |v| then k else k - |v|
  {
    if k < |v| {
      AddMultiple(k, 0, |v|);
    } else {
      AddMultiple(k - |v|, 1, |v|);
    }
  }

  /** A full turn of passing taps is the whole vector. */
  lemma FullTurn(v: seq<nat>, from: int)
    requires IsVector(v) && from >= 0
    requires forall k :: from <= k < from + |v| ==> Passes(v, k)
    ensures AllPass(v)
  {
    forall i | 0 <= i < |v|
      ensures v[i] == PASS
    {
      var n := |v|;
      var k := from + (i - from) % n;
      assert k % n == i by {
        TurnIndex(from, i, n);
      }
      assert Passes(v, k);
    }
  }

  lemma FullTurnFails(v: seq<nat>, from: int)
    requires IsVector(v) && from >= 0
    requires forall k :: from <= k < from + |v| ==> !Passes(v, k)
    ensures AllFail(v)
  {
    forall i | 0 <= i < |v|
      ensures v[i] == FAIL
    {
      var n := |v|;
      var k := from + (i - from) % n;
      assert k % n == i by {
        TurnIndex(from, i, n);
      }
      assert !Passes(v, k);
    }
  }

  lemma TurnIndex(from: int, i: int, n: nat)
    requires n >= 1 && 0 <= i < n
    ensures (from + (i - from) % n) % n == i
  {
    var q := (i - from) / n;
    assert (i - from) % n == i - from - q * n;
    assert from + (i - from) % n == i + (-q) * n;
    AddMultiple(i, -q, n);
  }

  lemma AddMultiple(i: int, q: int, n: nat)
    requires n >= 1 && 0 <= i < n
    ensures (i + q * n) % n == i
  {
    var m := i + q * n;
    assert m == (m / n) * n + m % n;
    assert (m / n - q) * n == i - m % n;
    SmallMultiple(m / n - q, n, i - m % n);
  }

  lemma SmallMultiple(x: int, n: int, d: int)
    requires n >= 1 && x * n == d && -n < d < n
    ensures d == 0
  {
    assert x >= 1 ==> x * n >= n;
    assert x <= -1 ==> x * n <= -n;
  }

  /** A pass run on a mixed vector is shorter than a turn. */
  lemma RunIsShort(v: seq<nat>, l: int, r: int)
    requires IsVector(v) && Mixed(v) && IsPassRun(v, l, r)
    ensures r - l + 1 < |v|
  {
    if r - l + 1 >= |v| {
      FullTurn(v, l);
    }
  }

  // ---------------------------------------------------------------- the scans

  /** Count the passing taps. */
  method CountPasses(v: seq<nat>) returns (passes: nat, fails: nat)
    requires IsVector(v)
    ensures passes + fails == |v|
    ensures fails == |v| <==> AllFail(v)
    ensures passes == |v| <==> AllPass(v)
  {
    passes, fails := 0, 0;
    var curr := 0;
    while curr < |v|
      invariant 0 <= curr <= |v| && passes + fails == curr
      invariant passes == 0 <==> forall i :: 0 <= i < curr ==> v[i] == FAIL
      invariant fails == 0 <==> forall i :: 0 <= i < curr ==> v[i] == PASS
    {
      if v[curr] == PASS {
        passes := passes + 1;
      } else {
        fails := fails + 1;
      }
      curr := curr + 1;
    }
  }

  /** Move right over passing taps, up to and including `lmt`. */
  method SkipPassesRight(v: seq<nat>, start: nat, lmt: int) returns (curr: int)
    requires IsVector(v) && start <= lmt
    ensures start <= curr <= lmt + 1
    ensures forall k :: start <= k < curr ==> Passes(v, k)
    ensures curr <= lmt ==> !Passes(v, curr)
  {
    curr := start;
    while curr <= lmt && v[curr % |v|] == PASS
      invariant start <= curr <= lmt + 1
      invariant forall k :: start <= k < curr ==> Passes(v, k)
    {
      assert Passes(v, curr);
      curr := curr + 1;
    }
  }

  /** Move left over taps with the given result, down to and including `lmt`. */
  method SkipLeft(v: seq<nat>, start: nat, lmt: nat, result: nat) returns (curr: int)
    requires IsVector(v) && lmt <= start
    ensures lmt - 1 <= curr <= start
    ensures forall k :: curr < k <= start ==> v[k % |v|] == result
    ensures curr >= lmt ==> v[curr % |v|] != result
  {
    curr := start;
    while curr >= lmt && v[curr % |v|] == result
      invariant lmt - 1 <= curr <= start
      invariant forall k :: curr < k <= start ==> v[k % |v|] == result
    {
      curr := curr - 1;
    }
  }

  /**
   The right end of the run: the last pass before the next fail if the marker
   passes, the nearest pass at or before it if it fails.
   */
  method FindRightEnd(v: seq<nat>, marker: nat) returns (status: Status, r: int)
    requires IsVector(v) && Mixed(v) && marker <= 2 * |v| - 1
    ensures status.MvOk? ==> IsRightEnd(v, marker, r)
    ensures status.MvFail? <==> RightStuck(v, marker)
  {
    var n := |v|;
    Wrap(v, marker);
    if v[marker % n] == PASS {
      var lmt := if marker > n - 1 then n - 1 + n else marker + n - 1;
      var curr := SkipPassesRight(v, marker, lmt);
      if curr > lmt {
        if marker < n {
          FullTurn(v, marker);
        } else {
          forall k | marker - n <= k < n
            ensures v[k] == PASS
          {
            Wrap(v, k + n);
            assert Passes(v, k + n);
          }
        }
        return MvFail, 0;
      }
      if marker >= n {
        Wrap(v, curr);
        assert v[curr - n] != PASS;
      }
      return MvOk, curr - 1;
    } else {
      var lmt: nat := if marker > n - 1 then marker - n + 1 else 0;
      var curr := SkipLeft(v, marker, lmt, FAIL);
      if curr < lmt {
        if marker >= n {
          FullTurnFails(v, lmt);
        } else {
          forall k | 0 <= k <= marker
            ensures v[k] == FAIL
          {
            Wrap(v, k);
            assert v[k % n] == FAIL;
          }
        }
        return MvFail, 0;
      }
      if marker < n {
        Wrap(v, curr);
        assert v[curr] == PASS;
      }
      return MvOk, curr;
    }
  }

  /** The left end of the run whose right end is `r`. */
  method FindLeftEnd(v: seq<nat>, r: nat) returns (status: Status, l: int)
    requires IsVector(v) && Mixed(v) && r < 2 * |v| && Passes(v, r)
    ensures status.MvOk? ==> 1 <= l <= r && !Passes(v, l - 1) && forall k :: l <= k <= r ==> Passes(v, k)
    ensures status.MvFail? <==> LeftStuck(v, r)
  {
    var n := |v|;
    var lmt: nat := if r > n - 1 then r - n + 1 else 0;
    var curr := SkipLeft(v, r, lmt, PASS);
    if curr < lmt {
      if r >= n {
        FullTurn(v, lmt);
      } else {
        forall k | 0 <= k <= r
          ensures v[k] == PASS
        {
          Wrap(v, k);
          assert v[k % n] == PASS;
        }
      }
      return MvFail, 0;
    }
    if r < n {
      Wrap(v, curr);
      assert v[curr] != PASS;
    }
    return MvOk, curr + 1;
  }

  // ---------------------------------------------------------------- when nothing is found

  /** A fail before a pass means a rise in between. */
  lemma {:induction false} RiseBetween(v: seq<nat>, marker: nat, j: nat, k: nat)
    requires IsVector(v) && marker < |v|
    requires j < k <= marker && v[j] == FAIL && v[k] == PASS
    ensures HasRise(v, marker)
    decreases k - j
  {
    if v[j + 1] == FAIL {
      RiseBetween(v, marker, j + 1, k);
    }
  }

  /** With the marker inside the vector, the search fails exactly when there is no rise up to it. */
  lemma UnfoundInside(v: seq<nat>, marker: nat, r: nat)
    requires IsVector(v) && Mixed(v) && marker < |v| && IsRightEnd(v, marker, r)
    ensures LeftStuck(v, r) <==> !HasRise(v, marker)
  {
    Wrap(v, marker);
    Wrap(v, r);
    if LeftStuck(v, r) {
      forall j | 0 <= j < marker && v[j] == FAIL
        ensures v[j + 1] != PASS
      {
        assert r < j;
        Wrap(v, j + 1);
        assert !Passes(v, j + 1);
      }
    } else if r < |v| {
      var j :| 0 <= j <= r && v[j] != PASS;
      if r <= marker {
        RiseBetween(v, marker, j, r);
      } else {
        Wrap(v, j);
        assert !Passes(v, j);
        RiseBetween(v, marker, j, marker);
      }
    } else {
      // the run goes past the end of the vector, so the fail is before the marker
      var j :| 0 <= j < |v| && v[j] != PASS;
      Wrap(v, j);
      assert !Passes(v, j);
      RiseBetween(v, marker, j, marker);
    }
  }

  /** With the marker beyond the vector, a right end that was found never gets stuck. */
  lemma FoundBeyond(v: seq<nat>, marker: nat, r: nat)
    requires IsVector(v) && |v| <= marker < 2 * |v| && IsRightEnd(v, marker, r)
    ensures !LeftStuck(v, r)
    ensures !PassesToEnd(v, marker - |v|)
  {
    Wrap(v, |v|);
    Wrap(v, marker);
    if r < |v| {
      assert !Passes(v, |v|);
    } else if marker <= r {
      Wrap(v, r);
      WrapEnd(v, r);
    }
  }

  lemma NoRightEnd(v: seq<nat>, marker: nat)
    requires IsVector(v) && marker < 2 * |v| && RightStuck(v, marker)
    ensures Unfound(v, marker)
  {
  }

  /** A right end at or beyond the marker is not the last tap of the second period. */
  lemma WrapEnd(v: seq<nat>, r: nat)
    requires IsVector(v) && |v| <= r < 2 * |v| - 1 && !Passes(v, r + 1)
    ensures v[r + 1 - |v|] == FAIL
  {
    Wrap(v, r + 1);
  }

  // ---------------------------------------------------------------- the procedure

  /**
   `interval_proc` for an interval starting at tap 0. The results are the values
   it hands to `interval_set`.
   */
  method IntervalProc(v: seq<nat>, marker: nat) returns (status: Status, l: int, r: int)
    requires IsVector(v) && marker <= 2 * |v| - 1
    ensures status.MvFail? <==> AllFail(v) || (Mixed(v) && Unfound(v, marker))
    ensures AllPass(v) ==> status.MvOk? && l == 0 && r == |v| - 1
    ensures status.MvOk? && Mixed(v) ==> IsPassRun(v, l, r) && Reaches(v, l, r, marker) && r - l + 1 < |v|
    ensures status.MvOk? ==> 0 <= l <= r < 2 * |v|
  {
    var passes, fails := CountPasses(v);
    if fails == |v| {
      return MvFail, 0, 0;
    }
    if passes == |v| {
      return MvOk, 0, |v| - 1;
    }
    status, r := FindRightEnd(v, marker);
    if status.MvFail? {
      NoRightEnd(v, marker);
      return MvFail, 0, 0;
    }
    status, l := FindLeftEnd(v, r);
    if marker < |v| {
      UnfoundInside(v, marker, r);
    } else {
      FoundBeyond(v, marker, r);
    }
    if status.MvOk? {
      RunIsShort(v, l, r);
    }
  }

  /** Two results of the search for the same input are the same run. */
  lemma RunIsUnique(v: seq<nat>, marker: nat, l: int, r: int, l': int, r': int)
    requires IsVector(v) && Mixed(v)
    requires IsPassRun(v, l, r) && Reaches(v, l, r, marker)
    requires IsPassRun(v, l', r') && Reaches(v, l', r', marker)
    ensures l == l' && r == r'
  {
    assert Passes(v, r) && Passes(v, r') && Passes(v, l) && Passes(v, l');
  }

  /** Only tap `t` passes. */
  function Single(n: nat, t: nat): seq<nat> { seq(n, i requires 0 <= i < n => if i == t then PASS else FAIL) }

  /**
   The failing family is not empty for any length: with the marker on tap 0 as
   the only passing tap, or on the last one in the second turn, a pass run
   exists and the search gives up.
   */
  lemma GivesUp(n: nat)
    requires 2 <= n <= 255
    ensures var v := Single(n, 0); IsVector(v) && Mixed(v) && IsPassRun(v, n, n) && Unfound(v, 0)
    ensures var v := Single(n, n - 1); IsVector(v) && Mixed(v) && IsPassRun(v, n - 1, n - 1) && Unfound(v, 2 * n - 1)
  {
    var v, u := Single(n, 0), Single(n, n - 1);
    assert v[0] == PASS && v[1] == FAIL && u[n - 1] == PASS && u[0] == FAIL;
    Wrap(v, n - 1);
    Wrap(v, n);
    Wrap(v, n + 1);
    Wrap(u, n - 2);
    Wrap(u, n - 1);
    Wrap(u, n);
  }

  // ---------------------------------------------------------------- the caller

  const ADLL_TAPS_PER_PERIOD: nat := 64

  /** `interval_init` for the whole period. */
  predicate MarkersValid(n: nat, lmarker: nat, rmarker: nat) {
    lmarker <= n - 1 && lmarker <= rmarker <= (n - 1) + n
  }

  /** `mv_ddr_dm_to_dq_diff_get`: how far the pass run extends beyond the two given limits. */
  method DmToDqDiff(hi: nat, lo: nat, v: seq<nat>) returns (status: Status, hiDiff: int, loDiff: int)
    requires IsVector(v) && |v| == ADLL_TAPS_PER_PERIOD && hi < 256 && lo < 256
    ensures status.MvFail? <==>
            !MarkersValid(|v|, lo, hi) || !Mixed(v) || Unfound(v, hi)
    ensures status.MvOk? ==>
            exists l, r ::
              && IsPassRun(v, l, r) && Reaches(v, l, r, hi) && r - l + 1 < |v|
              && hiDiff == r - hi && loDiff == lo - l
              && hiDiff + loDiff == (r - l) - (hi - lo)
    ensures status.MvOk? ==> (hiDiff >= 0 <==> Passes(v, hi))
  {
    hiDiff, loDiff := 0, 0;
    if lo > |v| - 1 || hi < lo || hi > (|v| - 1) + |v| {
      return MvFail, 0, 0;
    }
    var l, r;
    status, l, r := IntervalProc(v, hi);
    if status.MvFail? {
      return;
    }
    // interval_set stores the results in unsigned bytes
    var passL, passR := l % 256, r % 256;
    if passR == |v| - 1 && passL == 0 {
      status := MvFail;
      return;
    }
    hiDiff := passR - hi;
    loDiff := lo - passL;
    assert Reaches(v, l, r, hi);
  }
}
