/**
 The receive-Vref hill climb: three averaged window measurements per round, and
 per lane a coarse climb, then a fine search back. The measurements are an
 arbitrary function of round, repetition and lane.
 */
module VrefSearch {
  import opened Base

  const VREF_INITIAL_STEP: nat := 3
  const VREF_SECOND_STEP: nat := 1
  const VREF_MAX_INDEX: nat := 7
  const MAX_ROUNDS: nat := 10

  datatype Stage = Step1 | Step2 | Converge

  datatype Lane = Lane(
    stage: Stage,
    current: int,        // current_vref
    last: int,           // last_vref
    limit: int,          // lim_vref
    window: int,         // current_valid_window
    lastWindow: int,     // last_valid_window
    programmed: int      // the index whose code the search last wrote to the lane's Vref register
  )

  /** By round, repetition (1..3) and lane; the register field holds five bits. */
  type Measurements = (nat, nat, nat) -> nat

  ghost predicate FiveBits(m: Measurements) {
    forall round: nat, rep: nat, k: nat :: m(round, rep, k) <= 31
  }

  const FRESH_LANE: Lane := Lane(Step1, 0, 0, 0, 0, 0, 0)

  /** A lane whose window was wide enough before the search is not searched. */
  function InitialLane(wideEnough: bool): Lane {
    if wideEnough then FRESH_LANE.(stage := Converge) else FRESH_LANE
  }

  // ---------------------------------------------------------------- one round of one lane

  function Measured(lane: Lane, rep: nat, r: nat): Lane
    requires rep >= 1
  {
    if lane.stage.Converge? then lane else lane.(window := (lane.window * (rep - 1) + 1000 * r) / rep)
  }

  /** No worse than the best so far by more than the resolution of the measurement. */
  predicate Good(lane: Lane) { lane.window + 200 >= lane.lastWindow }

  function Decide(lane: Lane): Lane {
    match lane.stage
    case Converge => lane
    case Step1 =>
      if Good(lane) then
        var best := Max(lane.window, lane.lastWindow);
        if lane.current == VREF_MAX_INDEX then
          lane.(stage := Converge, lastWindow := best, programmed := lane.current)
        else
          var next := Min(lane.current + VREF_INITIAL_STEP, VREF_MAX_INDEX);
          lane.(current := next, last := next, limit := next, lastWindow := best, programmed := next,
                stage := if next == VREF_MAX_INDEX then Step2 else Step1)
      else
        var next := lane.current - VREF_SECOND_STEP;
        lane.(stage := Step2, limit := lane.current - VREF_INITIAL_STEP, lastWindow := lane.window,
              last := lane.current, current := next, programmed := next)
    case Step2 =>
      if Good(lane) then
        var l1 := lane.(lastWindow := Max(lane.window, lane.lastWindow), last := lane.current);
        if lane.current - VREF_SECOND_STEP == lane.limit then
          var next := lane.current - VREF_SECOND_STEP;
          l1.(stage := Converge, current := next, programmed := next)
        else if lane.current == lane.limit then
          l1.(stage := Converge, programmed := lane.current)
        else
          var next := lane.current - VREF_SECOND_STEP;
          l1.(current := next, programmed := next)
      else
        lane.(stage := Converge, programmed := lane.last)
  }

  function Averaged(lane: Lane, m: Measurements, round: nat, k: nat): Lane {
    Measured(Measured(Measured(lane, 1, m(round, 1, k)), 2, m(round, 2, k)), 3, m(round, 3, k))
  }

  /** The lane after a number of rounds. */
  function LaneAfter(wideEnough: bool, m: Measurements, k: nat, rounds: nat): Lane {
    if rounds == 0 then InitialLane(wideEnough)
    else Decide(Averaged(LaneAfter(wideEnough, m, k, rounds - 1), m, rounds - 1, k))
  }

  /** The window of a round: its three repetitions averaged, in thousandths of a tap. */
  function RoundWindow(m: Measurements, k: nat, round: nat): nat {
    1000 * (m(round, 1, k) + m(round, 2, k) + m(round, 3, k)) / 3
  }

  /** The three-step running average loses nothing: it is the floor of the true average, and fits 16 bits. */
  lemma AverageExact(lane: Lane, m: Measurements, round: nat, k: nat)
    requires !lane.stage.Converge?
    ensures Averaged(lane, m, round, k) == lane.(window := RoundWindow(m, k, round))
    ensures FiveBits(m) ==> RoundWindow(m, k, round) <= 31000 < 0x1_0000
  {
    var r1, r2, r3 := m(round, 1, k), m(round, 2, k), m(round, 3, k);
    var s1 := Measured(lane, 1, r1);
    assert s1.window == 1000 * r1;
    var s2 := Measured(s1, 2, r2);
    assert s2.window == 500 * (r1 + r2);
    var s3 := Measured(s2, 3, r3);
    assert s3.window == (1000 * (r1 + r2) + 1000 * r3) / 3;
  }

  // ---------------------------------------------------------------- convergence

  /** The states a searched lane can be in; all other combinations are out of reach. */
  predicate OnPath(lane: Lane) {
    || lane.stage.Converge?
    || (lane.programmed == lane.current
        && match lane.stage
           case Step1 => (lane.current == 0 && lane.lastWindow == 0) || lane.current == 3 || lane.current == 6
           case _ =>
             || (lane.current == 7 && lane.limit == 7 && lane.last == 7)
             || (lane.current == 2 && lane.limit == 0 && lane.last == 3)
             || (lane.current == 1 && lane.limit == 0 && lane.last == 2)
             || (lane.current == 5 && lane.limit == 3 && lane.last == 6)
             || (lane.current == 4 && lane.limit == 3 && lane.last == 5))
  }

  /** How many more rounds the lane can need. */
  function RoundsLeft(lane: Lane): nat {
    match lane.stage
    case Converge => 0
    case Step1 => if lane.current == 0 then 5 else if lane.current == 3 then 4 else 3
    case Step2 => if lane.current == 2 || lane.current == 5 then 2 else 1
  }

  predicate IndexInRange(lane: Lane) {
    0 <= lane.current <= VREF_MAX_INDEX && 0 <= lane.programmed <= VREF_MAX_INDEX
  }

  lemma AveragedFrame(lane: Lane, m: Measurements, round: nat, k: nat)
    ensures Averaged(lane, m, round, k) == lane.(window := Averaged(lane, m, round, k).window)
    ensures !lane.stage.Converge? ==> Averaged(lane, m, round, k).window >= 0
  {
  }

  lemma RoundStaysOnPath(lane: Lane)
    requires OnPath(lane) && IndexInRange(lane) && (lane.stage.Converge? || lane.window >= 0)
    ensures OnPath(Decide(lane)) && IndexInRange(Decide(lane))
    ensures lane.stage.Converge? ==> Decide(lane) == lane
    ensures !lane.stage.Converge? ==> RoundsLeft(Decide(lane)) < RoundsLeft(lane)
  {
  }

  lemma {:induction false} SearchStaysOnPath(wide: bool, m: Measurements, k: nat, rounds: nat)
    ensures var lane := LaneAfter(wide, m, k, rounds);
            && OnPath(lane) && IndexInRange(lane)
            && (lane.stage.Converge? || RoundsLeft(lane) + rounds <= 5)
  {
    if rounds > 0 {
      SearchStaysOnPath(wide, m, k, rounds - 1);
      var lane := LaneAfter(wide, m, k, rounds - 1);
      AveragedFrame(lane, m, rounds - 1, k);
      RoundStaysOnPath(Averaged(lane, m, rounds - 1, k));
    }
  }

  /** Whatever is measured, every lane has converged after five rounds. */
  lemma ConvergesWithinFive(wide: bool, m: Measurements, k: nat, rounds: nat)
    requires rounds >= 5
    ensures LaneAfter(wide, m, k, rounds).stage.Converge?
  {
    SearchStaysOnPath(wide, m, k, rounds);
  }

  /** One round of a lane that is still searched. */
  lemma OneRound(m: Measurements, k: nat, n: nat, lane: Lane, after: Lane)
    requires LaneAfter(false, m, k, n) == lane && !lane.stage.Converge?
    requires after == Decide(lane.(window := RoundWindow(m, k, n)))
    ensures LaneAfter(false, m, k, n + 1) == after
  {
    AverageExact(lane, m, n, k);
  }

  lemma SteadyRound(m: Measurements, k: nat, n: nat, lane: Lane, r: nat, after: Lane)
    requires LaneAfter(false, m, k, n) == lane && !lane.stage.Converge?
    requires m(n, 1, k) == m(n, 2, k) == m(n, 3, k) == r
    requires after == Decide(lane.(window := 1000 * r))
    ensures LaneAfter(false, m, k, n + 1) == after
  {
    OneRound(m, k, n, lane, after);
  }

  lemma TwoGoodRounds(m: Measurements, k: nat, rounds: nat)
    requires rounds == 2
    requires forall rep: nat :: m(0, rep, k) == 20 && m(1, rep, k) == 20
    ensures LaneAfter(false, m, k, rounds) == Lane(Step1, 6, 6, 6, 20000, 20000, 6)
  {
    var l1 := Lane(Step1, 3, 3, 3, 20000, 20000, 3);
    SteadyRound(m, k, rounds - 2, FRESH_LANE, 20, l1);
    SteadyRound(m, k, rounds - 1, l1, 20, Lane(Step1, 6, 6, 6, 20000, 20000, 6));
  }

  /** Five rounds can be needed: two good windows, a bad one, then a good one. */
  lemma FiveCanBeNeeded(m: Measurements, k: nat, rounds: nat)
    requires rounds == 4
    requires forall rep: nat :: m(0, rep, k) == 20 && m(1, rep, k) == 20 && m(2, rep, k) == 10 && m(3, rep, k) == 10
    ensures !LaneAfter(false, m, k, rounds).stage.Converge?
  {
    TwoGoodRounds(m, k, rounds - 2);
    var l3 := Lane(Step2, 5, 6, 3, 10000, 10000, 5);
    SteadyRound(m, k, rounds - 2, Lane(Step1, 6, 6, 6, 20000, 20000, 6), 10, l3);
    SteadyRound(m, k, rounds - 1, l3, 10, Lane(Step2, 4, 5, 3, 10000, 10000, 4));
  }

  lemma {:induction false} ConvergeIsFinal(wide: bool, m: Measurements, k: nat, rounds: nat, later: nat)
    requires rounds <= later && LaneAfter(wide, m, k, rounds).stage.Converge?
    ensures LaneAfter(wide, m, k, later) == LaneAfter(wide, m, k, rounds)
    decreases later
  {
    if rounds < later {
      ConvergeIsFinal(wide, m, k, rounds, later - 1);
      AveragedFrame(LaneAfter(wide, m, k, later - 1), m, later - 1, k);
    }
  }

  /** A lane whose window was wide enough before the search is never measured, moved or programmed. */
  lemma WideEnoughIsLeftAlone(m: Measurements, k: nat, rounds: nat)
    ensures LaneAfter(true, m, k, rounds) == Lane(Converge, 0, 0, 0, 0, 0, 0)
  {
    ConvergeIsFinal(true, m, k, 0, rounds);
  }

  // ---------------------------------------------------------------- what it settles on

  /** In some round before `rounds` the index was programmed while the lane was measured. */
  ghost predicate WasMeasured(m: Measurements, k: nat, rounds: nat, index: int) {
    exists j: nat :: j < rounds && ProbedIn(m, k, j, index)
  }

  predicate ProbedIn(m: Measurements, k: nat, j: nat, index: int) {
    var lane := LaneAfter(false, m, k, j);
    !lane.stage.Converge? && lane.programmed == index
  }

  /** The indices a lane in this state still refers back to. */
  ghost predicate ReferencesMeasured(m: Measurements, k: nat, rounds: nat) {
    var lane := LaneAfter(false, m, k, rounds);
    match lane.stage
    case Step1 => lane.current == 3 || lane.current == 6 ==>
      WasMeasured(m, k, rounds, 0) && (lane.current == 6 ==> WasMeasured(m, k, rounds, 3))
    case Step2 =>
      (lane.current != 7 ==> WasMeasured(m, k, rounds, lane.limit) && WasMeasured(m, k, rounds, lane.last))
    case Converge => WasMeasured(m, k, rounds, lane.programmed)
  }

  lemma MeasuredLater(m: Measurements, k: nat, rounds: nat, index: int)
    requires WasMeasured(m, k, rounds, index)
    ensures WasMeasured(m, k, rounds + 1, index)
  {
    var j: nat :| j < rounds && ProbedIn(m, k, j, index);
    assert j < rounds + 1 && ProbedIn(m, k, j, index);
  }

  lemma {:induction false} AlwaysReferencesMeasured(m: Measurements, k: nat, rounds: nat)
    ensures ReferencesMeasured(m, k, rounds)
  {
    if rounds > 0 {
      var n := rounds - 1;
      AlwaysReferencesMeasured(m, k, n);
      SearchStaysOnPath(false, m, k, n);
      var lane := LaneAfter(false, m, k, n);
      AveragedFrame(lane, m, n, k);
      if !lane.stage.Converge? {
        assert ProbedIn(m, k, n, lane.programmed);
        assert WasMeasured(m, k, rounds, lane.programmed);
      }
      forall index: int | WasMeasured(m, k, n, index)
        ensures WasMeasured(m, k, rounds, index)
      {
        MeasuredLater(m, k, n, index);
      }
    }
  }

  /** The Vref a searched lane is left with is one it was measured at. */
  lemma SettlesOnMeasured(m: Measurements, k: nat, rounds: nat)
    requires rounds >= 5
    ensures WasMeasured(m, k, rounds, LaneAfter(false, m, k, rounds).programmed)
  {
    AlwaysReferencesMeasured(m, k, rounds);
    ConvergesWithinFive(false, m, k, rounds);
  }

  // ---------------------------------------------------------------- when it is the best one measured

  predicate Searching(m: Measurements, k: nat, i: nat) { !LaneAfter(false, m, k, i).stage.Converge? }

  /** No measured window beats that of round `j` by more than the resolution of the measurement. */
  ghost predicate NoneBetter(m: Measurements, k: nat, rounds: nat, j: nat) {
    forall i: nat :: i < rounds && Searching(m, k, i) ==> RoundWindow(m, k, j) + 200 >= RoundWindow(m, k, i)
  }

  /** A window is a third of a whole number of thousands, so the resolution of 200 never tells two of them apart. */
  lemma ResolutionIsInert(m: Measurements, k: nat, i: nat, j: nat)
    ensures RoundWindow(m, k, i) + 200 >= RoundWindow(m, k, j) <==> RoundWindow(m, k, i) >= RoundWindow(m, k, j)
  {
    var a := m(i, 1, k) + m(i, 2, k) + m(i, 3, k);
    var b := m(j, 1, k) + m(j, 2, k) + m(j, 3, k);
    assert a < b ==> RoundWindow(m, k, i) + 200 < RoundWindow(m, k, j);
  }

  /** The index the lane is left with has, within the resolution, the best window it was measured at. */
  ghost predicate FoundBest(m: Measurements, k: nat, rounds: nat) {
    exists j: nat :: j < rounds && ProbedIn(m, k, j, LaneAfter(false, m, k, rounds).programmed)
                     && NoneBetter(m, k, rounds, j)
  }

  lemma {:induction false} RoundsLeftFalls(m: Measurements, k: nat, i: nat, j: nat)
    requires i <= j && Searching(m, k, j)
    ensures Searching(m, k, i)
    ensures RoundsLeft(LaneAfter(false, m, k, j)) + j - i <= RoundsLeft(LaneAfter(false, m, k, i))
    decreases j
  {
    if i < j {
      var lane := LaneAfter(false, m, k, j - 1);
      SearchStaysOnPath(false, m, k, j - 1);
      AveragedFrame(lane, m, j - 1, k);
      RoundStaysOnPath(Averaged(lane, m, j - 1, k));
      RoundsLeftFalls(m, k, i, j - 1);
    }
  }

  /** No index is measured in two rounds, so "the window measured at an index" is one number. */
  lemma MeasuredOnce(m: Measurements, k: nat, i: nat, j: nat, index: int)
    requires ProbedIn(m, k, i, index) && ProbedIn(m, k, j, index)
    ensures i == j
  {
    SearchStaysOnPath(false, m, k, i);
    SearchStaysOnPath(false, m, k, j);
    if i < j {
      RoundsLeftFalls(m, k, i, j);
    } else if j < i {
      RoundsLeftFalls(m, k, j, i);
    }
  }

  /** The fine search below a bad coarse step: two windows one step apart, after the coarse window before the bad one. */
  predicate FineBest(before: nat, bad: nat, first: nat, second: nat, atLimit: nat) {
    && first + 200 >= bad
    && if second + 200 < Max(bad, first) then first + 200 >= before
       else atLimit + 200 >= first && atLimit + 200 >= second
  }

  predicate BadAtThree(m: Measurements, k: nat) { RoundWindow(m, k, 1) + 200 < RoundWindow(m, k, 0) }

  predicate BadAtSix(m: Measurements, k: nat) {
    RoundWindow(m, k, 2) + 200 < Max(RoundWindow(m, k, 0), RoundWindow(m, k, 1))
  }

  /**
   The windows, by round, with which the code meets its aim. Without a bad
   coarse step the lane ends on 7 whatever is measured there; after a bad one
   it ends on that very index if the first fine step fails, on the first fine
   index if the second fails, and on the limit of the fine search if neither does.
   */
  predicate Meets(m: Measurements, k: nat) {
    var w0, w1, w2, w3, w4 := RoundWindow(m, k, 0), RoundWindow(m, k, 1), RoundWindow(m, k, 2),
                              RoundWindow(m, k, 3), RoundWindow(m, k, 4);
    if BadAtThree(m, k) then FineBest(w0, w1, w2, w3, w0)
    else if BadAtSix(m, k) then FineBest(Max(w0, w1), w2, w3, w4, w1)
    else w3 + 200 >= Max(Max(w0, w1), w2)
  }

  /** The window of round `j` is within the resolution of every one of the first `r`. */
  ghost predicate Tops(m: Measurements, k: nat, r: nat, j: nat) {
    forall i: nat :: i < r ==> RoundWindow(m, k, j) + 200 >= RoundWindow(m, k, i)
  }

  /** A lane that converged in round `r` was searched in exactly the rounds before. */
  lemma SearchedBefore(m: Measurements, k: nat, r: nat, i: nat)
    requires r >= 1 && !Searching(m, k, r) && Searching(m, k, r - 1)
    ensures Searching(m, k, i) <==> i < r
  {
    if i < r {
      RoundsLeftFalls(m, k, i, r - 1);
    } else {
      ConvergeIsFinal(false, m, k, r, i);
    }
  }

  /** A lane that has converged in round `r` on the index probed in round `j`. */
  lemma SettledIn(m: Measurements, k: nat, rounds: nat, r: nat, j: nat)
    requires j < r <= rounds && !Searching(m, k, r) && Searching(m, k, r - 1)
    requires ProbedIn(m, k, j, LaneAfter(false, m, k, r).programmed)
    ensures FoundBest(m, k, rounds) <==> Tops(m, k, r, j)
  {
    ConvergeIsFinal(false, m, k, r, rounds);
    var index := LaneAfter(false, m, k, r).programmed;
    forall i: nat
      ensures Searching(m, k, i) <==> i < r
    {
      SearchedBefore(m, k, r, i);
    }
    forall i: nat | ProbedIn(m, k, i, index)
      ensures i == j
    {
      MeasuredOnce(m, k, i, j, index);
    }
    assert FoundBest(m, k, rounds) <==> NoneBetter(m, k, rounds, j);
  }

  /** The lane after the first round. */
  lemma FirstRound(m: Measurements, k: nat, n: nat)
    requires n == 1
    ensures ProbedIn(m, k, n - 1, 0)
    ensures LaneAfter(false, m, k, n) == Lane(Step1, 3, 3, 3, RoundWindow(m, k, 0), RoundWindow(m, k, 0), 3)
  {
    OneRound(m, k, n - 1, FRESH_LANE, Lane(Step1, 3, 3, 3, RoundWindow(m, k, 0), RoundWindow(m, k, 0), 3));
  }

  /**
   A lane at the start of a fine search in round `n`: one step below the bad
   coarse index, probed in the round before; the search's limit was probed in
   round `z`.
   */
  ghost predicate FineStart(m: Measurements, k: nat, n: nat, z: nat)
    requires n >= 1
  {
    var l := LaneAfter(false, m, k, n);
    && z < n && l.stage.Step2? && (l.limit == 0 || l.limit == 3)
    && l.current == l.programmed == l.limit + 2 && l.last == l.limit + 3
    && l.lastWindow == RoundWindow(m, k, n - 1)
    && ProbedIn(m, k, n - 1, l.last) && ProbedIn(m, k, z, l.limit)
  }

  lemma FirstFineFails(m: Measurements, k: nat, n: nat, z: nat, rounds: nat)
    requires n >= 1 && n + 2 <= rounds && FineStart(m, k, n, z)
    requires RoundWindow(m, k, n) + 200 < RoundWindow(m, k, n - 1)
    ensures FoundBest(m, k, rounds) <==> Tops(m, k, n + 1, n - 1)
  {
    var lane := LaneAfter(false, m, k, n);
    OneRound(m, k, n, lane, Decide(lane.(window := RoundWindow(m, k, n))));
    SettledIn(m, k, rounds, n + 1, n - 1);
  }

  lemma FirstFineHolds(m: Measurements, k: nat, n: nat, z: nat)
    requires n >= 1 && FineStart(m, k, n, z)
    requires RoundWindow(m, k, n) + 200 >= RoundWindow(m, k, n - 1)
    ensures var w0, w1, limit := RoundWindow(m, k, n - 1), RoundWindow(m, k, n), LaneAfter(false, m, k, n).limit;
            && ProbedIn(m, k, n, limit + 2)
            && LaneAfter(false, m, k, n + 1) == Lane(Step2, limit + 1, limit + 2, limit, w1, Max(w1, w0), limit + 1)
  {
    var lane := LaneAfter(false, m, k, n);
    OneRound(m, k, n, lane, Decide(lane.(window := RoundWindow(m, k, n))));
  }

  predicate SecondFails(m: Measurements, k: nat, n: nat)
    requires n >= 1
  {
    RoundWindow(m, k, n + 1) + 200 < Max(RoundWindow(m, k, n - 1), RoundWindow(m, k, n))
  }

  lemma SecondFineLane(m: Measurements, k: nat, n: nat, z: nat)
    requires n >= 1 && FineStart(m, k, n, z)
    requires RoundWindow(m, k, n) + 200 >= RoundWindow(m, k, n - 1)
    ensures Searching(m, k, n + 1) && !Searching(m, k, n + 2)
    ensures ProbedIn(m, k, if SecondFails(m, k, n) then n else z, LaneAfter(false, m, k, n + 2).programmed)
  {
    FirstFineHolds(m, k, n, z);
    var next := LaneAfter(false, m, k, n + 1);
    var last := Decide(next.(window := RoundWindow(m, k, n + 1)));
    OneRound(m, k, n + 1, next, last);
    assert last.programmed == if SecondFails(m, k, n) then next.limit + 2 else next.limit;
  }

  lemma SecondFine(m: Measurements, k: nat, n: nat, z: nat, rounds: nat)
    requires n >= 1 && n + 2 <= rounds && FineStart(m, k, n, z)
    requires RoundWindow(m, k, n) + 200 >= RoundWindow(m, k, n - 1)
    ensures FoundBest(m, k, rounds) <==> Tops(m, k, n + 2, if SecondFails(m, k, n) then n else z)
  {
    SecondFineLane(m, k, n, z);
    SettledIn(m, k, rounds, n + 2, if SecondFails(m, k, n) then n else z);
  }

  /** A bad window at index 3 starts a fine search with limit 0. */
  lemma FineFromThree(m: Measurements, k: nat, n: nat)
    requires n == 2 && BadAtThree(m, k)
    ensures FineStart(m, k, n, n - 2)
  {
    FirstRound(m, k, n - 1);
    var w := RoundWindow(m, k, 1);
    OneRound(m, k, n - 1, LaneAfter(false, m, k, n - 1), Lane(Step2, 2, 3, 0, w, w, 2));
  }

  lemma BestAfterThree(m: Measurements, k: nat, n: nat, rounds: nat)
    requires n == 2 && rounds >= 5 && BadAtThree(m, k)
    ensures FoundBest(m, k, rounds) <==> Meets(m, k)
  {
    FineFromThree(m, k, n);
    if RoundWindow(m, k, n) + 200 < RoundWindow(m, k, n - 1) {
      FirstFineFails(m, k, n, n - 2, rounds);
    } else {
      SecondFine(m, k, n, n - 2, rounds);
    }
  }

  /** A good window at index 3 leads to index 6. */
  lemma SecondRound(m: Measurements, k: nat, n: nat)
    requires n == 2 && !BadAtThree(m, k)
    ensures ProbedIn(m, k, n - 1, 3)
    ensures var w0, w1 := RoundWindow(m, k, 0), RoundWindow(m, k, 1);
            LaneAfter(false, m, k, n) == Lane(Step1, 6, 6, 6, w1, Max(w1, w0), 6)
  {
    FirstRound(m, k, n - 1);
    var lane := LaneAfter(false, m, k, n - 1);
    OneRound(m, k, n - 1, lane, Decide(lane.(window := RoundWindow(m, k, 1))));
  }

  /** Where the fine search from round 3 ends, and when that is the best. */
  lemma TopsAfterSix(m: Measurements, k: nat)
    requires !BadAtThree(m, k) && BadAtSix(m, k)
    ensures !Tops(m, k, 4, 2)
    ensures RoundWindow(m, k, 3) + 200 >= RoundWindow(m, k, 2) ==>
              (Tops(m, k, 5, if SecondFails(m, k, 3) then 3 else 1) <==> Meets(m, k))
  {
    var better := if RoundWindow(m, k, 0) < RoundWindow(m, k, 1) then 1 else 0;
    assert RoundWindow(m, k, 2) + 200 < RoundWindow(m, k, better);
  }

  /** A bad window at index 6 starts a fine search with limit 3. */
  lemma FineFromSix(m: Measurements, k: nat, n: nat)
    requires n == 3 && !BadAtThree(m, k) && BadAtSix(m, k)
    ensures FineStart(m, k, n, n - 2)
  {
    SecondRound(m, k, n - 1);
    var w := RoundWindow(m, k, 2);
    OneRound(m, k, n - 1, LaneAfter(false, m, k, n - 1), Lane(Step2, 5, 6, 3, w, w, 5));
  }

  lemma BestAfterSix(m: Measurements, k: nat, n: nat, rounds: nat)
    requires n == 3 && rounds >= 5 && !BadAtThree(m, k) && BadAtSix(m, k)
    ensures FoundBest(m, k, rounds) <==> Meets(m, k)
  {
    FineFromSix(m, k, n);
    TopsAfterSix(m, k);
    if RoundWindow(m, k, n) + 200 < RoundWindow(m, k, n - 1) {
      FirstFineFails(m, k, n, n - 2, rounds);
    } else {
      SecondFine(m, k, n, n - 2, rounds);
    }
  }

  /** Without a bad window the lane goes on to index 7, and stays there whatever is measured. */
  lemma ToTheTop(m: Measurements, k: nat, n: nat)
    requires n == 3 && !BadAtThree(m, k) && !BadAtSix(m, k)
    ensures ProbedIn(m, k, n, 7)
    ensures !Searching(m, k, n + 1) && LaneAfter(false, m, k, n + 1).programmed == 7
  {
    SecondRound(m, k, n - 1);
    var lane := LaneAfter(false, m, k, n - 1);
    var top := Decide(lane.(window := RoundWindow(m, k, 2)));
    OneRound(m, k, n - 1, lane, top);
    OneRound(m, k, n, top, Decide(top.(window := RoundWindow(m, k, n))));
  }

  lemma BestAtTop(m: Measurements, k: nat, n: nat, rounds: nat)
    requires n == 3 && rounds >= 5 && !BadAtThree(m, k) && !BadAtSix(m, k)
    ensures FoundBest(m, k, rounds) <==> Meets(m, k)
  {
    ToTheTop(m, k, n);
    SettledIn(m, k, rounds, n + 1, n);
  }

  /** The lane is left on the best index it was measured at exactly in the cases of `Meets`. */
  lemma BestExact(m: Measurements, k: nat, rounds: nat)
    requires rounds >= 5
    ensures FoundBest(m, k, rounds) <==> Meets(m, k)
  {
    if BadAtThree(m, k) {
      BestAfterThree(m, k, 2, rounds);
    } else if BadAtSix(m, k) {
      BestAfterSix(m, k, 3, rounds);
    } else {
      BestAtTop(m, k, 3, rounds);
    }
  }

  /** Neither of the two runs below ends on the best index. */
  lemma MissedBest(m: Measurements, k: nat, rounds: nat)
    requires rounds >= 5
    ensures (forall rep: nat :: m(0, rep, k) == 30 && m(1, rep, k) == 20 && m(2, rep, k) == 10) ==> !FoundBest(m, k, rounds)
    ensures (forall rep: nat :: m(0, rep, k) == 20 && m(1, rep, k) == 20 && m(2, rep, k) == 20 && m(3, rep, k) == 1) ==>
              !FoundBest(m, k, rounds)
  {
    BestExact(m, k, rounds);
  }

  /** It need not be the best one: windows 30, 20 and 10 at indices 0, 3 and 2 leave the lane at index 3. */
  lemma NotAlwaysBest(m: Measurements, k: nat, rounds: nat)
    requires rounds == 3
    requires forall rep: nat :: m(0, rep, k) == 30 && m(1, rep, k) == 20 && m(2, rep, k) == 10
    ensures LaneAfter(false, m, k, rounds) == Lane(Converge, 2, 3, 0, 10000, 20000, 3)
    ensures LaneAfter(false, m, k, rounds - 3).programmed == 0 && LaneAfter(false, m, k, rounds - 2).programmed == 3
  {
    var l1 := Lane(Step1, 3, 3, 3, 30000, 30000, 3);
    var l2 := Lane(Step2, 2, 3, 0, 20000, 20000, 2);
    SteadyRound(m, k, rounds - 3, FRESH_LANE, 30, l1);
    SteadyRound(m, k, rounds - 2, l1, 20, l2);
    SteadyRound(m, k, rounds - 1, l2, 10, Lane(Converge, 2, 3, 0, 10000, 20000, 3));
  }

  /** It can even be the worst one: windows 20, 20, 20 and 1 at indices 0, 3, 6 and 7 leave the lane at index 7. */
  lemma WorstAtTop(m: Measurements, k: nat, rounds: nat)
    requires rounds == 4
    requires forall rep: nat :: m(0, rep, k) == 20 && m(1, rep, k) == 20 && m(2, rep, k) == 20 && m(3, rep, k) == 1
    ensures LaneAfter(false, m, k, rounds) == Lane(Converge, 7, 7, 7, 1000, 20000, 7)
    ensures ProbedIn(m, k, rounds - 1, 7)
  {
    TwoGoodRounds(m, k, rounds - 2);
    var l3 := Lane(Step2, 7, 7, 7, 20000, 20000, 7);
    SteadyRound(m, k, rounds - 2, Lane(Step1, 6, 6, 6, 20000, 20000, 6), 20, l3);
    SteadyRound(m, k, rounds - 1, l3, 1, Lane(Converge, 7, 7, 7, 1000, 20000, 7));
  }

  // ---------------------------------------------------------------- the loop

  function CountTrue(s: seq<bool>): nat {
    if s == [] then 0 else CountTrue(s[..|s| - 1]) + if s[|s| - 1] then 1 else 0
  }

  lemma {:induction false} CountSet(s: seq<bool>, k: nat)
    requires k < |s| && !s[k]
    ensures CountTrue(s[k := true]) == CountTrue(s) + 1
  {
    var n := |s| - 1;
    if k == n {
      assert s[k := true][..n] == s[..n];
    } else {
      assert s[k := true][..n] == s[..n][k := true];
      CountSet(s[..n], k);
    }
  }

  lemma {:induction false} CountBound(s: seq<bool>)
    ensures CountTrue(s) <= |s|
    ensures CountTrue(s) == |s| ==> forall k :: 0 <= k < |s| ==> s[k]
  {
    if s != [] {
      CountBound(s[..|s| - 1]);
    }
  }

  /** Lane `k` is where its own measurements have taken it. */
  predicate LaneIn(m: Measurements, wide: seq<bool>, lanes: seq<Lane>, rounds: nat, k: nat)
    requires k < |wide| && k < |lanes|
  {
    lanes[k] == LaneAfter(wide[k], m, k, rounds)
  }

  ghost predicate InRound(m: Measurements, active: seq<bool>, wide: seq<bool>, lanes: seq<Lane>, rounds: nat) {
    && |active| == |wide| == |lanes|
    && forall k {:trigger LaneIn(m, wide, lanes, rounds, k)} ::
         0 <= k < |lanes| && active[k] ==> LaneIn(m, wide, lanes, rounds, k)
  }

  /** One repetition of the measurement over all lanes. */
  method MeasureAll(m: Measurements, round: nat, rep: nat, active: seq<bool>, lanes: array<Lane>)
    requires rep >= 1 && |active| == lanes.Length
    modifies lanes
    ensures forall k :: 0 <= k < lanes.Length ==>
              lanes[k] == if active[k] then Measured(old(lanes[k]), rep, m(round, rep, k)) else old(lanes[k])
  {
    for k := 0 to lanes.Length
      invariant forall j :: 0 <= j < k ==>
                  lanes[j] == if active[j] then Measured(old(lanes[j]), rep, m(round, rep, j)) else old(lanes[j])
      invariant forall j :: k <= j < lanes.Length ==> lanes[j] == old(lanes[j])
    {
      if active[k] && !lanes[k].stage.Converge? {
        lanes[k] := lanes[k].(window := (lanes[k].window * (rep - 1) + 1000 * m(round, rep, k)) / rep);
      }
    }
  }

  /**
   `won[k]` says that lane k has converged during the search. The flag counts them: with one interface,
   the code's run flag and its per-interface state are both incremented together with it.
   */
  ghost predicate Tallied(active: seq<bool>, lanes: seq<Lane>, won: seq<bool>, flag: nat) {
    && |active| == |lanes| == |won| && flag == CountTrue(won)
    && forall k :: 0 <= k < |won| && won[k] ==> active[k] && lanes[k].stage.Converge?
  }

  /** The compare-and-respond loop: decide for every active lane, counting the new arrivals. */
  method DecideAll(active: seq<bool>, lanes: array<Lane>, flag: nat, ghost won: seq<bool>)
    returns (newFlag: nat, ghost newWon: seq<bool>)
    requires Tallied(active, lanes[..], won, flag)
    modifies lanes
    ensures forall k :: 0 <= k < lanes.Length ==>
              lanes[k] == if active[k] then Decide(old(lanes[k])) else old(lanes[k])
    ensures Tallied(active, lanes[..], newWon, newFlag)
  {
    newFlag, newWon := flag, won;
    for k := 0 to lanes.Length
      invariant forall j :: 0 <= j < k ==> lanes[j] == if active[j] then Decide(old(lanes[j])) else old(lanes[j])
      invariant forall j :: k <= j < lanes.Length ==> lanes[j] == old(lanes[j])
      invariant Tallied(active, lanes[..], newWon, newFlag)
    {
      if active[k] && !lanes[k].stage.Converge? {
        ghost var before := lanes[..];
        lanes[k] := Decide(lanes[k]);
        assert lanes[..] == before[k := lanes[k]];
        if lanes[k].stage.Converge? {
          CountSet(newWon, k);
          newFlag := newFlag + 1;
          newWon := newWon[k := true];
        }
      }
    }
  }

  /**
   The whole search on up to four lanes. Neither the converged-lane gate on the
   measurements nor the convergence flag ever influences the outcome: each
   active lane runs its own ten rounds, and the round cap ends the loop with
   every active lane converged.
   */
  method Search(m: Measurements, active: seq<bool>, wide: seq<bool>, lanes: array<Lane>)
    returns (rounds: nat, flag: nat)
    requires |active| == |wide| == lanes.Length <= 4
    modifies lanes
    ensures rounds == MAX_ROUNDS && flag <= lanes.Length
    ensures InRound(m, active, wide, lanes[..], rounds)
    ensures Settled(active, lanes[..])
  {
    rounds, flag := RunRounds(m, active, wide, lanes);
    AllSettled(m, active, wide, lanes[..], rounds);
  }

  /** The loop itself: until every lane is flagged more than once, which never happens, or ten rounds. */
  method RunRounds(m: Measurements, active: seq<bool>, wide: seq<bool>, lanes: array<Lane>)
    returns (rounds: nat, flag: nat)
    requires |active| == |wide| == lanes.Length <= 4
    modifies lanes
    ensures rounds == MAX_ROUNDS && flag <= lanes.Length
    ensures InRound(m, active, wide, lanes[..], rounds)
  {
    ghost var won := InitLanes(m, active, wide, lanes);
    rounds, flag := 0, 0;
    while flag <= lanes.Length && rounds < MAX_ROUNDS
      invariant rounds <= MAX_ROUNDS
      invariant InRound(m, active, wide, lanes[..], rounds)
      invariant Tallied(active, lanes[..], won, flag) && flag <= lanes.Length
      decreases MAX_ROUNDS - rounds
    {
      flag, won := Round(m, rounds, active, wide, lanes, flag, won);
      rounds := rounds + 1;
    }
  }

  method InitLanes(m: Measurements, active: seq<bool>, wide: seq<bool>, lanes: array<Lane>) returns (ghost won: seq<bool>)
    requires |active| == |wide| == lanes.Length
    modifies lanes
    ensures InRound(m, active, wide, lanes[..], 0) && Tallied(active, lanes[..], won, 0)
  {
    for k := 0 to lanes.Length
      invariant forall j :: 0 <= j < k ==> lanes[j] == InitialLane(wide[j])
    {
      lanes[k] := InitialLane(wide[k]);
    }
    won := seq(lanes.Length, _ => false);
    NoneWon(won);
  }

  /** Every active lane has converged, on an index the register can hold. */
  ghost predicate Settled(active: seq<bool>, lanes: seq<Lane>)
    requires |active| == |lanes|
  {
    forall k :: 0 <= k < |lanes| && active[k] ==> lanes[k].stage.Converge? && IndexInRange(lanes[k])
  }

  lemma AllSettled(m: Measurements, active: seq<bool>, wide: seq<bool>, lanes: seq<Lane>, rounds: nat)
    requires InRound(m, active, wide, lanes, rounds) && rounds >= 5
    ensures Settled(active, lanes)
  {
    forall k | 0 <= k < |lanes| && active[k]
      ensures lanes[k].stage.Converge? && IndexInRange(lanes[k])
    {
      assert LaneIn(m, wide, lanes, rounds, k);
      ConvergesWithinFive(wide[k], m, k, rounds);
      SearchStaysOnPath(wide[k], m, k, rounds);
    }
  }

  lemma {:induction false} NoneWon(won: seq<bool>)
    requires forall k :: 0 <= k < |won| ==> !won[k]
    ensures CountTrue(won) == 0
  {
    if won != [] {
      NoneWon(won[..|won| - 1]);
    }
  }

  method Round(m: Measurements, rounds: nat, active: seq<bool>, wide: seq<bool>, lanes: array<Lane>, flag: nat, ghost won: seq<bool>)
    returns (newFlag: nat, ghost newWon: seq<bool>)
    requires InRound(m, active, wide, lanes[..], rounds) && Tallied(active, lanes[..], won, flag) && lanes.Length <= 4
    modifies lanes
    ensures InRound(m, active, wide, lanes[..], rounds + 1)
    ensures Tallied(active, lanes[..], newWon, newFlag) && newFlag <= lanes.Length
  {
    ghost var start := lanes[..];
    MeasureThrice(m, rounds, active, lanes, flag, won);
    newFlag, newWon := DecideAll(active, lanes, flag, won);
    CountBound(newWon);
    forall k | 0 <= k < lanes.Length && active[k]
      ensures LaneIn(m, wide, lanes[..], rounds + 1, k)
    {
      assert LaneIn(m, wide, start, rounds, k);
    }
  }

  /** The three repetitions; they are skipped once four lanes have converged. */
  method MeasureThrice(m: Measurements, round: nat, active: seq<bool>, lanes: array<Lane>, flag: nat, ghost won: seq<bool>)
    requires Tallied(active, lanes[..], won, flag) && lanes.Length <= 4
    modifies lanes
    ensures forall k :: 0 <= k < lanes.Length ==>
              lanes[k] == if active[k] then Averaged(old(lanes[k]), m, round, k) else old(lanes[k])
    ensures Tallied(active, lanes[..], won, flag)
  {
    ghost var start := lanes[..];
    for rep := 1 to 4
      invariant forall k :: 0 <= k < lanes.Length ==>
                  lanes[k] == if active[k] then Repeated(start[k], m, round, k, rep - 1) else start[k]
    {
      if flag != 4 {
        MeasureAll(m, round, rep, active, lanes);
      } else {
        GateIsHarmless(active, start, won, m, round, rep);
      }
    }
    forall k | 0 <= k < lanes.Length
      ensures lanes[k] == if active[k] then Averaged(start[k], m, round, k) else start[k]
    {
      ThreeRepetitions(start[k], m, round, k);
    }
    forall k | 0 <= k < lanes.Length
      ensures lanes[k].stage == start[k].stage
    {
      AveragedFrame(start[k], m, round, k);
    }
  }

  lemma ThreeRepetitions(lane: Lane, m: Measurements, round: nat, k: nat)
    ensures Repeated(lane, m, round, k, 3) == Averaged(lane, m, round, k)
  {
    assert Repeated(lane, m, round, k, 1) == Measured(lane, 1, m(round, 1, k));
    assert Repeated(lane, m, round, k, 2) == Measured(Repeated(lane, m, round, k, 1), 2, m(round, 2, k));
  }

  function Repeated(lane: Lane, m: Measurements, round: nat, k: nat, reps: nat): Lane {
    if reps == 0 then lane else Measured(Repeated(lane, m, round, k, reps - 1), reps, m(round, reps, k))
  }

  lemma {:induction false} ConvergedRepeated(lane: Lane, m: Measurements, round: nat, k: nat, reps: nat)
    requires lane.stage.Converge?
    ensures Repeated(lane, m, round, k, reps) == lane
  {
    if reps > 0 {
      ConvergedRepeated(lane, m, round, k, reps - 1);
    }
  }

  /** With at most four lanes, a count of four means that nothing is left to measure. */
  lemma GateIsHarmless(active: seq<bool>, lanes: seq<Lane>, won: seq<bool>, m: Measurements, round: nat, rep: nat)
    requires Tallied(active, lanes, won, 4) && |won| <= 4 && rep >= 1
    ensures forall k :: 0 <= k < |lanes| ==>
              Repeated(lanes[k], m, round, k, rep - 1) == lanes[k] == Repeated(lanes[k], m, round, k, rep)
  {
    CountBound(won);
    forall k | 0 <= k < |lanes|
      ensures Repeated(lanes[k], m, round, k, rep - 1) == lanes[k] == Repeated(lanes[k], m, round, k, rep)
    {
      ConvergedRepeated(lanes[k], m, round, k, rep - 1);
      ConvergedRepeated(lanes[k], m, round, k, rep);
    }
  }
}
