/**
 The phase-shift attempt of write-leveling supplementary: try the neighbouring
 phases of a lane's write-leveling register until a compare test passes, and
 put the register back if none does.
 */
module PhaseShift {
  import opened Base

  /** The phase field, bits 8..6. */
  function PhaseOf(reg: bv32): bv32 { (reg >> 6) & 0x7 }

  /** Replace the phase field only. */
  function WithPhase(reg: bv32, phase: bv32): bv32 { (reg & !0x1c0) | (phase << 6) }

  /** The four shifts in the order they are tried. */
  datatype Shift = Back2 | Forward2 | Forward4 | Forward6

  function Shifts(): seq<Shift> { [Back2, Forward2, Forward4, Forward6] }

  /** The shift is attempted from this phase. */
  predicate Applies(phase: bv32, s: Shift) {
    match s
    case Back2 => phase >= 1
    case Forward2 => phase <= 5
    case Forward4 => phase <= 3
    case Forward6 => phase <= 1
  }

  /** Where a shift takes the phase field: exactly by its amount, but from 1 back to 0. */
  function TargetPhase(phase: bv32, s: Shift): bv32 {
    match s
    case Back2 => if phase == 1 then 0 else phase - 2
    case Forward2 => phase + 2
    case Forward4 => phase + 4
    case Forward6 => phase + 6
  }

  /** The register written for a shift; from phase 1, going back clears the delay as well. */
  function Candidate(data: bv32, s: Shift): bv32 {
    if s.Back2? && PhaseOf(data) == 1 then data & !0x1df
    else WithPhase(data, TargetPhase(PhaseOf(data), s))
  }

  lemma PhaseFits(reg: bv32)
    ensures PhaseOf(reg) <= 7
  {
  }

  lemma WithPhaseFields(reg: bv32, phase: bv32)
    requires phase <= 7
    ensures PhaseOf(WithPhase(reg, phase)) == phase
    ensures WithPhase(reg, phase) & !0x1df == reg & !0x1df
    ensures WithPhase(reg, phase) & 0x1f == reg & 0x1f
  {
  }

  lemma ClearedFields(reg: bv32)
    ensures PhaseOf(reg & !0x1df) == 0
    ensures (reg & !0x1df) & !0x1df == reg & !0x1df
    ensures (reg & !0x1df) & 0x1f == 0
  {
  }

  /** A candidate moves the phase by its shift, within the field. */
  lemma CandidatePhase(data: bv32, s: Shift)
    requires Applies(PhaseOf(data), s)
    ensures PhaseOf(Candidate(data, s)) == TargetPhase(PhaseOf(data), s) <= 7
  {
  }

  lemma TargetFits(phase: bv32, s: Shift)
    requires phase <= 7 && Applies(phase, s)
    ensures TargetPhase(phase, s) <= 7
  {
  }

  /** It touches nothing outside mask 0x1df. */
  lemma CandidateOutside(data: bv32, s: Shift)
    requires Applies(PhaseOf(data), s)
    ensures Candidate(data, s) & !0x1df == data & !0x1df
  {
    if s.Back2? && PhaseOf(data) == 1 {
      ClearedFields(data);
    } else {
      PhaseFits(data);
      TargetFits(PhaseOf(data), s);
      WithPhaseFields(data, TargetPhase(PhaseOf(data), s));
    }
  }

  lemma CandidateDelay(data: bv32, s: Shift)
    requires Applies(PhaseOf(data), s)
    ensures Candidate(data, s) & 0x1f == if s.Back2? && PhaseOf(data) == 1 then 0 else data & 0x1f
  {
  }

  lemma CandidateDiffers(data: bv32, s: Shift)
    requires Applies(PhaseOf(data), s)
    ensures Candidate(data, s) != data
  {
  }

  // ---------------------------------------------------------------- the four attempts, in numbers

  /** The phase field of a register, as a number. */
  function PhaseNumber(reg: bv32): nat { ((reg >> 6) & 0x7) as nat }

  /** Attempt `i` is made from this phase. */
  predicate Tried(phase: nat, i: nat) {
    (i == 0 && 1 <= phase) || (i == 1 && phase <= 5) || (i == 2 && phase <= 3) || (i == 3 && phase <= 1)
  }

  /** Outside the fields nothing has changed, and the delay is as it was or cleared. */
  predicate Kept(data: bv32, r: bv32, cleared: bool) {
    r & !0x1df == data & !0x1df && r & 0x1f == if cleared then 0 else data & 0x1f
  }

  /** `r` is `data` after attempt `i`: the phase moved by -2, 2, 4 or 6, or from 1 to 0 with the delay cleared. */
  predicate Shifted(data: bv32, r: bv32, i: nat)
    requires i < 4
  {
    && PhaseNumber(r) == MovedPhase(PhaseNumber(data), i)
    && Kept(data, r, i == 0 && PhaseNumber(data) == 1)
  }

  /** Where attempt `i` takes the phase. */
  function MovedPhase(phase: nat, i: nat): int
    requires i < 4
  {
    if i == 0 && phase == 1 then 0 else phase + [-2, 2, 4, 6][i]
  }

  lemma NumberOfTarget(phase: bv32, i: nat)
    requires phase <= 7 && i < 4
    ensures Tried(phase as nat, i) <==> Applies(phase, Shifts()[i])
    ensures Tried(phase as nat, i) ==> (TargetPhase(phase, Shifts()[i]) as nat == MovedPhase(phase as nat, i))
  {
    assert phase == 0 || phase == 1 || phase == 2 || phase == 3 || phase == 4 || phase == 5 || phase == 6 || phase == 7;
  }

  lemma AttemptPhase(data: bv32, i: nat)
    requires i < 4
    ensures Tried(PhaseNumber(data), i) <==> Applies(PhaseOf(data), Shifts()[i])
    ensures Tried(PhaseNumber(data), i) ==> PhaseNumber(Candidate(data, Shifts()[i])) == MovedPhase(PhaseNumber(data), i)
  {
    PhaseFits(data);
    NumberOfTarget(PhaseOf(data), i);
    if Applies(PhaseOf(data), Shifts()[i]) {
      CandidatePhase(data, Shifts()[i]);
    }
  }

  lemma NumberOne(data: bv32)
    ensures PhaseNumber(data) == 1 <==> PhaseOf(data) == 1
  {
  }

  /** The candidate of an attempt is the original moved by the attempt's amount. */
  lemma AttemptExact(data: bv32, i: nat)
    requires i < 4 && Tried(PhaseNumber(data), i)
    ensures Shifted(data, Candidate(data, Shifts()[i]), i)
  {
    AttemptPhase(data, i);
    AttemptKeeps(data, Shifts()[i]);
    NumberOne(data);
    assert Shifts()[i] == Back2 <==> i == 0;
  }

  lemma AttemptKeeps(data: bv32, s: Shift)
    requires Applies(PhaseOf(data), s)
    ensures Kept(data, Candidate(data, s), s.Back2? && PhaseOf(data) == 1)
  {
    CandidateOutside(data, s);
    CandidateDelay(data, s);
  }

  /** The first shift, in order, that applies and whose compare passes. */
  function FirstAccepted(phase: bv32, compare: Shift -> bool): Option<Shift> {
    if Applies(phase, Back2) && compare(Back2) then Some(Back2)
    else if Applies(phase, Forward2) && compare(Forward2) then Some(Forward2)
    else if Applies(phase, Forward4) && compare(Forward4) then Some(Forward4)
    else if Applies(phase, Forward6) && compare(Forward6) then Some(Forward6)
    else None
  }

  /** Attempt `i` is made, and its compare passes. */
  predicate Accepts(phase: nat, compare: Shift -> bool, i: nat)
    requires i < 4
  {
    Tried(phase, i) && compare(Shifts()[i])
  }

  predicate NoneAccepted(phase: nat, compare: Shift -> bool) { forall i: nat :: i < 4 ==> !Accepts(phase, compare, i) }

  /** Attempt `i` is accepted and every earlier one was not made or failed its compare. */
  predicate IsFirst(phase: nat, compare: Shift -> bool, i: nat) {
    i < 4 && Accepts(phase, compare, i) && forall j: nat :: j < i ==> !Accepts(phase, compare, j)
  }

  lemma AttemptNumbers(phase: bv32, compare: Shift -> bool)
    requires phase <= 7
    ensures forall i: nat :: i < 4 ==> (Accepts(phase as nat, compare, i) <==> Applies(phase, Shifts()[i]) && compare(Shifts()[i]))
  {
    forall i: nat | i < 4
      ensures Accepts(phase as nat, compare, i) <==> Applies(phase, Shifts()[i]) && compare(Shifts()[i])
    {
      NumberOfTarget(phase, i);
    }
  }

  /** Failing means that no attempt is accepted; otherwise the first one that is has been taken. */
  lemma FirstAcceptedMeaning(data: bv32, compare: Shift -> bool)
    ensures var phase := PhaseNumber(data);
            match FirstAccepted(PhaseOf(data), compare)
            case None => NoneAccepted(phase, compare)
            case Some(s) => exists i: nat :: IsFirst(phase, compare, i) && Shifts()[i] == s
  {
    PhaseFits(data);
    var phase := PhaseOf(data);
    AttemptNumbers(phase, compare);
    var accepted := FirstAccepted(phase, compare);
    assert Shifts()[0] == Back2 && Shifts()[1] == Forward2 && Shifts()[2] == Forward4 && Shifts()[3] == Forward6;
    if accepted.Some? {
      var i := match accepted.value case Back2 => 0 case Forward2 => 1 case Forward4 => 2 case Forward6 => 3;
      assert IsFirst(phase as nat, compare, i) && Shifts()[i] == accepted.value;
    }
  }

  /** What the attempt leaves in the register. */
  function FinalRegister(data: bv32, asIs: bool, compare: Shift -> bool): bv32 {
    var accepted := FirstAccepted(PhaseOf(data), compare);
    if asIs || accepted.None? then data else Candidate(data, accepted.value)
  }

  /** `r` is what the attempt leaves of `data`: the original, or the first accepted attempt's move of it. */
  ghost predicate Attempted(data: bv32, asIs: bool, compare: Shift -> bool, r: bv32) {
    if asIs || NoneAccepted(PhaseNumber(data), compare) then r == data
    else exists i: nat :: IsFirst(PhaseNumber(data), compare, i) && Shifted(data, r, i)
  }

  /** So it is whatever the compare results, and an accepted attempt never leaves the original. */
  lemma FinalRegisterMeaning(data: bv32, asIs: bool, compare: Shift -> bool)
    ensures Attempted(data, asIs, compare, FinalRegister(data, asIs, compare))
    ensures FinalRegister(data, asIs, compare) == data <==> asIs || NoneAccepted(PhaseNumber(data), compare)
  {
    FirstAcceptedMeaning(data, compare);
    var accepted := FirstAccepted(PhaseOf(data), compare);
    if !asIs && accepted.Some? {
      var i: nat :| IsFirst(PhaseNumber(data), compare, i) && Shifts()[i] == accepted.value;
      AttemptPhase(data, i);
      AttemptExact(data, i);
      CandidateDiffers(data, accepted.value);
    }
  }

  /** A lane's register and the failure mark of the result table. */
  class LaneRegister {
    var reg: bv32
    var pupFail: bool

    constructor (reg: bv32)
      ensures this.reg == reg && !pupFail
    {
      this.reg, pupFail := reg, false;
    }

    /**
     `asIs` is the result of the compare under the original contents, `compare`
     those under the candidates. It fails exactly if the original and every
     attempt made fail their compare, and then the register is as it was;
     otherwise it holds the original, or the first accepted attempt's move of it.
     */
    method AlignPhaseShift(asIs: bool, compare: Shift -> bool) returns (status: Status)
      modifies this
      ensures status.MvFail? <==> !asIs && NoneAccepted(PhaseNumber(old(reg)), compare)
      ensures Attempted(old(reg), asIs, compare, reg)
      ensures pupFail == (old(pupFail) || status.MvFail?)
    {
      FirstAcceptedMeaning(reg, compare);
      FinalRegisterMeaning(reg, asIs, compare);
      status := TryShifts(asIs, compare);
    }

    /** The attempts in their order. */
    method TryShifts(asIs: bool, compare: Shift -> bool) returns (status: Status)
      modifies this
      ensures status.MvFail? <==> !asIs && FirstAccepted(PhaseOf(old(reg)), compare) == None
      ensures reg == FinalRegister(old(reg), asIs, compare)
      ensures pupFail == (old(pupFail) || status.MvFail?)
    {
      if asIs {
        return MvOk;
      }
      var data := reg;
      var phase := PhaseOf(data);
      if phase >= 1 {
        reg := Candidate(data, Back2);
        if compare(Back2) {
          return MvOk;
        }
      }
      if phase <= 5 {
        reg := Candidate(data, Forward2);
        if compare(Forward2) {
          return MvOk;
        }
      }
      if phase <= 3 {
        reg := Candidate(data, Forward4);
        if compare(Forward4) {
          return MvOk;
        }
      }
      if phase <= 1 {
        reg := Candidate(data, Forward6);
        if compare(Forward6) {
          return MvOk;
        }
      }
      reg := data;
      pupFail := true;
      return MvFail;
    }
  }
}
