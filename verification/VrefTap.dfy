/** The DRAM Vref setting that mode-register initialisation derives from the terminations. */
module VrefTap {
  import opened Base

  const RON: nat := 30
  const NO_TERMINATION: nat := 0xffff

  /** The conversions take their code as a 16-bit value. */
  function Code16(code: nat): nat { code % 0x1_0000 }

  function RttNomToOdt(rttNom: nat): nat {
    var code := Code16(rttNom);
    if code == 0 then 0xff
    else if code == 1 * 256 then 60
    else if code == 2 * 256 then 120
    else if code == 3 * 256 then 40
    else if code == 4 * 256 then 240
    else if code == 5 * 256 then 48
    else if code == 6 * 256 then 80
    else if code == 7 * 256 then 34
    else 1
  }

  function RttWrToOdt(rttWr: nat): nat {
    var code := Code16(rttWr);
    if code == 0 then 0xff
    else if code == 1 * 512 then 120
    else if code == 2 * 512 then 240
    else 1
  }

  function Parallel(a: nat, b: nat): nat
    requires a + b > 0
  {
    (a * b) / (a + b)
  }

  /** `mv_ddr4_tx_odt_get`. */
  function TxOdt(odtConfig: bv32, rttNom: nat, rttWr: nat): nat {
    if odtConfig & 0xe0000 != 0 then Parallel(NO_TERMINATION, RttNomToOdt(rttNom))
    else if odtConfig & 0x10000 != 0 then Parallel(NO_TERMINATION, RttWrToOdt(rttWr))
    else NO_TERMINATION
  }

  /** In hundredths of a percent. */
  function Vref(rodt: nat): nat { ((RON + rodt / 2) * 10000) / (RON + rodt) }

  /** The voltage ranges of MR6: from 60 % upwards, or from 45 % upwards. */
  function RangeBase(vref: nat): nat { if vref >= 6000 then 6000 else 4500 }

  function Tap(vref: nat): int { (vref - RangeBase(vref)) / 65 }

  const RZQ: nat := 240

  /** Every code the conversions know stands for the reference resistor divided as the DDR4 mode registers do. */
  lemma KnownCodes(n: nat)
    ensures 1 <= n <= 7 ==> RttNomToOdt(n * 256) == RZQ / [4, 2, 6, 1, 5, 3, 7][n - 1]
    ensures 1 <= n <= 2 ==> RttWrToOdt(n * 512) == RZQ / [2, 1][n - 1]
    ensures RttNomToOdt(0) == RttWrToOdt(0) == 255
  {
  }

  /** Bits above the sixteenth do not reach the conversions. */
  lemma CodesWrap(code: nat, m: nat)
    requires code < 65536
    ensures RttNomToOdt(code + 65536 * m) == RttNomToOdt(code) && RttWrToOdt(code + 65536 * m) == RttWrToOdt(code)
  {
    assert (code + 65536 * m) % 65536 == code;
  }

  /** `t` is the whole part of two resistors in parallel. */
  predicate IsParallel(t: nat, a: nat, b: nat) { t * (a + b) <= a * b < (t + 1) * (a + b) }

  /**
   Which termination the configuration word selects: the nominal one with any
   of bits 19..17, else the write one with bit 16, else none at all.
   */
  lemma TxOdtMeaning(odtConfig: bv32, rttNom: nat, rttWr: nat)
    ensures var t := TxOdt(odtConfig, rttNom, rttWr);
            if odtConfig & 0xe0000 != 0 then IsParallel(t, 65535, RttNomToOdt(rttNom))
            else if odtConfig & 0x10000 != 0 then IsParallel(t, 65535, RttWrToOdt(rttWr))
            else t == 65535
  {
  }

  /** Vref is the divider's voltage in hundredths of a percent: the driver's 30 ohms and half of the termination over both. */
  lemma VrefMeaning(rodt: nat)
    ensures Vref(rodt) * (30 + rodt) <= (30 + rodt / 2) * 10000 < (Vref(rodt) + 1) * (30 + rodt)
  {
  }

  lemma QuotientBetween(x: nat, d: nat, lo: int, hi: int)
    requires d > 0 && lo * d <= x <= hi * d
    ensures lo <= x / d <= hi
  {
    QuotientAtLeast(lo, d, x);
    QuotientAtLeast(hi + 1, d, x);
    assert (hi + 1) * d == hi * d + d;
  }

  /** Any termination at all puts Vref between half and full supply. */
  lemma VrefInRange(rodt: nat)
    ensures 5000 <= Vref(rodt) <= 10000
  {
    QuotientBetween((RON + rodt / 2) * 10000, RON + rodt, 5000, 10000);
  }

  /** The effective termination is no larger than either resistor, so 32-bit arithmetic suffices throughout. */
  lemma TxOdtBound(odtConfig: bv32, rttNom: nat, rttWr: nat)
    ensures TxOdt(odtConfig, rttNom, rttWr) <= 0xffff
    ensures (RON + TxOdt(odtConfig, rttNom, rttWr) / 2) * 10000 < 0x1_0000_0000
  {
    ParallelBound(NO_TERMINATION, RttNomToOdt(rttNom));
    ParallelBound(NO_TERMINATION, RttWrToOdt(rttWr));
  }

  lemma ParallelBound(a: nat, b: nat)
    requires a + b > 0
    ensures Parallel(a, b) <= a && Parallel(a, b) <= b
  {
    assert a * b <= a * (a + b) && a * b <= b * (a + b);
    QuotientBetween(a * b, a + b, 0, a);
    QuotientBetween(a * b, a + b, 0, b);
  }

  /**
   For every configuration the subtraction does not underflow, the tap fits the
   six-bit field, and the voltage it stands for is the closest one below Vref.
   */
  lemma TapFits(odtConfig: bv32, rttNom: nat, rttWr: nat)
    ensures var vref := Vref(TxOdt(odtConfig, rttNom, rttWr));
            && 5000 <= vref <= 10000
            && RangeBase(vref) <= vref
            && 0 <= Tap(vref) <= 61
            && RangeBase(vref) + 65 * Tap(vref) <= vref < RangeBase(vref) + 65 * (Tap(vref) + 1)
  {
    VrefInRange(TxOdt(odtConfig, rttNom, rttWr));
  }

  /** An RTT code that the conversion does not know. */
  predicate UnknownNom(rttNom: nat) { Code16(rttNom) % 256 != 0 || Code16(rttNom) > 7 * 256 }

  /** No termination that the conversion knows is below 34 ohms, and hardly less in parallel with none. */
  lemma KnownParallel(odt: nat)
    requires odt >= 34
    ensures Parallel(NO_TERMINATION, odt) >= 33
  {
    assert 33 * (0xffff + odt) <= 0xffff * odt;
    QuotientAtLeast(33, NO_TERMINATION + odt, NO_TERMINATION * odt);
  }

  lemma TerminatedVref(rodt: nat)
    requires rodt >= 33
    ensures Vref(rodt) <= 7400
  {
    QuotientBetween((RON + rodt / 2) * 10000, RON + rodt, 0, 7400);
  }

  /**
   With the nominal termination in use, the bound is attained exactly for an
   unknown code: it counts as one ohm, which rounds to no resistance at all.
   */
  lemma TapBoundAttained(odtConfig: bv32, rttNom: nat, rttWr: nat)
    requires odtConfig & 0xe0000 != 0
    ensures Tap(Vref(TxOdt(odtConfig, rttNom, rttWr))) == 61 <==> UnknownNom(rttNom)
  {
    if UnknownNom(rttNom) {
      assert Parallel(NO_TERMINATION, 1) == 0 && Vref(0) == 10000;
    } else {
      KnownParallel(RttNomToOdt(rttNom));
      TerminatedVref(Parallel(NO_TERMINATION, RttNomToOdt(rttNom)));
    }
  }
}
