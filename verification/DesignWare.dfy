/**
 The Synopsys DesignWare watchdog driver: a four-bit timeout selector `top`
 gives a hardware period of 2^(16 + top) clock cycles.
 */
module DesignWare {
  import opened Base

  const MAX_TOP: nat := 15
  const INT_MAX: nat := 0x7fff_ffff

  /** 2^(16 + top), the length of the hardware period in clock cycles. */
  function Cycles(top: nat): (c: nat)
    ensures c >= 65536
  {
    if top == 0 then 65536 else 2 * Cycles(top - 1)
  }

  /** The whole seconds in a hardware period. */
  function TopInSeconds(rate: nat, top: nat): nat
    requires rate >= 1
  {
    Cycles(top) / rate
  }

  /** The selector found by scanning upwards from `i`; 15 when the scan runs out. */
  function FirstTop(rate: nat, request: nat, i: nat): nat
    requires rate >= 1
    requires i <= MAX_TOP + 1
    decreases MAX_TOP + 1 - i
  {
    if i > MAX_TOP then MAX_TOP
    else if TopInSeconds(rate, i) >= request then i
    else FirstTop(rate, request, i + 1)
  }

  function SelectTop(rate: nat, request: nat): nat
    requires rate >= 1
  {
    FirstTop(rate, request, 0)
  }

  /** The value the driver leaves in `wdd->timeout` for a request. */
  function GrantedTimeout(rate: nat, request: nat): nat
    requires rate >= 1
  {
    TopInSeconds(rate, SelectTop(rate, request))
  }

  /** What probe stores in `max_hw_heartbeat_ms`, before any 32-bit truncation. */
  function MaxHeartbeatMs(rate: nat): nat
    requires rate >= 1
  {
    TopInSeconds(rate, MAX_TOP) * 1000
  }

  // ---------------------------------------------------------------- arithmetic

  lemma {:induction false} CyclesMonotone(a: nat, b: nat)
    requires a <= b
    ensures Cycles(a) <= Cycles(b)
  {
    if a < b {
      CyclesMonotone(a, b - 1);
    }
  }

  lemma CyclesAtMaxTop()
    ensures Cycles(14) == 0x4000_0000
    ensures Cycles(MAX_TOP) == 0x8000_0000
  {
    assert Cycles(3) == 0x8_0000;
    assert Cycles(6) == 0x40_0000;
    assert Cycles(9) == 0x200_0000;
    assert Cycles(12) == 0x1000_0000;
    assert Cycles(14) == 0x4000_0000;
  }

  lemma SecondsMonotone(rate: nat, a: nat, b: nat)
    requires rate >= 1 && a <= b
    ensures TopInSeconds(rate, a) <= TopInSeconds(rate, b)
  {
    CyclesMonotone(a, b);
    QuotientAtLeast(TopInSeconds(rate, a), rate, Cycles(a));
    QuotientAtLeast(TopInSeconds(rate, a), rate, Cycles(b));
  }

  /** A period that rounds to at least one second is strictly longer than the one below it. */
  lemma LastSelectorStrict(rate: nat)
    requires 1 <= rate <= Cycles(MAX_TOP)
    ensures 1 <= TopInSeconds(rate, MAX_TOP)
    ensures TopInSeconds(rate, 14) < TopInSeconds(rate, MAX_TOP)
  {
    var q := TopInSeconds(rate, 14);
    var next := Max(1, 2 * q);
    QuotientAtLeast(q, rate, Cycles(14));
    assert next * rate <= Cycles(MAX_TOP);
    QuotientAtLeast(next, rate, Cycles(MAX_TOP));
  }

  // ---------------------------------------------------------------- selection

  lemma {:induction false} FirstTopIsLeast(rate: nat, request: nat, i: nat)
    requires rate >= 1 && i <= MAX_TOP + 1
    ensures FirstTop(rate, request, i) <= MAX_TOP
    ensures forall t :: i <= t < FirstTop(rate, request, i) ==> TopInSeconds(rate, t) < request
    ensures forall t :: i <= t <= MAX_TOP && TopInSeconds(rate, t) >= request ==>
              i <= FirstTop(rate, request, i) && TopInSeconds(rate, FirstTop(rate, request, i)) >= request
    decreases MAX_TOP + 1 - i
  {
    if i <= MAX_TOP && TopInSeconds(rate, i) < request {
      FirstTopIsLeast(rate, request, i + 1);
    }
  }

  /** The selector is the least one long enough; 15 if none is. */
  lemma SelectTopIsLeast(rate: nat, request: nat)
    requires rate >= 1
    ensures SelectTop(rate, request) <= MAX_TOP
    ensures forall t :: 0 <= t < SelectTop(rate, request) ==> TopInSeconds(rate, t) < request
    ensures GrantedTimeout(rate, request) >= request
            || (SelectTop(rate, request) == MAX_TOP
                && forall t :: 0 <= t <= MAX_TOP ==> TopInSeconds(rate, t) < request)
    ensures GrantedTimeout(rate, request) >= request <==> TopInSeconds(rate, MAX_TOP) >= request
  {
    FirstTopIsLeast(rate, request, 0);
    SecondsMonotone(rate, SelectTop(rate, request), MAX_TOP);
    if TopInSeconds(rate, MAX_TOP) < request {
      forall t: nat | t <= MAX_TOP
        ensures TopInSeconds(rate, t) < request
      {
        SecondsMonotone(rate, t, MAX_TOP);
      }
      if SelectTop(rate, request) < MAX_TOP {
        SelectTopUnmet(rate, request, 0);
      }
    }
  }

  lemma {:induction false} SelectTopUnmet(rate: nat, request: nat, i: nat)
    requires rate >= 1 && i <= MAX_TOP + 1
    requires forall t :: i <= t <= MAX_TOP ==> TopInSeconds(rate, t) < request
    ensures FirstTop(rate, request, i) == MAX_TOP
    decreases MAX_TOP + 1 - i
  {
    if i <= MAX_TOP {
      SelectTopUnmet(rate, request, i + 1);
    }
  }

  /** A longer request never gets a shorter period. */
  lemma SelectTopMonotone(rate: nat, a: nat, b: nat)
    requires rate >= 1 && a <= b
    ensures SelectTop(rate, a) <= SelectTop(rate, b)
    ensures GrantedTimeout(rate, a) <= GrantedTimeout(rate, b)
  {
    SelectTopIsLeast(rate, a);
    SelectTopIsLeast(rate, b);
    SecondsMonotone(rate, SelectTop(rate, a), SelectTop(rate, b));
  }

  ghost predicate Reapplicable(rate: nat)
    requires rate >= 1
  {
    forall request: nat :: SelectTop(rate, GrantedTimeout(rate, request)) == SelectTop(rate, request)
  }

  lemma SelectTopIdempotent(rate: nat, request: nat)
    requires 1 <= rate <= 0x8000_0000
    ensures SelectTop(rate, GrantedTimeout(rate, request)) == SelectTop(rate, request)
  {
    CyclesAtMaxTop();
    LastSelectorStrict(rate);
    var top := SelectTop(rate, request);
    var granted := GrantedTimeout(rate, request);
    SelectTopIsLeast(rate, request);
    SelectTopIsLeast(rate, granted);
    var again := SelectTop(rate, granted);
    SecondsMonotone(rate, top, MAX_TOP);
    SecondsMonotone(rate, Min(again, 14), 14);
    assert TopInSeconds(rate, again) >= granted;
  }

  /**
   `dw_wdt_start` re-applies the stored timeout. That leaves the selector alone
   for every request exactly when the longest period is at least one second.
   */
  lemma ReapplicationExact(rate: nat)
    requires rate >= 1
    ensures Reapplicable(rate) <==> rate <= 0x8000_0000
  {
    if rate <= 0x8000_0000 {
      forall request: nat
        ensures SelectTop(rate, GrantedTimeout(rate, request)) == SelectTop(rate, request)
      {
        SelectTopIdempotent(rate, request);
      }
    } else {
      CyclesAtMaxTop();
      forall t: nat | t <= MAX_TOP
        ensures TopInSeconds(rate, t) == 0
      {
        SecondsMonotone(rate, t, MAX_TOP);
      }
      SelectTopUnmet(rate, 1, 0);
      assert SelectTop(rate, 1) == MAX_TOP && GrantedTimeout(rate, 1) == 0;
      assert SelectTop(rate, 0) == 0;
    }
  }

  /** The hardware never fires before the stored timeout has passed. */
  lemma PeriodCoversTimeout(rate: nat, request: nat)
    requires rate >= 1
    ensures GrantedTimeout(rate, request) * rate <= Cycles(SelectTop(rate, request))
  {
    QuotientAtLeast(GrantedTimeout(rate, request), rate, Cycles(SelectTop(rate, request)));
  }

  /** What the core relies on: a usable timeout, never longer than the advertised limit. */
  lemma GrantedTimeoutBounds(rate: nat, request: nat)
    requires 1 <= rate <= 0x8000_0000 && request >= 1
    ensures 1 <= GrantedTimeout(rate, request)
    ensures GrantedTimeout(rate, request) * 1000 <= MaxHeartbeatMs(rate)
  {
    CyclesAtMaxTop();
    LastSelectorStrict(rate);
    SelectTopIsLeast(rate, request);
    SecondsMonotone(rate, SelectTop(rate, request), MAX_TOP);
  }

  /** The product stored in `max_hw_heartbeat_ms` fits an int exactly from 1000 Hz upwards. */
  lemma MaxHeartbeatFitsExact(rate: nat)
    requires rate >= 1
    ensures MaxHeartbeatMs(rate) <= INT_MAX <==> rate >= 1000
  {
    CyclesAtMaxTop();
    QuotientAtLeast(2147484, rate, 0x8000_0000);
  }

  // ---------------------------------------------------------------- registers

  function EncodeTop(top: nat): bv32
    requires top <= MAX_TOP
  {
    var t := top as bv32;
    t | (t << 4)
  }

  function DecodeTop(reg: bv32): nat { (reg & 0xF) as nat }

  lemma TopRoundTrip(top: nat)
    requires top <= MAX_TOP
    ensures DecodeTop(EncodeTop(top)) == top
    ensures EncodeTop(top) as nat == 16 * top + top
  {
  }

  /** The registers and the embedded `watchdog_device` fields the driver updates. */
  class DwWdt {
    const rate: nat
    const hasResetLine: bool
    var control: bv32
    var timeoutRange: bv32
    var kicks: nat       // writes of the kick value to the counter-restart register
    var lineResets: nat  // pulses on the reset line
    var timeout: nat     // wdd->timeout
    var hwRunning: bool  // WDOG_HW_RUNNING

    constructor (rate: nat, hasResetLine: bool)
      requires rate >= 1
      ensures this.rate == rate && this.hasResetLine == hasResetLine
    {
      this.rate := rate;
      this.hasResetLine := hasResetLine;
    }

    method SetTimeout(request: nat)
      requires rate >= 1
      modifies this`timeoutRange, this`timeout
      ensures DecodeTop(timeoutRange) == SelectTop(rate, request)
      ensures timeoutRange as nat == 17 * SelectTop(rate, request)
      ensures timeout == GrantedTimeout(rate, request)
    {
      var topVal := MAX_TOP;
      var i := 0;
      while i <= MAX_TOP
        invariant i <= MAX_TOP + 1
        invariant topVal == MAX_TOP
        invariant FirstTop(rate, request, i) == SelectTop(rate, request)
      {
        if TopInSeconds(rate, i) >= request {
          topVal := i;
          break;
        }
        i := i + 1;
      }
      TopRoundTrip(topVal);
      timeoutRange := EncodeTop(topVal);
      timeout := TopInSeconds(rate, topVal);
    }

    method GetTop() returns (seconds: nat)
      requires rate >= 1
      ensures seconds == TopInSeconds(rate, DecodeTop(timeoutRange))
    {
      seconds := TopInSeconds(rate, DecodeTop(timeoutRange));
    }

    method Ping()
      modifies this`kicks
      ensures kicks == old(kicks) + 1
    {
      kicks := kicks + 1;
    }

    /** Starting enables the counter in reset mode, kicks it, and keeps the other control bits. */
    method Start()
      requires rate >= 1
      modifies this`timeoutRange, this`timeout, this`kicks, this`control
      ensures DecodeTop(timeoutRange) == SelectTop(rate, old(timeout))
      ensures timeout == GrantedTimeout(rate, old(timeout))
      ensures kicks == old(kicks) + 1
      ensures control & 0x3 == 0x1 && control & !0x3 == old(control) & !0x3
      ensures old(timeout == GrantedTimeout(rate, timeout)) ==> timeout == old(timeout)
    {
      SetTimeout(timeout);
      Ping();
      control := (control & !0x2) | 0x1;
    }

    /** Without a reset line the counter cannot be stopped, and the core is told so. */
    method Stop()
      modifies this`hwRunning, this`lineResets
      ensures hwRunning == (old(hwRunning) || !hasResetLine)
      ensures lineResets == old(lineResets) + (if hasResetLine then 1 else 0)
    {
      if !hasResetLine {
        hwRunning := true;
        return;
      }
      lineResets := lineResets + 1;
    }
  }

  /** A start after any granted request changes neither the selector nor the timeout, and reads back. */
  method StartAfterSetTimeout(w: DwWdt, request: nat) returns (seconds: nat)
    requires 1 <= w.rate <= 0x8000_0000
    modifies w
    ensures seconds == w.timeout == GrantedTimeout(w.rate, request)
    ensures DecodeTop(w.timeoutRange) == SelectTop(w.rate, request)
  {
    w.SetTimeout(request);
    SelectTopIdempotent(w.rate, request);
    w.Start();
    seconds := w.GetTop();
  }
}
