/** Single open, and the driver module's reference count over whole runs. */
module ModuleReference {
  import opened Base
  import opened WatchdogCore

  /** At most one handle, and one reference exactly while a handle or the running hardware needs the module. */
  predicate Conserved(s: State) {
    && s.attached
    && s.handles <= 1
    && (s.devOpen <==> s.handles == 1)
    && s.moduleRefs == if s.handles == 1 || s.hwRunning then 1 else 0
  }

  /** Any event but unregistration, where the start made by an open succeeds. */
  predicate Accountable(e: Event) {
    !e.UnregisterDevice? && (e.OpenDevice? ==> !e.fails)
  }

  predicate AllAccountable(es: seq<Event>) { forall i :: 0 <= i < |es| ==> Accountable(es[i]) }

  lemma StepConserves(c: Config, s: State, e: Event)
    requires c.Valid() && Conserved(s) && Enabled(s, e) && Accountable(e)
    ensures Conserved(Apply(c, s, e))
  {
    match e
    case Tick(d) =>
    case TimerFires =>
    case WorkerRuns =>
    case UserWrite(data, fault) =>
    case Keepalive =>
    case EnableCard(fails) =>
    case DisableCard(fails) =>
    case ChangeTimeout(request, fails) =>
    case OpenDevice(alive, fails) =>
    case CloseDevice(fails) =>
  }

  lemma {:induction false} RunConserves(c: Config, s: State, es: seq<Event>)
    requires c.Valid() && Conserved(s) && Possible(c, s, es) && AllAccountable(es)
    ensures Conserved(After(c, s, es))
  {
    if es != [] {
      RunConserves(c, s, Front(es));
      StepConserves(c, After(c, s, Front(es)), Last(es));
    }
  }

  ghost predicate AlwaysConserved(c: Config, s: State)
    requires c.Valid()
  {
    forall es: seq<Event> :: Possible(c, s, es) && AllAccountable(es) ==> Conserved(After(c, s, es))
  }

  /**
   The reference is conserved over every run if and only if the hardware was
   already running when registration looked: registration itself then sets
   WDOG_HW_RUNNING, but only after it has taken the count.
   */
  lemma ConservationExact(c: Config, now: int, timeout: nat, running: bool, bootHandled: bool, fired: bool)
    requires c.Valid()
    ensures AlwaysConserved(c, Register(c, now, timeout, running, bootHandled, fired)) <==> running
  {
    var s := Register(c, now, timeout, running, bootHandled, fired);
    if running {
      forall es: seq<Event> | Possible(c, s, es) && AllAccountable(es)
        ensures Conserved(After(c, s, es))
      {
        RunConserves(c, s, es);
      }
    } else {
      assert Possible(c, s, []) && After(c, s, []) == s;
      assert !Conserved(s);
    }
  }

  /** Open, and the handle's first operation. */
  lemma OpenThen(c: Config, s: State, e: Event)
    requires c.Valid() && s.attached && !s.devOpen && !s.active
    requires !e.OpenDevice? && !e.UnregisterDevice? && !e.TimerFires? && !e.WorkerRuns?
    ensures var es := [OpenDevice(true, false), e];
            Possible(c, s, es) && After(c, s, es) == Apply(c, Open(c, s, true, false), e)
    ensures Open(c, s, true, false).handles > 0
  {
    assert Possible(c, s, []) && After(c, s, []) == s;
    RunSnoc(c, 0, s, [], OpenDevice(true, false));
    assert [] + [OpenDevice(true, false)] == [OpenDevice(true, false)];
    RunSnoc(c, 0, s, [OpenDevice(true, false)], e);
    assert [OpenDevice(true, false)] + [e] == [OpenDevice(true, false), e];
  }

  /** The concrete consequence: open, write the magic character, close, and a reference nobody took is given back. */
  lemma ReferenceUnderflow(c: Config, now: int, timeout: nat, bootHandled: bool, fired: bool)
    requires c.Valid() && c.hasStop && !c.stopKeepsRunning && !c.noWayOut
    ensures var es := [OpenDevice(true, false), UserWrite("V", None), CloseDevice(false)];
            var s := Register(c, now, timeout, false, bootHandled, fired);
            Possible(c, s, es) && AllAccountable(es) && After(c, s, es).moduleRefs == -1
  {
    var s := Register(c, now, timeout, false, bootHandled, fired);
    var es := [OpenDevice(true, false), UserWrite("V", None)];
    OpenThen(c, s, es[1]);
    assert After(c, s, es).allowRelease;
    RunSnoc(c, 0, s, es, CloseDevice(false));
    assert es + [CloseDevice(false)] == [OpenDevice(true, false), UserWrite("V", None), CloseDevice(false)];
  }

  // ---------------------------------------------------------------- closing

  /** What a close promises: a watchdog that it leaves active keeps its module. */
  predicate ClosedKeepsModule(r: State) { r.active ==> r.moduleRefs == 1 }

  /**
   The promise is kept if and only if the device was inactive, or the close
   stops it, or the hardware was marked running and the close does not come to
   call the driver's stop, which clears that mark even when it then fails.
   */
  lemma CloseExact(c: Config, s: State, fails: bool)
    requires c.Valid() && Conserved(s) && s.handles == 1
    ensures ClosedKeepsModule(Release(c, s, fails)) <==>
            || !s.active
            || (CloseTriesStop(c, s) && !StopFails(c, s, fails))
            || (s.hwRunning && !(CloseTriesStop(c, s) && c.hasStop && !c.noWayOut))
  {
  }

  /** So it is along every accountable run of a device registered with its hardware running. */
  lemma CloseExactInRuns(c: Config, now: int, timeout: nat, bootHandled: bool, fired: bool, es: seq<Event>, fails: bool)
    requires c.Valid()
    requires Possible(c, Register(c, now, timeout, true, bootHandled, fired), es) && AllAccountable(es)
    requires After(c, Register(c, now, timeout, true, bootHandled, fired), es).handles > 0
    ensures var s := After(c, Register(c, now, timeout, true, bootHandled, fired), es);
            ClosedKeepsModule(Release(c, s, fails)) <==>
            || !s.active
            || (CloseTriesStop(c, s) && !StopFails(c, s, fails))
            || (s.hwRunning && !(CloseTriesStop(c, s) && c.hasStop && !c.noWayOut))
  {
    RunConserves(c, Register(c, now, timeout, true, bootHandled, fired), es);
    CloseExact(c, After(c, Register(c, now, timeout, true, bootHandled, fired), es), fails);
  }

  /**
   A run that breaks it: registered running, opened, disabled, which clears the
   running mark, enabled again, and closed without the magic character.
   */
  lemma UnloadableWhileActive(c: Config, now: int, timeout: nat, bootHandled: bool, fired: bool, fails: bool)
    requires c.Valid() && c.hasStop && !c.stopKeepsRunning && !c.noWayOut && c.magicClose
    ensures var es := [OpenDevice(true, false), DisableCard(false), EnableCard(false), CloseDevice(fails)];
            var s := Register(c, now, timeout, true, bootHandled, fired);
            && Possible(c, s, es) && AllAccountable(es)
            && After(c, s, es).active && After(c, s, es).moduleRefs == 0
  {
    var s := Register(c, now, timeout, true, bootHandled, fired);
    var es := [OpenDevice(true, false), DisableCard(false)];
    OpenThen(c, s, es[1]);
    var s2 := After(c, s, es);
    assert !s2.active && !s2.hwRunning && s2.moduleRefs == 1;
    RunSnoc(c, 0, s, es, EnableCard(false));
    var es3 := es + [EnableCard(false)];
    var s3 := After(c, s, es3);
    assert s3.active && !s3.hwRunning && s3.moduleRefs == 1 && s3.handles == 1;
    RunSnoc(c, 0, s, es3, CloseDevice(fails));
    assert es3 + [CloseDevice(fails)] == [OpenDevice(true, false), DisableCard(false), EnableCard(false), CloseDevice(fails)];
  }

  /** The error path of an open gives a reference back even when it took none. */
  lemma FailedOpenExact(c: Config, s: State, moduleAlive: bool)
    requires c.Valid() && Conserved(s)
    ensures Conserved(Open(c, s, moduleAlive, true)) <==> !(s.hwRunning && !s.active && !s.devOpen)
  {
  }
}
