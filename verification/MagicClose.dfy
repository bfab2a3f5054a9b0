/** What the magic character means over a whole run, and that "no way out" means it. */
module MagicClose {
  import opened Base
  import opened WatchdogCore

  predicate IsNonEmptyWrite(e: Event) { e.UserWrite? && e.data != [] }

  /** A 'V' comes before the byte, if any, at which reading the user's buffer faults. */
  predicate WritesMagic(e: Event) {
    e.UserWrite? && exists i :: 0 <= i < |e.data| && e.data[i] == 'V' && (e.fault.Some? ==> i < e.fault.value)
  }

  lemma MagicRead(data: seq<char>, fault: Option<nat>)
    ensures 'V' in ReadBytes(data, fault) <==> WritesMagic(UserWrite(data, fault))
  {
    var read := ReadBytes(data, fault);
    if 'V' in read {
      var i :| 0 <= i < |read| && read[i] == 'V';
      assert data[i] == 'V';
    }
    if WritesMagic(UserWrite(data, fault)) {
      var i :| 0 <= i < |data| && data[i] == 'V' && (fault.Some? ==> i < fault.value);
      assert read[i] == 'V';
    }
  }

  /** The k-th event closes a device that is still active. */
  predicate ClosesActive(c: Config, s: State, es: seq<Event>, k: nat)
    requires c.Valid() && Possible(c, s, es) && k < |es|
  {
    PossiblePrefix(c, s, es, k);
    es[k].CloseDevice? && After(c, s, es[..k]).active && After(c, s, es[..k]).attached
  }

  /** The k-th event neither overwrites a grant nor uses it up. */
  predicate Leaves(c: Config, s: State, es: seq<Event>, k: nat)
    requires c.Valid() && Possible(c, s, es) && k < |es|
  {
    !IsNonEmptyWrite(es[k]) && !ClosesActive(c, s, es, k)
  }

  /** Event `j` granted the release and nothing since has used it up or overwritten it. */
  ghost predicate GrantedBy(c: Config, s: State, es: seq<Event>, j: nat)
    requires c.Valid() && Possible(c, s, es)
  {
    && j < |es| && WritesMagic(es[j])
    && forall k {:trigger Leaves(c, s, es, k)} :: j < k < |es| ==> Leaves(c, s, es, k)
  }

  ghost predicate ReleaseGranted(c: Config, s: State, es: seq<Event>)
    requires c.Valid() && Possible(c, s, es)
  {
    exists j: nat :: GrantedBy(c, s, es, j)
  }

  /** Only a non-empty write and the close of an active device touch the bit. */
  lemma BitAfterStep(c: Config, s: State, e: Event)
    requires c.Valid() && Enabled(s, e)
    ensures Apply(c, s, e).allowRelease ==
            if IsNonEmptyWrite(e) then WritesMagic(e)
            else s.allowRelease && !(e.CloseDevice? && s.active && s.attached)
  {
    match e
    case Tick(d) =>
    case TimerFires =>
    case WorkerRuns =>
    case UserWrite(data, fault) => MagicRead(data, fault);
    case Keepalive =>
    case EnableCard(fails) =>
    case DisableCard(fails) =>
    case ChangeTimeout(request, fails) =>
    case OpenDevice(alive, fails) =>
    case CloseDevice(fails) =>
    case UnregisterDevice(fails) =>
  }

  lemma LeavesPrefix(c: Config, s: State, es: seq<Event>, k: nat)
    requires c.Valid() && Possible(c, s, es) && es != [] && k < |es| - 1
    ensures Leaves(c, s, es, k) == Leaves(c, s, Front(es), k)
  {
    assert Front(es)[..k] == es[..k];
  }

  lemma GrantedBySnoc(c: Config, s: State, es: seq<Event>, j: nat)
    requires c.Valid() && Possible(c, s, es) && es != []
    ensures GrantedBy(c, s, es, j) <==>
            (j == |es| - 1 && WritesMagic(Last(es)))
            || (GrantedBy(c, s, Front(es), j) && Leaves(c, s, es, |es| - 1))
  {
    forall k: nat | k < |es| - 1
      ensures Leaves(c, s, es, k) == Leaves(c, s, Front(es), k)
    {
      LeavesPrefix(c, s, es, k);
    }
  }

  /**
   In every run from a state without a grant, _WDOG_ALLOW_RELEASE is set if and
   only if the latest non-empty write read a 'V' and no active device has been
   closed since.
   */
  lemma {:induction false} AllowReleaseMeaning(c: Config, s: State, es: seq<Event>)
    requires c.Valid() && Possible(c, s, es) && !s.allowRelease
    ensures After(c, s, es).allowRelease <==> ReleaseGranted(c, s, es)
  {
    if es != [] {
      var n := |es| - 1;
      AllowReleaseMeaning(c, s, Front(es));
      BitAfterStep(c, After(c, s, Front(es)), Last(es));
      assert es[..n] == Front(es);
      forall j: nat
        ensures GrantedBy(c, s, es, j) <==>
                (j == n && WritesMagic(Last(es)))
                || (GrantedBy(c, s, Front(es), j) && Leaves(c, s, es, n))
      {
        GrantedBySnoc(c, s, es, j);
      }
      if After(c, s, es).allowRelease {
        if IsNonEmptyWrite(Last(es)) {
          assert GrantedBy(c, s, es, n);
        } else {
          var j: nat :| GrantedBy(c, s, Front(es), j);
          assert GrantedBy(c, s, es, j);
        }
      }
    }
  }

  /** With WDIOF_MAGICCLOSE a close deactivates the device only on an outstanding grant. */
  lemma CloseNeedsGrant(c: Config, s: State, es: seq<Event>)
    requires c.Valid() && Possible(c, s, es) && !s.allowRelease && c.magicClose
    requires es != [] && Last(es).CloseDevice?
    requires After(c, s, Front(es)).active && !After(c, s, es).active
    ensures ReleaseGranted(c, s, Front(es))
  {
    AllowReleaseMeaning(c, s, Front(es));
  }

  /** On a live device without "no way out", and with a working stop, the grant is also enough. */
  lemma GrantSuffices(c: Config, s: State, es: seq<Event>)
    requires c.Valid() && Possible(c, s, es) && !s.allowRelease && !c.noWayOut
    requires es != [] && Last(es) == CloseDevice(false) && After(c, s, Front(es)).attached
    requires ReleaseGranted(c, s, Front(es))
    ensures !After(c, s, es).active
  {
    AllowReleaseMeaning(c, s, Front(es));
  }

  lemma NoWayOutStep(c: Config, s: State, e: Event)
    requires c.Valid() && c.noWayOut && s.active && Enabled(s, e)
    ensures Apply(c, s, e).active
  {
    match e
    case Tick(d) =>
    case TimerFires =>
    case WorkerRuns =>
    case UserWrite(data, fault) =>
    case Keepalive =>
    case EnableCard(fails) =>
    case DisableCard(fails) =>
    case ChangeTimeout(request, fails) =>
    case OpenDevice(alive, fails) =>
    case CloseDevice(fails) =>
    case UnregisterDevice(fails) =>
  }

  /** With WDOG_NO_WAY_OUT an active device stays active in every run. */
  lemma {:induction false} NoWayOutIsForever(c: Config, s: State, es: seq<Event>)
    requires c.Valid() && c.noWayOut && s.active && Possible(c, s, es)
    ensures After(c, s, es).active
  {
    if es != [] {
      NoWayOutIsForever(c, s, Front(es));
      NoWayOutStep(c, After(c, s, Front(es)), Last(es));
    }
  }
}
