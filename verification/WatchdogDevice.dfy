/**
 The watchdog core in the form the kernel has it: an object whose fields the
 operations update in place. Each method is proved against the function of
 `WatchdogCore` that the run theorems are about.
 */
module WatchdogDevice {
  import opened Base
  import opened WatchdogCore

  class CoreData {
    const cfg: Config
    var now: int
    var timeout: nat
    var active: bool
    var hwRunning: bool
    var attached: bool
    var devOpen: bool
    var allowRelease: bool
    var keepalive: bool
    var lastKeepalive: int
    var lastHwKeepalive: int
    var timer: Option<int>
    var work: Option<int>
    var hwOps: nat
    var handles: nat
    var moduleRefs: int

    ghost function View(): State
      reads this
    {
      State(now, timeout, active, hwRunning, attached, devOpen, allowRelease, keepalive,
            lastKeepalive, lastHwKeepalive, timer, work, hwOps, handles, moduleRefs)
    }

    constructor CdevRegister(cfg: Config, now: int, timeout: nat, running: bool, bootHandled: bool, fired: bool)
      ensures this.cfg == cfg
      ensures View() == WatchdogCore.CdevRegister(now, timeout, running, bootHandled, fired)
    {
      this.cfg := cfg;
      this.now, this.timeout, active, hwRunning := now, timeout, false, running;
      attached, devOpen, allowRelease, keepalive := true, false, false, false;
      lastKeepalive, lastHwKeepalive := 0, now - 1;
      timer, work, hwOps, handles, moduleRefs := None, None, 0, 0, 0;
      if running {
        moduleRefs := 1;
        if bootHandled {
          timer := Some(now);
        }
      }
      new;
      if fired && timer.Some? {
        TimerExpired();
      }
    }

    method StartRegistered()
      requires cfg.Valid()
      modifies this
      ensures View() == WatchdogCore.StartRegistered(cfg, old(View()))
    {
      hwRunning := true;
      OpStart();
      lastKeepalive := now;
      lastHwKeepalive := now;
      UpdateWorker();
    }

    method OpStart()
      requires cfg.Valid()
      modifies this
      ensures View() == WatchdogCore.OpStart(cfg, old(View()))
    {
      timeout := OpStartTimeout(cfg, timeout);
      hwOps := hwOps + 1;
    }

    method UpdateWorker()
      modifies this
      ensures View() == WatchdogCore.UpdateWorker(cfg, old(View()))
    {
      var t := TimeoutMs(timeout);
      if (cfg.maxHwMs != 0 && active && t > cfg.maxHwMs) || (t != 0 && !active && hwRunning) {
        var heartbeat := MinNotZero(t, cfg.maxHwMs);
        var wait := Ktime(heartbeat / 2);
        if active {
          var latest := lastKeepalive + Ktime(t) - Ktime(heartbeat) - now;
          if latest < wait {
            wait := latest;
          }
        }
        if wait > 0 {
          timer := Some(now + wait);
        }
      } else {
        timer := None;
      }
    }

    method HwPing()
      requires cfg.Valid()
      modifies this
      ensures View() == WatchdogCore.HwPing(cfg, old(View()))
    {
      var earliest := lastHwKeepalive + Ktime(cfg.minHwMs);
      if earliest > now {
        timer := Some(earliest);
        return;
      }
      lastHwKeepalive := now;
      if cfg.hasPing {
        hwOps := hwOps + 1;
      } else {
        OpStart();
      }
      UpdateWorker();
    }

    method Ping()
      requires cfg.Valid()
      modifies this
      ensures View() == WatchdogCore.Ping(cfg, old(View()))
    {
      if !active && !hwRunning {
        return;
      }
      keepalive := true;
      lastKeepalive := now;
      HwPing();
    }

    method TimerExpired()
      modifies this
      ensures View() == QueueWork(old(View()).(timer := None))
    {
      timer := None;
      if work.None? {
        work := Some(now);
      }
    }

    method PingWork()
      requires cfg.Valid()
      modifies this
      ensures View() == WatchdogCore.PingWork(cfg, old(View()))
    {
      if attached && (active || hwRunning) {
        HwPing();
      }
    }

    method StartOp(fails: bool)
      requires cfg.Valid()
      modifies this
      ensures View() == WatchdogCore.StartOp(cfg, old(View()), fails)
    {
      if (hwRunning && cfg.hasPing) || fails {
        hwOps := hwOps + 1;
      } else {
        OpStart();
      }
    }

    method MarkStarted()
      modifies this
      ensures View() == WatchdogCore.MarkStarted(cfg, old(View()))
      ensures active
    {
      active := true;
      lastKeepalive := now;
      lastHwKeepalive := now;
      UpdateWorker();
    }

    method Start(fails: bool) returns (ok: bool)
      requires cfg.Valid()
      modifies this
      ensures View() == WatchdogCore.Start(cfg, old(View()), fails)
      ensures ok <==> active
    {
      if active {
        return true;
      }
      keepalive := true;
      StartOp(fails);
      ok := !fails;
      if ok {
        MarkStarted();
      }
    }

    method Stop(fails: bool) returns (ok: bool)
      modifies this
      ensures View() == WatchdogCore.Stop(cfg, old(View()), fails)
      ensures ok <==> !StopFails(cfg, old(View()), fails)
      ensures ok <==> !active
    {
      if !active {
        return true;
      }
      if cfg.noWayOut {
        return false;
      }
      ok := true;
      if cfg.hasStop {
        hwRunning := false;
        ok := !fails;
        if ok && cfg.stopKeepsRunning {
          hwRunning := true;
        }
      } else {
        hwRunning := true;
      }
      if ok {
        active := false;
        UpdateWorker();
      }
    }

    /** The byte loop of `watchdog_write`: any 'V' among the bytes read arms the release. */
    method Write(data: seq<char>, fault: Option<nat>) returns (ok: bool)
      requires cfg.Valid()
      modifies this
      ensures View() == WatchdogCore.Write(cfg, old(View()), data, fault)
      ensures ok <==> data == [] || (!Faults(data, fault) && attached)
    {
      if data == [] {
        return true;
      }
      allowRelease := false;
      var i := 0;
      while i != |data|
        invariant 0 <= i <= |data|
        invariant fault.Some? && fault.value < |data| ==> i <= fault.value
        invariant View() == old(View()).(allowRelease := 'V' in data[..i])
        decreases |data| - i
      {
        if fault == Some(i) {
          return false;
        }
        assert data[..i + 1] == data[..i] + [data[i]];
        if data[i] == 'V' {
          allowRelease := true;
        }
        i := i + 1;
      }
      assert data[..i] == data;
      if attached {
        Ping();
      }
      ok := attached;
    }

    method SetTimeout(request: nat, fails: bool)
      requires cfg.Valid()
      modifies this
      ensures View() == WatchdogCore.SetTimeout(cfg, old(View()), request, fails)
    {
      if !fails {
        timeout := OpStartTimeout(cfg, request);
      }
      UpdateWorker();
      if !fails {
        Ping();
      }
    }

    method ClaimOpen()
      modifies this
      ensures View() == WatchdogCore.ClaimOpen(old(View()))
    {
      devOpen := true;
      if !hwRunning {
        moduleRefs := moduleRefs + 1;
      }
    }

    /** The part of `watchdog_open` after the references are taken. */
    method StartOpened(fails: bool) returns (ok: bool)
      requires cfg.Valid()
      modifies this
      ensures View() == WatchdogCore.FinishOpen(WatchdogCore.Start(cfg, old(View()), fails))
      ensures ok <==> active
    {
      ok := Start(fails);
      FinishOpen();
    }

    method FinishOpen()
      modifies this
      ensures View() == WatchdogCore.FinishOpen(old(View()))
      ensures active == old(active)
    {
      if active {
        handles := handles + 1;
      } else {
        moduleRefs := moduleRefs - 1;
        devOpen := false;
      }
    }

    method Open(moduleAlive: bool, fails: bool) returns (ok: bool)
      requires cfg.Valid()
      modifies this
      ensures View() == WatchdogCore.Open(cfg, old(View()), moduleAlive, fails)
      ensures ok ==> active
    {
      if devOpen || (!hwRunning && !moduleAlive) {
        return false;
      }
      ClaimOpen();
      ok := StartOpened(fails);
    }

    method StopOrPing(fails: bool)
      requires cfg.Valid()
      modifies this
      ensures View() == WatchdogCore.StopOrPing(cfg, old(View()), fails)
    {
      var stopped := !active;
      if active {
        var allowed := allowRelease;
        allowRelease := false;
        if allowed || !cfg.magicClose {
          stopped := Stop(fails);
        }
      }
      if !stopped {
        Ping();
      }
    }

    method CloseLocked(fails: bool)
      requires cfg.Valid()
      modifies this
      ensures View() == WatchdogCore.CloseLocked(cfg, old(View()), fails)
    {
      if attached {
        StopOrPing(fails);
        UpdateWorker();
        devOpen := false;
      }
    }

    method DropReference()
      modifies this
      ensures View() == WatchdogCore.DropReference(old(View()))
    {
      if !(attached && hwRunning) {
        moduleRefs := moduleRefs - 1;
      }
    }

    method Release(fails: bool)
      requires cfg.Valid() && handles > 0
      modifies this
      ensures View() == WatchdogCore.Release(cfg, old(View()), fails)
    {
      handles := handles - 1;
      CloseLocked(fails);
      DropReference();
    }

    method Unregister(fails: bool)
      modifies this
      ensures View() == WatchdogCore.Unregister(cfg, old(View()), fails)
    {
      if active && cfg.stopOnUnregister {
        var _ := Stop(fails);
      }
      attached := false;
      timer := None;
      work := None;
    }

    /** One event of a run, dispatched to the operation that handles it. */
    method Step(e: Event)
      requires cfg.Valid() && Enabled(View(), e)
      modifies this
      ensures View() == Apply(cfg, old(View()), e)
    {
      match e
      case Tick(d) => now := now + d;
      case TimerFires => TimerExpired();
      case WorkerRuns => work := None; PingWork();
      case UserWrite(data, fault) => var _ := Write(data, fault);
      case Keepalive => if attached { Ping(); }
      case EnableCard(fails) => if attached { var _ := Start(fails); }
      case DisableCard(fails) => if attached { var _ := Stop(fails); }
      case ChangeTimeout(request, fails) => if attached { SetTimeout(request, fails); }
      case OpenDevice(moduleAlive, fails) => var _ := Open(moduleAlive, fails);
      case CloseDevice(fails) => Release(fails);
      case UnregisterDevice(fails) => Unregister(fails);
    }
  }
}
