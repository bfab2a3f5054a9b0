# Watchdog and DDR-training verification

A Dafny model of two parts of the repository, with proofs of what they promise
over whole runs and over every measurement the hardware could return.

**The watchdog framework and its DesignWare driver** (`kernel/driver/`).
`WatchdogCore` is the core as a deterministic machine: one value for the status
bits, the two timestamps, the armed timer, the queued work, the module
reference and the hardware operations, one function per locked section, and
runs as sequences of events. `WatchdogDevice` is the same core as an object
updated in place, each method proved equal to its function. On top of it:

- `Deadline`, `DeadlineCount`: when a timeout longer than the hardware can count
  is met exactly, and with how many worker pings.
- `CoreTransitions`, `StoppedDevice`, `UnopenedDevice`: what every event does to
  every field, who operates the hardware, and the device before its first open
  and after a stop.
- `UnregisterQuiescence`: unregistration against every interleaving of timer
  callback, worker and file operations.
- `ModuleReference`, `MagicClose`: reference conservation, single open, and the
  meaning of the magic character, over every run.
- `DesignWare`, `DesignWareSystem`: timeout selection, and the core driving the
  counter cycle by cycle, over every run.
- `Registration`, `WatchdogRegistry`: ids, live devices and the deferred list.

**The search algorithms of the Marvell DDR training code**
(`uboot-marvell/mv-ddr-marvell/`). Every register read that reports a
measurement is an arbitrary function, so results hold for every answer.

- `PassInterval`: the circular pass-interval finder.
- `ReadLeveling`, `ReadLevelingLocks`: the variable-step read-leveling search, its
  programming, and when a lane locks.
- `Centralization`: window intersection across patterns.
- `VrefSearch`, `VrefTap`: the Vref hill climb, and the initial Vref setting.
- `DqMapping`: recovery of the board's DQ wiring.
- `PhaseShift`: the transactional write-leveling phase shift.

`Base` holds the shared wrappers. `dafny verify dfyconfig.toml` checks the
whole project.

## Where the code does not keep a promise

The code is modelled as it is; where a property is false, a concrete run shows
it and the exact condition under which it holds is proved.

- Module reference: registration takes the count from HW_RUNNING and sets that
  bit afterwards, so from a stopped device a magic close drops a reference
  nobody took (`ModuleReference.ConservationExact`,
  `ModuleReference.ReferenceUnderflow`). The error path of an open has the same
  fault when the hardware runs (`ModuleReference.FailedOpenExact`).
- Deadline: a hardware heartbeat of one millisecond rounds to a zero interval
  and the worker never starts (`Deadline.DeadlineExact`); a minimum gap or a
  worker latency that eats up the hardware period lets the hardware fire early
  (`Deadline.NeverEarlyExact`).
- Unregister: a registration before init reports success unchecked; if init
  then cannot set the device up, its unregistration tears down wd_data that is
  missing or dead (`Registration.UnregisterExact`,
  `Registration.DeferredFailure`).
- Pass interval: the scans do not wrap on the left for a marker inside the
  vector, so a run wrapping past tap 0 is not found; `PassInterval.IntervalProc`
  says exactly when, and `PassInterval.GivesUp` shows it.
- Centralization: a start beyond the receive range passes the window check when
  no far edge was found (`Centralization.CentreExact`,
  `Centralization.OutOfRangeReport`).
- Vref: the comment speaks of stepping back to the nominal Vref; the code stays
  where it is. It settles on the best index it has measured only under the
  condition of `VrefSearch.BestExact`; without a bad step it ends on index 7
  before that has been measured, and stays there (`VrefSearch.NotAlwaysBest`,
  `VrefSearch.WorstAtTop`). Its tolerance of 200, meant for a resolution of one tap, is
  below the grain of the averages and never matters
  (`VrefSearch.ResolutionIsInert`).
- Close: the comment says a watchdog that still runs keeps its driver loaded;
  the code looks at HW_RUNNING only, not at WDOG_ACTIVE
  (`ModuleReference.CloseExact`, `ModuleReference.UnloadableWhileActive`).
- Read leveling: one count serves for locked and for inactive lanes, so an
  inactive lane that shows the lock pair stands in for an active one that has
  not locked (`ReadLeveling.LevelChipSelect`, `ReadLeveling.StandIn`).

## How the outside is modelled

- Time is an integer number of nanoseconds that a run advances explicitly; the
  hrtimer fires when due, and a latency bound says how long queued work may
  wait. `ktime_t` overflow is not modelled; the 32-bit product `timeout * 1000`
  is.
- A driver either leaves `wdd->timeout` as it is asked, or is the DesignWare
  driver, which rounds it. The deadline theorems are about the first kind; on
  the second the software extension is proved never to be needed.
- Driver calls, `get_user`, `try_module_get`, device-tree aliases and the
  results of the character-device and notifier calls are parameters. IDA
  returns the lowest free id in its range.
- MAX_DOGS, MAX_BUS_NUM and the number of lanes are parameters: the header with
  the first is not part of the repository, the others differ by platform. There
  is one interface, as on every platform here.
- Masks on the read-leveling and DQ words are written as arithmetic on fields
  and as bits; the phase-shift and DesignWare registers are bit-vectors.

## Model

| member | source | states |
|---|---|---|
| `Deadline.DeadlineExact` | kernel/driver/watchdog_dev.c:88-182 | With no minimum gap and a prompt worker, whatever timer or work is pending at the start, over every run of user pings, changes to another extended timeout, timer expiries, worker runs and passing time: "the hardware countdown has run out" and "the current timeout has passed since the last user ping" are equivalent in every state; this holds for all runs if and only if max_hw_heartbeat_ms >= 2 |
| `Deadline.StarvedRun` | kernel/driver/watchdog_dev.c:122-148 | From every start, the failing run for a one-millisecond heartbeat: the interval rounds to zero, a timer left pending fires at most once, none is armed again and the hardware fires before the deadline |
| `Deadline.NeverEarlyExact` | kernel/driver/watchdog_dev.c:111-182 | For any minimum gap, any worker latency bound, any longest accepted timeout and whatever is pending at the start: no run lets the hardware countdown run out before the last user ping plus the current timeout, if and only if max_hw_heartbeat_ms >= 2 and the longest wait the core can arm plus the latency stay below the hardware period |
| `Deadline.NeverFiresEarly` | kernel/driver/watchdog_dev.c:154-240 | The sufficient half |
| `Deadline.LateWorkerRun` | kernel/driver/watchdog_dev.c:140-152 | From every start, the failing run for a worker that may be too late after a fresh wait, of the first or of the longest timeout |
| `Deadline.DeferredPingRun` | kernel/driver/watchdog_dev.c:160-169 | From every start, the failing run for a user ping that falls within the minimum gap and is put off too long |
| `Deadline.OpenNeverEarlyExact` | kernel/driver/watchdog_dev.c:815-833 | The same equivalence for every open that starts the device |
| `Deadline.RegisteredIsExtended` | kernel/driver/watchdog_dev.c:1086-1093 | Registration leaves a device to which these theorems apply, with its timer armed at half the hardware period |
| `Deadline.FreshRun` | kernel/driver/watchdog_dev.c:154-182 | From every start there is a run to a state just after a hardware ping for the user, with nothing queued, under the first or the longest timeout |
| `Deadline.RecordIsCountdown` | kernel/driver/watchdog_dev.c:171-177 | Along every run last_hw_keepalive is the moment of the last hardware operation, so the core's record and the hardware's countdown agree |
| `Deadline.FiresByDeadline` | kernel/driver/watchdog_dev.c:111-182 | The hardware has fired at the latest one worker latency after the deadline |
| `Deadline.NoWorkerPingAfterLastCall` | kernel/driver/watchdog_dev.c:128-137 | No worker ping comes later than one hardware period before the deadline, plus the latency |
| `Deadline.RunKeepsFed` | kernel/driver/watchdog_dev.c:154-279 | The feeding invariant over every run: an armed timer or queued work is due within the longest wait of the last hardware ping, and if neither exists the last call has been answered |
| `Deadline.RunKeepsBounded` | kernel/driver/watchdog_dev.c:111-152 | The lateness invariant over every run: expiry, queued work and hardware pings never pass the last call |
| `Deadline.PingShape` | kernel/driver/watchdog_dev.c:154-182 | What __watchdog_ping does to an active device in this mode: defer within the minimum gap, else ping and arm the smaller of the half period and the time to the last call |
| `Deadline.StartShape` | kernel/driver/watchdog_dev.c:253-279 | A successful start sets both timestamps to now and arms the first worker ping |
| `Deadline.UserPingShape` | kernel/driver/watchdog_dev.c:630-746 | A write that is empty or faults pings nothing; any other write, the keepalive ioctl and a new timeout restart the deadline from now and are one hardware ping or its deferral |
| `Deadline.TimeoutMsExact` | kernel/driver/watchdog_dev.c:92-92 | The millisecond product equals the requested seconds exactly up to 4294967 s; beyond that it wraps in 32 bits |
| `StoppedDevice.OperationsExact` | kernel/driver/watchdog_dev.c:154-910 | For every event in every state: the hardware is operated once by a worker run, user ping, new timeout or unstopped close of an attached device that is active or HW_RUNNING with the minimum gap over, and by an attempt to start an inactive one, and by nothing else |
| `StoppedDevice.StaysStopped` | kernel/driver/watchdog_dev.c:211-230 | From a state that is neither active nor HW_RUNNING, whatever timer or work is pending: no run without a start or an open operates the hardware, arms the timer or changes that |
| `StoppedDevice.StopIsFinal` | kernel/driver/watchdog_dev.c:293-319 | So an accepted DISABLECARD is final, though it leaves queued work behind |
| `UnopenedDevice.FedUntilOpened` | kernel/driver/watchdog_dev.c:111-152 | For a driver that keeps timeouts, with a heartbeat limit or without one: from registration until the first open no run leaves the hardware unpinged for its period, if and only if half of it is at least a millisecond and leaves room for the latency |
| `UnopenedDevice.WorkerInterval` | kernel/driver/watchdog_dev.c:119-126 | Before the first open the interval is half of the timeout, or of the driver's limit if that is shorter |
| `UnopenedDevice.RunKeepsFed` | kernel/driver/watchdog_dev.c:211-240 | The invariant behind it: a worker ping is on its way within half a heartbeat of the last one |
| `CoreTransitions.ModeExact` | kernel/driver/watchdog_dev.c:253-319 | After every event in every state, WDOG_ACTIVE and HW_RUNNING from the state before: which events start, which stop, when they succeed |
| `CoreTransitions.ClocksExact` | kernel/driver/watchdog_dev.c:154-279 | After every event in every state, both timestamps from the state before |
| `CoreTransitions.TimerExact` | kernel/driver/watchdog_dev.c:88-182 | After every event in every state, the timer from the state before: put off by the minimum gap, worked out anew, disarmed or left alone |
| `CoreTransitions.UpdateWorkerExact` | kernel/driver/watchdog_dev.c:88-152 | When a worker is needed and for when, written out in milliseconds for active and unopened devices |
| `CoreTransitions.TimeoutExact` | kernel/driver/watchdog_dev.c:174-177 | After every event in every state, the stored timeout: a driver without a ping is restarted and applies it again |
| `CoreTransitions.HoldersExact` | kernel/driver/watchdog_dev.c:794-910 | After every event in every state, attachment, open bit, handles, module references and queued work from the state before |
| `CoreTransitions.CdevRegistered` | kernel/driver/watchdog_dev.c:957-1020 | What character-device registration leaves, the reference and the immediate ping of running hardware included |
| `DeadlineCount.ExactWorkerPings` | kernel/driver/watchdog_dev.c:111-182 | For every latency bound the worker pings at most ceil((t - hm) / floor(hm / 2)) times after the last user ping, plus one if work was already queued when that ping came; a prompt worker has pinged exactly that often once the last call is past |
| `DeadlineCount.RunKeepsCounted` | kernel/driver/watchdog_dev.c:154-240 | In every run the n-th worker ping after a user ping falls no earlier than n half periods, capped at the last call, and exactly then if the worker is prompt |
| `UnregisterQuiescence.UnregisterIsQuiescent` | kernel/driver/watchdog_dev.c:1038-1062 | In every interleaving of timer callback, queueing, worker and file operations with the unregister steps, nothing after wdd is NULL pings the hardware or arms the timer, and on return timer, callback, queue and worker are idle for good |
| `UnregisterQuiescence.RunKeepsConsistent` | kernel/driver/watchdog_dev.c:211-240 | The protocol invariant tying attachment, timer, callback and work to how far unregister has come, over every interleaving |
| `UnregisterQuiescence.FileOperationKeepsAttachment` | kernel/driver/watchdog_dev.c:659-663 | File operations through an old handle never re-attach the device, and on a detached one leave hardware, timer and work alone |
| `UnregisterQuiescence.UninterleavedUnregister` | kernel/driver/watchdog_dev.c:1048-1059 | With nothing interleaved the five steps are the single unregister event of the run model |
| `UnregisterQuiescence.WorkerBodyExact` | kernel/driver/watchdog_dev.c:211-230 | The worker operates the hardware exactly if it finds the device attached and active or HW_RUNNING, the minimum gap over |
| `UnregisterQuiescence.StaysStoppedInterleaved` | kernel/driver/watchdog_dev.c:211-240 | In every interleaving without a start, timer, callback and worker leave a stopped device alone |
| `UnregisterQuiescence.StopOnUnregisterExact` | kernel/driver/watchdog_dev.c:1048-1051 | Unregistration stops an active device exactly if WDOG_STOP_ON_UNREGISTER asks for it, nowayout allows it and the driver does not fail |
| `UnregisterQuiescence.UnregisterStops` | kernel/driver/watchdog_dev.c:1048-1059 | After such a stop no interleaving without a start operates the hardware again |
| `ModuleReference.ConservationExact` | kernel/driver/watchdog_dev.c:1010-1018 | At most one handle, and one module reference exactly while a handle is open or HW_RUNNING, in every run; this holds from registration if and only if HW_RUNNING was set when the count was taken |
| `ModuleReference.ReferenceUnderflow` | kernel/driver/watchdog_dev.c:1086-1093 | The concrete failing run otherwise: open, write V, close leaves the reference count at -1 |
| `ModuleReference.RunConserves` | kernel/driver/watchdog_dev.c:794-910 | Every run of opens, closes, starts, stops, writes and worker steps with successful starts keeps single open and the reference balance |
| `ModuleReference.FailedOpenExact` | kernel/driver/watchdog_dev.c:836-840 | An open whose start fails keeps the balance exactly unless the hardware was running and the device inactive: the error path gives back a reference it did not take |
| `ModuleReference.CloseExact` | kernel/driver/watchdog_dev.c:880-908 | From every balanced state with one handle: a device the close leaves active keeps its module reference if and only if it was inactive, or the close stops it, or HW_RUNNING was set and the close does not come to call the driver's stop, which clears that bit even if it fails |
| `ModuleReference.CloseExactInRuns` | kernel/driver/watchdog_dev.c:862-910 | The same after every run with successful opens of a device registered with its hardware running |
| `ModuleReference.UnloadableWhileActive` | kernel/driver/watchdog_dev.c:898-908 | The concrete failing run: registered running, open, disable, enable, close without the magic character leaves an active device with no reference |
| `MagicClose.AllowReleaseMeaning` | kernel/driver/watchdog_dev.c:630-654 | In every run _WDOG_ALLOW_RELEASE is set if and only if the latest non-empty write read a V and no active device has been closed since |
| `MagicClose.CloseNeedsGrant` | kernel/driver/watchdog_dev.c:862-892 | With WDIOF_MAGICCLOSE a close clears WDOG_ACTIVE only on such an outstanding grant |
| `MagicClose.GrantSuffices` | kernel/driver/watchdog_dev.c:880-884 | Without nowayout and with a working stop, a close on an outstanding grant does deactivate the device |
| `MagicClose.NoWayOutIsForever` | kernel/driver/watchdog_dev.c:293-304 | With WDOG_NO_WAY_OUT no run of any events clears WDOG_ACTIVE |
| `MagicClose.BitAfterStep` | kernel/driver/watchdog_dev.c:646-654 | Only a non-empty write and the close of an active, attached device touch the release bit |
| `MagicClose.MagicRead` | kernel/driver/watchdog_dev.c:646-654 | A write reads the magic character exactly if a V precedes the faulting byte, if any |
| `DesignWareSystem.FedUntilOpened` | kernel/driver/watchdog_dev.c:1086-1093 | For every clock rate from 1000 to 2^31 Hz and every request of at least a second, no run from registration until the first open lets the DesignWare down-counter reach zero, if and only if half the granted timeout plus the worker latency cost fewer cycles than the counter holds |
| `DesignWareSystem.PromptWorkerFits` | kernel/driver/watchdog_dev.c:122-126 | The granted timeout is at least a second, and any latency below half of it meets that condition |
| `DesignWareSystem.AliveWhileActive` | kernel/driver/watchdog_dev.c:196-319 | Over every run of all events from registration, with SETTIMEOUT and starts rewriting the selector and a reset-line stop clearing it: while the device is active and less than the timeout has passed since the last user ping, the DesignWare counter has cycles left |
| `DesignWareSystem.RunTracked` | kernel/driver/watchdog_dev.c:154-319 | The invariant behind it: the stored timeout is one the selector grants, the register holds that selector while the counter is in use, and an active counter was reloaded with it no earlier than the last user ping |
| `DesignWareSystem.CloseReloads` | kernel/driver/watchdog_dev.c:862-910 | On this driver a close either stops the device or pings it, and changes the timeout in neither case |
| `DesignWareSystem.LatestRun` | kernel/driver/watchdog_dev.c:232-240 | The run in which the worker is as late as it may be |
| `DesignWareSystem.NeverExtended` | kernel/driver/watchdog_dev.c:107-108 | On this driver, in every state of every run after registration, timeout * 1000 <= max_hw_heartbeat_ms without wrap, so the "t > hm" arm is never taken and an active device needs no worker |
| `DesignWareSystem.RunKeepsFed` | kernel/driver/watchdog_dev.c:111-152 | Until the first open a worker ping is always on the way within half the granted timeout, and the counter was reloaded at last_hw_keepalive |
| `DesignWareSystem.ShortWaitIsAlive` | kernel/driver/dw_wdt.c:74-81 | A wait shorter than the granted timeout leaves cycles in the counter |
| `DesignWareSystem.RegisterFeeds` | kernel/driver/watchdog_dev.c:1086-1093 | Registration starts the counter with a usable timeout and arms the worker at half of it |
| `DesignWareSystem.TimeoutAfterStep` | kernel/driver/dw_wdt.c:100-127 | The only sources of a new timeout in any step are the driver rounding the stored or the requested one |
| `DesignWare.SelectTopIsLeast` | kernel/driver/dw_wdt.c:100-113 | The selector is the least whose period reaches the request, or 15 if none does |
| `DesignWare.SelectTopMonotone` | kernel/driver/dw_wdt.c:100-124 | A longer request never gets a shorter selector or timeout |
| `DesignWare.ReapplicationExact` | kernel/driver/dw_wdt.c:140-151 | Re-applying the stored timeout, as start does, keeps the selector for every request if and only if the rate is at most 2^31 Hz |
| `DesignWare.SelectTopIdempotent` | kernel/driver/dw_wdt.c:140-145 | The same for one request |
| `DesignWare.PeriodCoversTimeout` | kernel/driver/dw_wdt.c:74-81 | The hardware period is never shorter than the stored timeout |
| `DesignWare.GrantedTimeoutBounds` | kernel/driver/dw_wdt.c:317-319 | For usable rates a request of at least a second is granted at least a second and at most the advertised heartbeat limit |
| `DesignWare.MaxHeartbeatFitsExact` | kernel/driver/dw_wdt.c:318-319 | The heartbeat product fits a 32-bit int if and only if the rate is at least 1000 Hz |
| `DesignWare.TopRoundTrip` | kernel/driver/dw_wdt.c:83-124 | The selector written reads back through the low nibble, and the TOPINIT nibble above it is the same |
| `DesignWare.DwWdt.SetTimeout` | kernel/driver/dw_wdt.c:100-127 | The scan loop leaves the least sufficient selector in both nibbles of the register and its seconds in the timeout |
| `DesignWare.DwWdt.GetTop` | kernel/driver/dw_wdt.c:83-88 | The seconds of the selector that the low nibble of the register holds, whatever wrote it |
| `DesignWare.DwWdt.Start` | kernel/driver/dw_wdt.c:129-151 | Applies the stored timeout, kicks the counter once, enables reset mode and keeps the other control bits |
| `DesignWare.DwWdt.Stop` | kernel/driver/dw_wdt.c:153-166 | Pulses the reset line, or without one leaves the hardware marked running |
| `DesignWare.StartAfterSetTimeout` | kernel/driver/dw_wdt.c:100-151 | A start after any request leaves timeout and selector as the request granted them, and they read back |
| `WatchdogCore.Start` | kernel/driver/watchdog_dev.c:253-279 | A start changes neither handles nor references nor HW_RUNNING, leaves the device active unless the driver fails, and a successful one sets both timestamps to now and leaves the timer as the worker needs it |
| `WatchdogCore.Stop` | kernel/driver/watchdog_dev.c:293-319 | A stop leaves the device active exactly when it fails: nowayout, or a failing driver stop; the driver's stop decides HW_RUNNING, a device without one keeps running, and a stopped device has its timer as the worker needs it |
| `WatchdogCore.UpdateWorker` | kernel/driver/watchdog_dev.c:140-152 | Touches the timer and nothing else: none is left armed unless a worker is needed, and one that is newly armed lies ahead |
| `WatchdogDevice.CoreData.UpdateWorker` | kernel/driver/watchdog_dev.c:88-152 | The in-place update of the timer is the function the run theorems use |
| `WatchdogDevice.CoreData.HwPing` | kernel/driver/watchdog_dev.c:154-182 | The in-place hardware ping is the function the run theorems use |
| `WatchdogDevice.CoreData.Ping` | kernel/driver/watchdog_dev.c:196-209 | The in-place user ping is the function the run theorems use |
| `WatchdogDevice.CoreData.PingWork` | kernel/driver/watchdog_dev.c:211-230 | The worker body pings only an attached device that is active or running |
| `WatchdogDevice.CoreData.TimerExpired` | kernel/driver/watchdog_dev.c:232-240 | Expiry disarms the timer and queues the work unless it is already pending |
| `WatchdogDevice.CoreData.Start` | kernel/driver/watchdog_dev.c:253-279 | The in-place start is the function the run theorems use and reports whether the device is active |
| `WatchdogDevice.CoreData.Stop` | kernel/driver/watchdog_dev.c:293-319 | The in-place stop is the function the run theorems use and reports whether the device is inactive |
| `WatchdogDevice.CoreData.Write` | kernel/driver/watchdog_dev.c:630-669 | The byte loop sets the release bit exactly if a V was among the bytes read before a fault, then pings unless it faulted or the device is gone |
| `WatchdogDevice.CoreData.SetTimeout` | kernel/driver/watchdog_dev.c:366-388 | Set the timeout, update the worker, ping; a driver that fails keeps its timeout, and the worker is updated without a ping |
| `WatchdogDevice.CoreData.Open` | kernel/driver/watchdog_dev.c:794-841 | The in-place open, with its references and its error path |
| `WatchdogDevice.CoreData.Release` | kernel/driver/watchdog_dev.c:862-910 | The in-place close: stop or ping, re-arm, and give the reference back unless the hardware runs |
| `WatchdogDevice.CoreData.StartRegistered` | kernel/driver/watchdog_dev.c:1086-1093 | The unconditional start at the end of registration |
| `WatchdogDevice.CoreData.CdevRegister` | kernel/driver/watchdog_dev.c:1007-1020 | The state cdev registration leaves, including the reference and the immediate timer |
| `WatchdogDevice.CoreData.Unregister` | kernel/driver/watchdog_dev.c:1048-1059 | The in-place unregister without interleaving |
| `WatchdogDevice.CoreData.Step` | kernel/driver/watchdog_dev.c:681-910 | Each event of a run, dispatched to the operation that handles it, does to the object what the run model says |
| `Registration.BooksAlwaysBalance` | kernel/driver/watchdog_core.c:195-329 | From boot, over every sequence of registrations, unregistrations that get through and the one init, the allocated ids are exactly the distinct ids of the live devices, and exactly these have live wd_data |
| `Registration.InitDrainsForGood` | kernel/driver/watchdog_core.c:370-384 | Init attempts every deferred device once, first in first out, and the list is empty ever after |
| `Registration.RegisterNowEffect` | kernel/driver/watchdog_core.c:195-271 | A failed registration, the EBUSY retry included, restores the id set and the live devices; a successful one adds exactly one id and one device |
| `Registration.RegistrationSucceeds` | kernel/driver/watchdog_core.c:195-271 | A device comes to live if and only if it is valid, an id is found (a free alias or any free id) and works, or was 0 and EBUSY with another free id that works, and the reboot notifier is accepted if asked for |
| `Registration.DataAfterFailure` | kernel/driver/watchdog_core.c:231-258 | What a failed registration leaves in wd_data: as before, taken down again, or freed or never added |
| `Registration.DeferredExact` | kernel/driver/watchdog_core.c:62-83 | Until init the list holds exactly the devices registered and not unregistered since, in the order of their registrations |
| `Registration.ChosenId` | kernel/driver/watchdog_core.c:214-239 | A device lives under its alias if that is free, else under the lowest free id; after EBUSY on id 0 under the lowest free id above it |
| `Registration.UnregisterExact` | kernel/driver/watchdog_core.c:298-329 | In every state so reached, an unregistration gets through if and only if init has not run or the device is live, and then keeps the books; otherwise the teardown is handed wd_data that is missing, freed or never added |
| `Registration.DeferredFailure` | kernel/driver/watchdog_core.c:284-329 | The concrete failing run: a deferred registration reports success, init finds the device invalid, and its unregistration is the bad teardown |
| `Registration.DrainEffect` | kernel/driver/watchdog_core.c:370-384 | Draining keeps the balance and brings to life only deferred devices |
| `Registration.RemoveFirstEffect` | kernel/driver/watchdog_core.c:70-83 | Deleting from the deferred list removes the device and keeps the others distinct |
| `WatchdogRegistry.Core.RegisterNow` | kernel/driver/watchdog_core.c:195-271 | The in-place registration with its early exits is the function the run theorems use, and succeeds exactly if it brings the device to life |
| `WatchdogRegistry.Core.AcquireId` | kernel/driver/watchdog_core.c:214-246 | Taking an id, giving it back on failure, and the one retry |
| `WatchdogRegistry.Core.Register` | kernel/driver/watchdog_core.c:284-295 | Register now after init; before it defer, and report success |
| `WatchdogRegistry.Core.Unregister` | kernel/driver/watchdog_core.c:298-329 | Tear the device down and free its id after init, unless its wd_data is not live; leave the list before it |
| `WatchdogRegistry.Core.RemoveDeferred` | kernel/driver/watchdog_core.c:70-83 | The list walk unlinks the first match and nothing else |
| `WatchdogRegistry.Core.DeferredRegistration` | kernel/driver/watchdog_core.c:370-384 | The drain loop of the init call |
| `PassInterval.IntervalProc` | uboot-marvell/mv-ddr-marvell/ddr3_training_bist.c:397-485 | For every 0/1 vector and marker: MV_FAIL exactly if all taps fail, or the vector is mixed and, with the marker inside, no fail-to-pass rise occurs up to it or, with the marker beyond, it passes and all taps from it to the end pass; MV_OK on a mixed vector gives a maximal circular pass run shorter than a turn, at the marker or separated from it by fails only |
| `PassInterval.RunIsUnique` | uboot-marvell/mv-ddr-marvell/ddr3_training_bist.c:432-480 | The run so described is unique, so the contract determines the result |
| `PassInterval.DmToDqDiff` | uboot-marvell/mv-ddr-marvell/ddr3_training_bist.c:488-513 | Fails exactly for bad markers, an unmixed vector or a search that gives up; otherwise hi_diff + lo_diff is the run span minus the given span, and hi_diff >= 0 exactly if the tap at the high limit passes |
| `PassInterval.GivesUp` | uboot-marvell/mv-ddr-marvell/ddr3_training_bist.c:432-478 | For every length, two vectors with a pass run on which the search gives up |
| `PassInterval.FindRightEnd` | uboot-marvell/mv-ddr-marvell/ddr3_training_bist.c:432-464 | The right end of the run, and exactly when its bounded scans meet their limit |
| `PassInterval.FindLeftEnd` | uboot-marvell/mv-ddr-marvell/ddr3_training_bist.c:466-480 | The left end of the run; stuck exactly if everything from tap 0 on passes |
| `PassInterval.CountPasses` | uboot-marvell/mv-ddr-marvell/ddr3_training_bist.c:409-430 | The counting loop detects all-pass and all-fail exactly |
| `PassInterval.UnfoundInside` | uboot-marvell/mv-ddr-marvell/ddr3_training_bist.c:466-478 | With the marker inside the vector the left scan gets stuck exactly if there is no fail-to-pass rise up to the marker |
| `PassInterval.FoundBeyond` | uboot-marvell/mv-ddr-marvell/ddr3_training_bist.c:436-437 | With the marker beyond the vector a right end that was found never gets stuck |
| `ReadLeveling.LevelChipSelect` | uboot-marvell/mv-ddr-marvell/ddr3_training_leveling.c:1868-2138 | Search and post-processing of a chip-select for all readings: early exit exactly if as many inactive lanes locked as active ones did not; every locked active lane has its delay programmed if and only if it lies less than 256 taps past the common base; with silent inactive lanes, early exit means that every active lane locked, and then lo and hi are the exact extremes |
| `ReadLeveling.Search` | uboot-marvell/mv-ddr-marvell/ddr3_training_leveling.c:1928-2082 | For every oracle of FIFO readings: samples start at 0 and each gap is the step that the samples so far have led to, no coarser than any lane wants; the range is scanned to its end unless the search exits, the lock count is inactive plus locked lanes, the extremes are exact, and every lane is where its samples have taken it |
| `ReadLeveling.ObserveLane` | uboot-marvell/mv-ddr-marvell/ddr3_training_leveling.c:1990-2075 | One sample of one lane: the lane it leads to, and the step: 2 on a lock, at most 2, 16 or 32 for the three finer FIFO pairs of a lane ahead, otherwise unchanged |
| `ReadLeveling.ObserveAt` | uboot-marvell/mv-ddr-marvell/ddr3_training_leveling.c:1977-2077 | The lock count, the extremes and the step follow the lane update in place |
| `ReadLeveling.WideWindowLocks` | uboot-marvell/mv-ddr-marvell/ddr3_training_leveling.c:2017-2040 | The search misses no window: a lane that showed the lock pair at consecutive samples more than a cycle apart is locked |
| `ReadLevelingLocks.StretchExact` | uboot-marvell/mv-ddr-marvell/ddr3_training_leveling.c:2013-2070 | A stretch of samples showing the lock pair ends where the pair is lost or has shown for more than a cycle; a lane unlocked when it begins is then locked on the middle of its ends if and only if these are at least 20 taps apart, and otherwise is ahead again |
| `ReadLevelingLocks.LockExact` | uboot-marvell/mv-ddr-marvell/ddr3_training_leveling.c:1990-2075 | Over every sequence of samples, a lane has locked if and only if some stretch of them ends as a valid segment, and its value is the middle of the first one |
| `ReadLevelingLocks.SearchLocksExact` | uboot-marvell/mv-ddr-marvell/ddr3_training_leveling.c:1928-2082 | The same for every lane of the search, by the taps it sampled |
| `ReadLeveling.ExitMeansLocked` | uboot-marvell/mv-ddr-marvell/ddr3_training_leveling.c:2079-2081 | When inactive lanes never show the pair, the lock count is full exactly if every active lane has locked |
| `ReadLeveling.LockBalance` | uboot-marvell/mv-ddr-marvell/ddr3_training_leveling.c:1868-2081 | Inactive plus locked lanes plus missing active ones are all lanes plus the inactive ones that locked |
| `ReadLeveling.StandIn` | uboot-marvell/mv-ddr-marvell/ddr3_training_leveling.c:1975-2081 | The concrete failing run: the active lane never locks, the inactive one does, and the search exits as if it had succeeded |
| `ReadLeveling.InitialLocks` | uboot-marvell/mv-ddr-marvell/ddr3_training_leveling.c:1868-1874 | The starting lock count is the number of inactive lanes |
| `ReadLeveling.FinalLanePreservesDelay` | uboot-marvell/mv-ddr-marvell/ddr3_training_leveling.c:2101-2128 | 128 * floor(lo / 128) + 32 * phase + adll is the locked value with 0 <= adll < 32 and phase >= 0; the phase fits its field, and the register decodes to the value, exactly within 256 taps of the base |
| `ReadLeveling.TruncDivMeaning` | uboot-marvell/mv-ddr-marvell/ddr3_training_leveling.c:2101-2128 | The division by 32 rounds toward zero for either sign |
| `ReadLeveling.SearchProgramsTap` | uboot-marvell/mv-ddr-marvell/ddr3_training_leveling.c:1936-1954 | During the search the tap under test is the delay programmed |
| `ReadLeveling.PostProcess` | uboot-marvell/mv-ddr-marvell/ddr3_training_leveling.c:2101-2138 | Registers of active lanes are written from their values and the common base, inactive ones left alone |
| `PhaseShift.LaneRegister.AlignPhaseShift` | uboot-marvell/mv-ddr-marvell/ddr3_training_leveling.c:1379-1454 | MV_FAIL exactly if the original and every attempt made fail the compare, and then the register is restored; otherwise it holds the original, or the first accepted attempt's move of it: phase -2, +2, +4 or +6, from 1 back to 0 with the delay cleared |
| `PhaseShift.FinalRegisterMeaning` | uboot-marvell/mv-ddr-marvell/ddr3_training_leveling.c:1396-1450 | Attempts are made from phases 1 up, 5, 3 and 1 down; whatever the compare results, the register is as it was or moved by the amount of the first accepted one, and no bit outside the two fields changes |
| `PhaseShift.CandidatePhase` | uboot-marvell/mv-ddr-marvell/ddr3_training_leveling.c:1396-1440 | Each candidate moves the phase by exactly its shift, but from 1 back to 0 |
| `PhaseShift.CandidateOutside` | uboot-marvell/mv-ddr-marvell/ddr3_training_leveling.c:1398-1402 | A candidate changes no bit outside mask 0x1df |
| `PhaseShift.CandidateDelay` | uboot-marvell/mv-ddr-marvell/ddr3_training_leveling.c:1398-1402 | The delay bits survive, except that going back from phase 1 clears them |
| `PhaseShift.CandidateDiffers` | uboot-marvell/mv-ddr-marvell/ddr3_training_leveling.c:1396-1440 | No applicable candidate equals the original register |
| `PhaseShift.AttemptExact` | uboot-marvell/mv-ddr-marvell/ddr3_training_leveling.c:1396-1440 | The register written in attempt i is the original with its phase moved by -2, 2, 4 or 6, or from 1 to 0 with the delay cleared |
| `PhaseShift.LaneRegister.TryShifts` | uboot-marvell/mv-ddr-marvell/ddr3_training_leveling.c:1379-1454 | The attempts in their order, with the restore at the end |
| `PhaseShift.FirstAcceptedMeaning` | uboot-marvell/mv-ddr-marvell/ddr3_training_leveling.c:1396-1445 | The accepted attempt is the first of the four that is made and passes; none accepted means that all four are not made or fail |
| `DqMapping.RecoverAndDecode` | uboot-marvell/mv-ddr-marvell/mv_ddr4_mpr_pda_if.c:486-537 | End to end: a fresh map filled from the patterns any wirings produce decodes every burst read through those wirings to what the DRAM pins drove, pin 7 - j at position j |
| `DqMapping.MappingRecoversWiring` | uboot-marvell/mv-ddr-marvell/mv_ddr4_mpr_pda_if.c:509-531 | For every per-byte wiring the built map is a bijection with map[7 - d] the controller pin of DRAM pin d |
| `DqMapping.DecodeInvertsWiring` | uboot-marvell/mv-ddr-marvell/mv_ddr4_mpr_pda_if.c:350-378 | Decoding any raw word inverts the wiring |
| `DqMapping.PatternsDecode` | uboot-marvell/mv-ddr-marvell/mv_ddr4_mpr_pda_if.c:365-371 | Decoding the three patterns gives 0x55, 0x33 and 0x0f in every active byte |
| `DqMapping.SlotIsWired` | uboot-marvell/mv-ddr-marvell/mv_ddr4_mpr_pda_if.c:526-531 | A pin's slot keeps that pin, because by counting no other pin shows the same code |
| `DqMapping.EveryPinWired` | uboot-marvell/mv-ddr-marvell/mv_ddr4_mpr_pda_if.c:526-531 | Every controller pin is wired to some DRAM pin |
| `DqMapping.UsedLanesMeaning` | uboot-marvell/mv-ddr-marvell/mv_ddr4_mpr_pda_if.c:509-512 | The lanes mapped are the greatest even number not above the lane count |
| `DqMapping.UnusedReadsZero` | uboot-marvell/mv-ddr-marvell/mv_ddr4_mpr_pda_if.c:351-378 | Positions of inactive lanes decode to zero |
| `DqMapping.DqMap.PinsMapping` | uboot-marvell/mv-ddr-marvell/mv_ddr4_mpr_pda_if.c:486-537 | For arbitrary patterns each slot holds the last pin with its code; a second call changes nothing |
| `DqMapping.DqMap.FileLane` | uboot-marvell/mv-ddr-marvell/mv_ddr4_mpr_pda_if.c:514-531 | The code and filing loops of one lane leave the other lanes alone |
| `DqMapping.DqMap.DqDecode` | uboot-marvell/mv-ddr-marvell/mv_ddr4_mpr_pda_if.c:351-378 | All eight burst words become the decoded third word; inactive lanes read zero |
| `Centralization.CentralizeRx` | uboot-marvell/mv-ddr-marvell/ddr3_training_centralization.c:200-525 | Fails outright exactly if some active lane rejects a pattern, and then programmes nothing; otherwise every active lane that was not given up is programmed with the middle of its greatest start and least end, no other lane is touched, and the failure flag says whether some lane was given up |
| `Centralization.LaneConclusion` | uboot-marvell/mv-ddr-marvell/ddr3_training_centralization.c:455-525 | A lane is given up exactly if some pattern was unusable; otherwise its window is wide enough and the margins from the programmed value to its two edges differ by at most one tap |
| `Centralization.CentreExact` | uboot-marvell/mv-ddr-marvell/ddr3_training_centralization.c:403-439 | An accepted window has start < end if and only if every reported start is at most 31, and then the centre lies inside every bit's window under every pattern |
| `Centralization.LaneIsIntersection` | uboot-marvell/mv-ddr-marvell/ddr3_training_centralization.c:357-390 | After any number of patterns the lane's bounds are the greatest start and the least end, capped at 31, over all patterns and bits |
| `Centralization.StepIntersects` | uboot-marvell/mv-ddr-marvell/ddr3_training_centralization.c:376-390 | One more pattern keeps the lane the intersection of its windows |
| `Centralization.LaneStepMeaning` | uboot-marvell/mv-ddr-marvell/ddr3_training_centralization.c:267-390 | What one pattern does to a lane, from the report alone: both edges move in if every search locked; else a lane given up stays, another moves its start if every bit lacks only its far edge, or is given up |
| `Centralization.AcceptedWindows` | uboot-marvell/mv-ddr-marvell/ddr3_training_centralization.c:102-106 | Within the range the two macros accept exactly the windows of at least seven taps and those cut off at either end |
| `Centralization.ProcessPattern` | uboot-marvell/mv-ddr-marvell/ddr3_training_centralization.c:267-390 | Lock test, fix-up of missing far edges and intersection for one lane and pattern |
| `Centralization.Accumulate` | uboot-marvell/mv-ddr-marvell/ddr3_training_centralization.c:214-442 | The pattern and lane loops; MV_FAIL exactly if some active lane rejects a pattern |
| `Centralization.OutOfRangeStartAccepted` | uboot-marvell/mv-ddr-marvell/ddr3_training_centralization.c:104-106 | A start beyond the receive range with no far edge passes the window check with start > end |
| `Centralization.OutOfRangeReport` | uboot-marvell/mv-ddr-marvell/ddr3_training_centralization.c:267-439 | The concrete report: one pattern whose bits all start beyond the range without a far edge leaves start > end and is not rejected |
| `Centralization.StateThreeIsDead` | uboot-marvell/mv-ddr-marvell/ddr3_training_centralization.c:455-485 | The third false-lock state is unreachable; the second is set exactly for a window ending at 31 that starts at 26 to 28 |
| `Centralization.IsPupLock` | uboot-marvell/mv-ddr-marvell/ddr3_training.c:2850-2868 | Locked exactly if every bit is |
| `Centralization.BufMinMeaning` | uboot-marvell/mv-ddr-marvell/ddr3_training.c:2873-2884 | The minimum is a lower bound and attained, or 0xff |
| `Centralization.BufMaxMeaning` | uboot-marvell/mv-ddr-marvell/ddr3_training.c:2889-2900 | The maximum is an upper bound and attained, or 0 |
| `Centralization.GetBufMin` | uboot-marvell/mv-ddr-marvell/ddr3_training.c:2873-2884 | The loop computes the minimum |
| `Centralization.GetBufMax` | uboot-marvell/mv-ddr-marvell/ddr3_training.c:2889-2900 | The loop computes the maximum |
| `VrefSearch.Search` | uboot-marvell/mv-ddr-marvell/ddr3_training_hw_algo.c:273-690 | On up to four lanes the round cap, never the convergence flag, ends the loop; every active lane has then followed its own measurements for ten rounds and converged on an index in 0..7 |
| `VrefSearch.ConvergesWithinFive` | uboot-marvell/mv-ddr-marvell/ddr3_training_hw_algo.c:387-690 | Whatever is measured, every lane has converged after five rounds |
| `VrefSearch.FiveCanBeNeeded` | uboot-marvell/mv-ddr-marvell/ddr3_training_hw_algo.c:604-619 | Five is attained |
| `VrefSearch.ConvergeIsFinal` | uboot-marvell/mv-ddr-marvell/ddr3_training_hw_algo.c:375-376 | A converged lane never changes again |
| `VrefSearch.WideEnoughIsLeftAlone` | uboot-marvell/mv-ddr-marvell/ddr3_training_hw_algo.c:282-288 | A lane whose window was wide enough before the search is never measured, moved or programmed |
| `VrefSearch.SearchStaysOnPath` | uboot-marvell/mv-ddr-marvell/ddr3_training_hw_algo.c:391-690 | In every round the indices stay in 0..7 and the rounds still needed plus those done are at most five |
| `VrefSearch.AverageExact` | uboot-marvell/mv-ddr-marvell/ddr3_training_hw_algo.c:331-340 | The three-sample running average is exactly floor(1000 * (r1 + r2 + r3) / 3) and fits 16 bits |
| `VrefSearch.SettlesOnMeasured` | uboot-marvell/mv-ddr-marvell/ddr3_training_hw_algo.c:411-686 | The index a searched lane is left at is one it was measured at |
| `VrefSearch.BestExact` | uboot-marvell/mv-ddr-marvell/ddr3_training_hw_algo.c:404-690 | For all measurements: the settled index has, within the resolution of 200, the best window measured, if and only if: after a bad step at 3 or 6, the first fine step below it is good and either the second fails and the first is within resolution of the coarse windows before, or the limit of the fine search is within resolution of both; and without a bad step, the window at 7 is within resolution of all others |
| `VrefSearch.ResolutionIsInert` | uboot-marvell/mv-ddr-marvell/ddr3_training_hw_algo.c:387-391 | The resolution of 200 never tells two averaged windows apart, so the best within it is the best |
| `VrefSearch.MeasuredOnce` | uboot-marvell/mv-ddr-marvell/ddr3_training_hw_algo.c:404-690 | No index is measured in two rounds |
| `VrefSearch.ToTheTop` | uboot-marvell/mv-ddr-marvell/ddr3_training_hw_algo.c:444-449 | Without a bad coarse step the lane ends on index 7 whatever is measured there |
| `VrefSearch.SecondFine` | uboot-marvell/mv-ddr-marvell/ddr3_training_hw_algo.c:602-690 | Where a fine search ends whose first step is good: on its first index if the second step fails, else on its limit |
| `VrefSearch.FirstFineFails` | uboot-marvell/mv-ddr-marvell/ddr3_training_hw_algo.c:647-686 | A fine search whose first step is bad ends on the bad coarse index |
| `VrefSearch.NotAlwaysBest` | uboot-marvell/mv-ddr-marvell/ddr3_training_hw_algo.c:602-686 | The first witness: windows 30, 20 and 10 at indices 0, 3 and 2 leave the lane at 3 |
| `VrefSearch.WorstAtTop` | uboot-marvell/mv-ddr-marvell/ddr3_training_hw_algo.c:444-449 | The second witness: windows 20, 20, 20 and 1 at indices 0, 3, 6 and 7 leave the lane at 7, the worst of them |
| `VrefSearch.MissedBest` | uboot-marvell/mv-ddr-marvell/ddr3_training_hw_algo.c:404-690 | In both runs the settled index is not the best measured |
| `VrefSearch.GateIsHarmless` | uboot-marvell/mv-ddr-marvell/ddr3_training_hw_algo.c:324-325 | Skipping measurements at four converged lanes skips nothing that matters |
| `VrefSearch.DecideAll` | uboot-marvell/mv-ddr-marvell/ddr3_training_hw_algo.c:364-690 | The compare-and-respond loop decides for every active lane and counts the new arrivals |
| `VrefSearch.MeasureAll` | uboot-marvell/mv-ddr-marvell/ddr3_training_hw_algo.c:326-341 | One repetition updates the running average of active, unconverged lanes only |
| `VrefTap.TapFits` | uboot-marvell/mv-ddr-marvell/mv_ddr4_mpr_pda_if.c:111-150 | For every configuration 5000 <= vref <= 10000, no subtraction underflows, the tap is at most 61, and it stands for the closest voltage below vref |
| `VrefTap.VrefInRange` | uboot-marvell/mv-ddr-marvell/mv_ddr4_mpr_pda_if.c:143-143 | Any termination puts vref between half and full supply |
| `VrefTap.TxOdtBound` | uboot-marvell/mv-ddr-marvell/mv_ddr4_mpr_pda_if.c:111-123 | The effective termination is at most 0xffff and the product fits 32 bits |
| `VrefTap.TxOdtMeaning` | uboot-marvell/mv-ddr-marvell/mv_ddr4_mpr_pda_if.c:111-123 | Which resistor the configuration bits select, and the whole part of its parallel with 0xffff |
| `VrefTap.VrefMeaning` | uboot-marvell/mv-ddr-marvell/mv_ddr4_mpr_pda_if.c:143-143 | Vref is the whole part, in hundredths of a percent, of 30 ohms plus half the termination over both |
| `VrefTap.KnownCodes` | uboot-marvell/mv-ddr-marvell/mv_ddr4_training.c:200-244 | Every known RTT code stands for 240 ohms over the divisor that the DDR4 mode registers give it |
| `VrefTap.CodesWrap` | uboot-marvell/mv-ddr-marvell/mv_ddr4_training.c:200-228 | Bits above the sixteenth never reach the conversions |
| `VrefTap.TapBoundAttained` | uboot-marvell/mv-ddr-marvell/mv_ddr4_training.c:200-226 | With the nominal termination in use, the bound 61 is attained if and only if the 16-bit RTT code is none of the eight known ones: it counts as one ohm, which rounds to none |

## Left out

- Printing, sysfs attributes, ioctl argument copying, bus-access status codes and polling: no property depends on them.
- The printk calls at kernel/driver/watchdog_dev.c:223 and 225, which read wdd without the NULL check made after them.
- The unlocked window inside `watchdog_open`, and pretimeout registration failing: open is one event, pretimeout registration succeeds.
- GETSTATUS, pretimeout and timeleft ioctls, and the timeout-validity check, whose code is not part of the repository; the longest accepted timeout is a parameter of the deadline theorems, and requests of zero seconds are excluded where a theorem needs it.
- Feeding across a stop, a close or a failing SETTIMEOUT that re-arms the timer without a ping, and timeouts the hardware can count: the deadline theorems are about runs of user pings, changes between extended timeouts, timer, worker and time.
- A hardware ping that the driver reports as failed: the core ignores it except for the return value.
- Device reference counts (get_device, put_device), which move together with the module reference.
- Suspend and resume, restart and probe plumbing of dw_wdt.c; the copy of dw_wdt.c at the top of the repository, which differs only in debug output.
- PassInterval.IntervalProc: the left endpoint is tap 0, as in its only caller; for other endpoints the code indexes the vector modulo the size.
- DqMapping: 64-bit buses and ECC lanes, which the code says it does not support.
- VrefSearch.Search: more than four lanes, for which the measurement buffer of the code is too short.
- Centralization: the transmit direction, debug mode, and the mode without the window check that the Vref search uses.
- Engine programming, PBS, frequency change, init flows, pattern and timing tables, USB code: register sequences and constants without a property of their own.
