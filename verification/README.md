# Verification of the fan, profile and editor logic of tux-rs

This Dafny project models five parts of the laptop control daemon and its terminal
interface, and proves properties that hold for all inputs, all runs or all interleavings.

1. **Fan curves and the fan engine.** Integer interpolation over curves of any length
   (`FanCurve`, `FanCurveLaws`); the engine as a class that updates its fields round by
   round and drives per-fan arrays (`FanEngine`), refining one function per step
   (`FanEngineSpec`); theorems over all runs (`FanEngineRuns`, with `Counting` for the
   consecutive-event counters); manual setpoints (`FanDbus`); direct writes past the engine
   between its rounds (`FanDirect`).
2. **Auto-switch.** The loop, its two watch channels and everything that writes them, the
   profile store or the fan config, as atomic steps that interleave freely (`AutoSwitch`); the
   locks that these calls take, for any number of concurrent calls (`ProfileLocks`).
3. **Profile store.** A map and a directory that records every state it passes through
   (`ProfileFiles`, `ProfileStore`), and the search for a free id (`CopyIds`).
4. **Editors.** The fan-curve editor (`FanCurveEditor`), the form with its navigation, values,
   snapshot and table form (`Form`, refining `FormSpec`; `FormNavigation`, `FormFields`), its
   sessions with the daemon (`FormSessions`), and the UTF-8 text editor (`Utf8Text`).
5. **CPU frequency bounds** across many CPUs (`ScalingBounds`).

Outside decisions (sensor readings, CPU load, whether each write succeeds, what a torn file
holds, which branch of a select wins, directory order) are parameters, so every statement
ranges over all of them.

## What the proofs found

These promises do not hold of the code as written. Each is proved to hold under an exact
condition, and a failing case is proved beside it.

- `interpolate` is not monotone for a sorted curve of rising speeds whose first speed is above
  100: knots are returned unclamped, interior values are clamped (`MonotoneInTempExactly`,
  `NotMonotoneExample`). Profile curves reach the engine without validation
  (tux-daemon/src/profile_apply.rs:100-111). The PWM is monotone all the same
  (`CurvePwmMonotone`).
- A percentage of 128 or more wraps on the way to the EC scale and becomes a slow fan
  (`EcSpeedFaithfulExactly`), for the zones of a curve exactly if the minimum is that high, or at
  or beyond an end whose speed is (`ZoneWrapsExactly`, `WrappedZonesExample`).
- `ProfileStore::update` files the profile in memory under one id and on disk under another:
  memory and disk agree afterwards exactly when the two ids are equal (`Update`,
  `MisfiledUpdateExample`). The D-Bus method passes both on without comparing them
  (tux-daemon/src/dbus/profile.rs:153-171).
- `update_fan_settings` and `delete` change memory before the disk: if the disk step fails,
  memory and disk differ exactly when something changed (`UpdateFanSettings`, `Delete`,
  `FailedDiskStepExample`).
- Four writes reach the store or the fan engine without telling the auto-switch loop: the store
  write and the config send of `set_fan_mode` and `set_fan_curve`, the creation of a profile
  under an id that is already active, and the manual-mode switch or a config restored after
  suspend. In a run in which each of them meets a stated condition, hardware and store agree
  whenever everything is at rest; the first that does not lets everything under way finish into a
  rest with the hardware behind the store, and into no other (`QuiescentContentIsFresh`,
  `UnannouncedLeavesBehind`, `StepKeepsSyncExactly`). A fan call that nothing disturbs
  leaves them apart exactly when the active profile is built in or has its fan section disabled,
  and does not hold the settings already (`UndisturbedFanCallExactly`); one that is overtaken by
  a power change stores its curve into the wrong profile (`FanStoreLeavesBehindExactly`,
  `RacingFanCallExample`); a creation does it exactly when it is under the active id with other
  content (`CreationLeavesBehindExactly`, `UnannouncedCreationExample`).
- The fan calls take the assignments and then the store, the profile calls the store and then
  the assignments: they can block one another for good. That can happen exactly if a fan call
  overlaps a call that sends with the store locked or, where a waiting writer keeps readers out,
  an update of an inactive profile together with a reload or a temporary profile
  (`DeadlockExactly`, `UpdateCanEndExactly`). Once a fan call and a sender block each other, the
  loop can still apply a profile exactly if readers do not stand back for waiting writers and the
  sender is not an update of the active profile (`LoopAppliesAgainExactly`).
- In Auto mode the fans are not always automatic: a duty written past the engine while it is in
  Auto mode stays until a round takes over a config of another mode or the fan is set to
  automatic directly; in particular `set_fan_speed` and `set_fan_mode("auto")` between two rounds
  go unnoticed (`AutoModeFansExactly`, `LetGoFansExactly`, `WriteGoesUnnoticed`).
- The confirmation of a saved fan curve names no curve: an edit made before it arrives is shown
  as saved and never sent (`UnsavedEditLooksSaved`). The confirmation finds the curve it is of,
  whenever it comes, exactly if every event since the save found nothing to change
  (`ConfirmationBaselineExactly`, `ConfirmedAnyTimeExactly`, `SecondConfirmationExactly`). The
  same holds of the confirmations of the other forms (`FormSessions.ConfirmedAnyTimeExactly`,
  `UnsavedSwitchLooksSaved`).
- The frequency bounds can be inverted on a CPU when one of the two writes fails, or when the
  first CPU cannot be read (`SharedBoundsInvertedExactly`, `WrongOrderExactly`,
  `InvertedExample`).

## Model

| member | source | states |
|---|---|---|
| FanCurve.Validate | tux-core/src/fan_curve.rs:75-97 | the loops accept exactly the configs whose polls, minimum and curve are valid, sortedness being pairwise although only neighbours are compared, and report the speed error before the order error |
| FanCurve.InterpolateByLoop | tux-core/src/fan_curve.rs:106-142 | the window loop with early returns computes the function whose laws follow |
| FanCurve.CurveToEcZones | tux-core/src/fan_curve.rs:167-200 | one safety zone for the empty curve, else sixteen zones with stated ends, each sampled at its middle and raised to the minimum |
| FanCurveLaws.InteriorWindow | tux-core/src/fan_curve.rs:115-141 | on a sorted curve exactly one window is the first to contain an interior temperature, its ends differ in temperature, so the equal-temperature branch and the fallback are never reached |
| FanCurveLaws.InterpolatesLinearly | tux-core/src/fan_curve.rs:121-137 | on a sorted curve an interior result is the straight line through the bracketing points, rounded to a whole percent towards the lower temperature's speed and capped at 100 |
| FanCurveLaws.OutsideTheCurve | tux-core/src/fan_curve.rs:106-118 | outside the curve the result is the nearer end's speed, and of an empty curve 100 |
| FanCurveLaws.DefaultCurveExample | tux-core/src/fan_curve.rs:39-69 | the default points, and their results at 37, 50 and 60 degrees |
| FanCurveLaws.BetweenBracketingSpeeds | tux-core/src/fan_curve.rs:128-137 | an interior result lies between the two bracketing speeds if and only if the smaller is at most 100 |
| FanCurveLaws.HitsFirstKnot | tux-core/src/fan_curve.rs:128-137 | at an interior knot temperature the first knot of that temperature is hit, up to the clamp |
| FanCurveLaws.InteriorMonotone | tux-core/src/fan_curve.rs:106-142 | rising speeds make interior results rise and keep them between the first and last speeds, capped at 100 |
| FanCurveLaws.MonotoneInTempExactly | tux-core/src/fan_curve.rs:106-142 | for sorted rising curves the result is monotone in temperature if and only if the first speed is at most 100 or no temperature lies strictly inside |
| FanCurveLaws.NotMonotoneExample | tux-core/src/fan_curve.rs:111-137 | a concrete sorted rising curve on which a higher temperature gives a lower speed |
| FanCurveLaws.RaisingKnotsNeverLowers | tux-core/src/fan_curve.rs:121-137 | raising any knots of any sorted curve never lowers the result anywhere, despite truncation and descending segments |
| FanCurveLaws.MirrorSymmetry | tux-core/src/fan_curve.rs:121-137 | replacing every speed s by 100 - s turns every result r into 100 - r |
| FanCurveLaws.PercentToPwmOrder | tux-core/src/fan_curve.rs:154-157 | the conversion is strictly increasing up to 100 percent, saturates at 255 and sends 60 percent to 153 |
| FanCurveLaws.PercentToPwmRounds | tux-core/src/fan_curve.rs:154-157 | the duty is the percentage's share of 255 rounded to nearest, half upwards |
| FanCurveLaws.CurvePwmIsDuty | tux-daemon/src/fan_engine.rs:463-477 | the duty asked for is the rounded share of the larger of the curve's percentage and the minimum |
| FanCurveLaws.CurvePwmMonotone | tux-daemon/src/fan_engine.rs:463-477 | the duty a config asks for is monotone in temperature for every sorted rising curve, also where the percentage is not |
| FanCurveLaws.EcSpeedFaithfulExactly | tux-core/src/fan_curve.rs:191-194 | two EC steps per percent from 20 on; the EC speed reaches the requested percentage if and only if that is at most 127, and wraps above |
| FanCurveLaws.ZonesTile | tux-core/src/fan_curve.rs:173-190 | sixteen zones of seven degrees, the last to 115, each sampled at its middle |
| FanCurveLaws.ZoneWrapsExactly | tux-core/src/fan_curve.rs:173-199 | a zone of a sorted curve comes out below the speed asked for if and only if the minimum is 128 or more, or its middle is at or beyond an end whose speed is |
| FanCurveLaws.WrappedZonesExample | tux-core/src/fan_curve.rs:167-200 | a concrete curve asking for 128 percent gives sixteen zones at the slowest speed, and a valid one with a minimum of 200 percent sixteen at 144 of 200 |
| FanCurveLaws.EcZonesRise | tux-core/src/fan_curve.rs:173-199 | for valid rising curves the zones tile 0 to 115 degrees, respect the minimum and have rising speeds within 200 |
| Counting.TrailingIsUnbrokenRun | tux-daemon/src/fan_engine.rs:379-445 | a consecutive-event counter shows at least k exactly when the history ends in an unbroken run of k events |
| FanEngine.FanBackend.WritePwm | tux-core/src/mock/fan.rs:68-82 | a write to an existing fan sets its duty and leaves automatic mode, any other attempt changes nothing, and both are recorded |
| FanEngine.FanBackend.SetAuto | tux-core/src/mock/fan.rs:98-112 | automatic mode clears the duty of an existing fan; other attempts change nothing |
| FanEngine.FanCurveEngine.SetAllPwm | tux-daemon/src/fan_engine.rs:481-489 | one attempt per fan in order, with the number of failures counted |
| FanEngine.FanCurveEngine.SetAllAuto | tux-daemon/src/fan_engine.rs:547-554 | one set_auto attempt per fan in order |
| FanEngine.FanCurveEngine.ReapplyManual | tux-daemon/src/fan_engine.rs:318-326 | one attempt per recorded setpoint in order, to the fan whose index is the position as a byte |
| FanEngine.FanCurveEngine.OnReadFailure | tux-daemon/src/fan_engine.rs:384-410 | the failed-read branch: suspend, keep the duty, or send the safety duty |
| FanEngine.FanCurveEngine.SettleSetpoint | tux-daemon/src/fan_engine.rs:447-479 | hysteresis: the setpoint is recomputed only when the reading moved far enough |
| FanEngineRuns.SettleMeans | tux-daemon/src/fan_engine.rs:447-479 | within less than the hysteresis the setpoint stays, otherwise it is renewed with the rounded larger of curve and minimum, and nothing else changes |
| FanEngine.FanCurveEngine.SettleAndWrite | tux-daemon/src/fan_engine.rs:447-508 | the write stage and its own suspension |
| FanEngine.FanCurveEngine.TickCustomCurve | tux-daemon/src/fan_engine.rs:370-509 | the tick's new state, commands and interval are those of the specification whose properties are proved over runs |
| FanEngine.FanCurveEngine.AdoptConfig | tux-daemon/src/fan_engine.rs:279-310 | a differing config value resets all but the read-failure counter; a differing mode has its own resets and commands |
| FanEngine.FanCurveEngine.ActOnMode | tux-daemon/src/fan_engine.rs:312-344 | what each mode does with the fans |
| FanEngine.FanCurveEngine.OneRound | tux-daemon/src/fan_engine.rs:276-361 | one round of the loop, including the wake-up that clears the setpoint and the shutdown |
| FanEngine.FanCurveEngine.Run | tux-daemon/src/fan_engine.rs:267-362 | any run ends in the state and with the commands of the specification |
| FanEngine.RunNewEngine | tux-daemon/src/fan_engine.rs:267-362 | from a new backend the fan arrays are what the run's commands make of them |
| FanEngineRuns.ReachableIsCoherent | tux-daemon/src/fan_engine.rs:447-479 | in every reachable state temperature and duty are cached together and the duty is what the config in force asks for at the cached temperature, so the branch that should not happen does not |
| FanEngineRuns.WrittenDutyNeverDrifts | tux-daemon/src/fan_engine.rs:447-489 | in every run a written duty is the curve's duty at a temperature less than the hysteresis away from the reading, hence within the curve's band there, and exact for a hysteresis of at most one; the setpoint moves exactly when the hysteresis is reached |
| FanEngineRuns.SetpointSurvivesSleep | tux-daemon/src/fan_engine.rs:346-354 | a wait that runs out changes nothing, and a reading within the hysteresis then leaves setpoint and duty |
| FanEngineRuns.RoundSendsExactly | tux-daemon/src/fan_engine.rs:293-344 | in Auto mode set_auto to every fan exactly if the mode is new, in CustomCurve mode a tick's commands unless suspended, and set_auto at a shutdown |
| FanEngineRuns.ManualRoundSendsExactly | tux-daemon/src/fan_engine.rs:314-329 | in Manual mode one write per recorded setpoint on a re-applying backend and nothing on any other |
| FanEngineRuns.NotifiedConfigTakesEffect | tux-daemon/src/fan_engine.rs:346-354 | in every run a config with a new value, or one whose sending ended the wait, bypasses hysteresis and plausibility: the next good reading gets the curve's duty at that reading |
| FanEngineRuns.TickSendsOneDutyOrAuto | tux-daemon/src/fan_engine.rs:379-508 | every tick sends one duty to all fans, either 153 or at least the configured minimum, or ends with set_auto to all fans when it suspends |
| FanEngineRuns.TickInterval | tux-daemon/src/fan_engine.rs:394-508 | the idle interval is used exactly when the setpoint was kept by hysteresis or the curve was suspended |
| FanEngineRuns.CountersCountHistory | tux-daemon/src/fan_engine.rs:279-310 | the three counters equal counts over the whole history with their different resets |
| FanEngineRuns.ImplausibleReadingActedOnExactly | tux-daemon/src/fan_engine.rs:412-444 | a reading is acted on if and only if it is below 110 degrees, or no setpoint is held, or the load is at least 30 percent or unreadable and an unbroken run of implausible readings has reached five |
| FanEngineRuns.SuspendsExactly | tux-daemon/src/fan_engine.rs:384-396 | a tick suspends if and only if the backend re-applies and the tick ends an unbroken run of five failed reads or five failed write stages; it then ends with set_auto to every fan |
| FanEngineRuns.FailedReadSendsExactly | tux-daemon/src/fan_engine.rs:384-410 | a failed read suspends, re-sends the cached duty or sends 153, decided by the length of the unbroken run of failed reads, and leaves the setpoint alone |
| FanEngineRuns.SafetyDutyWithoutReapply | tux-daemon/src/fan_engine.rs:397-410 | without re-applying the curve is never suspended, and from the fifth failed read of a run every failing tick sends 153 to all fans |
| FanEngineRuns.SuspendedIsSilent | tux-daemon/src/fan_engine.rs:330-333 | while suspended and the config value is the same, no duty is written and the suspension lasts, whatever is re-sent |
| FanEngineRuns.ReadFailuresBounded | tux-daemon/src/fan_engine.rs:282-290 | on a re-applying backend the read-failure counter never exceeds five plus the number of config value changes |
| FanEngineRuns.HealthOverRuns | tux-daemon/src/dbus/fan.rs:227-241 | health is failed exactly during an unbroken run of thirty failed reads and ok exactly outside one of five; a re-applying backend cannot fail before 25 value changes |
| FanEngineRuns.FansAgreeAfterTick | tux-daemon/src/fan_engine.rs:481-508 | after a tick whose attempts succeed all fans hold one allowed duty, or all are automatic if it suspended |
| FanEngineRuns.SuspendedFansStayAuto | tux-daemon/src/fan_engine.rs:330-333 | fans put in automatic mode by a suspension stay there until the config value changes |
| FanEngineRuns.LetGoMeansAutomatic | tux-daemon/src/fan_engine.rs:293-361 | if set_auto works and nobody writes past the engine, then in every run, whatever else fails, all fans are automatic whenever the engine is stopped, in Auto mode or suspended |
| FanDirect.LetGoFansExactly | tux-daemon/src/dbus/fan.rs:87-110 | with direct writes between rounds a fan is automatic then if and only if no direct duty written while the engine did not have the fans still stands |
| FanDirect.AutoModeFansExactly | tux-daemon/src/fan_engine.rs:281-312 | in Auto mode a fan is automatic if and only if every direct duty met the engine in another mode, or was followed by a round with a config of another mode or by a direct return to automatic |
| FanDirect.WriteGoesUnnoticed | tux-daemon/src/fan_engine.rs:281-312 | from every history that ends in Auto mode, a duty written and followed by a round with an Auto config stays |
| FanDbus.FanInterface.SetFanSpeed | tux-daemon/src/dbus/fan.rs:87-103 | out-of-range indices change nothing; others switch to Manual and record the setpoint before the write is tried |
| FanDbus.SetpointsRememberLastCalls | tux-daemon/src/dbus/fan.rs:93-99 | over any calls the vector holds per fan the duty of its last call, 128 where none named it, and reaches just past the highest fan named |
| FanDbus.ManualRoundRestoresRequests | tux-daemon/src/fan_engine.rs:314-329 | one Manual round on a re-applying backend brings every requested fan back to its last requested duty from any hardware state |
| AutoSwitch.QuiescentAttemptIsActive | tux-daemon/src/main.rs:562-618 | under every interleaving, when the loop waits with both channels seen, the id attempted last is the one assigned to the current power state |
| AutoSwitch.RunKeepsAttemptInv | tux-daemon/src/main.rs:571-600 | the invariant of every loop position survives every step of every writer |
| AutoSwitch.LoopSettles | tux-daemon/src/main.rs:571-600 | once writers stop, at most two more iterations start, an exact number of steps is left, and the loop rests exactly when they are done, with the right id attempted |
| AutoSwitch.WriteTakesEffect | tux-daemon/src/dbus/profile.rs:49-84 | from any reachable state, setting the profile of the current power state, or changing that state, makes the loop wake and come to rest having attempted exactly the profile asked for |
| AutoSwitch.ApplyPutsInForce | tux-daemon/src/profile_apply.rs:98-124 | an apply puts a stored profile in force, automatic mode with the defaults if its fan section is disabled, and leaves the hardware alone otherwise |
| AutoSwitch.StartPutsInForce | tux-daemon/src/main.rs:371-393 | the daemon starts with the profile of its power state in force, or its own fan config if that is missing |
| AutoSwitch.StoreWritesMean | tux-daemon/src/dbus/profile.rs:142-187 | a store write changes the profile it names and no other, a reload all of them, and none the hardware |
| AutoSwitch.FanStepsMean | tux-daemon/src/profile_store.rs:99-118 | fan sends reach the engine at once, and the store write of a call changes the fan settings of the custom profile it names, nothing else |
| AutoSwitch.FanReadsMean | tux-daemon/src/dbus/fan.rs:57-63 | a call takes along the config it sent or finds, and the profile assigned to the power state it finds |
| AutoSwitch.NudgesMean | tux-daemon/src/dbus/profile.rs:163-175 | an update tells the loop exactly if it found its own profile active, a reload always |
| AutoSwitch.SomeLoopStepUnlessQuiescent | tux-daemon/src/main.rs:571-640 | the loop can move if and only if it is neither at rest nor waiting for the store that a running update has locked |
| AutoSwitch.UpdateCanEndExactly | tux-daemon/src/dbus/profile.rs:153-177 | a running update can still end if and only if it is not bound to send while a fan call on its way to the store holds the assignments |
| AutoSwitch.DeadlockStays | tux-daemon/src/dbus/fan.rs:57-65 | in that state no run changes what was attempted or applied any more |
| AutoSwitch.StepKeepsSyncExactly | tux-daemon/src/dbus/fan.rs:57-187 | from every state in sync a step of any writer or of the loop stays in sync if and only if it meets its stated condition |
| AutoSwitch.RunKeepsSyncExactly | tux-daemon/src/dbus/profile.rs:163-175 | a run is in sync after every step if and only if all its steps meet theirs; a stale active profile then has a nudge, or a fan call that heals it, on its way |
| AutoSwitch.UnannouncedLeavesBehind | tux-daemon/src/dbus/fan.rs:57-187 | a step that does not meet its condition lets everything under way finish into a rest with the hardware behind, and into no other rest |
| AutoSwitch.SettlesFreshExactly | tux-daemon/src/dbus/fan.rs:57-187 | from a state in sync, everything under way comes to rest in agreement, however it goes on, if and only if it goes on by steps that meet their conditions |
| AutoSwitch.QuiescentContentIsFresh | tux-daemon/src/dbus/profile.rs:153-177 | from start-up, in runs of such steps the engine and the applier have at rest what is stored under the active id, however updates, fan calls and reloads raced with power changes, reassignments and the loop; the first other step leaves the hardware behind; and agreement at every rest that a run or what is under way can come to is equivalent to all steps meeting their conditions |
| AutoSwitch.FanStoreLeavesBehindExactly | tux-daemon/src/dbus/fan.rs:57-72 | with the loop at rest the store write of a fan call leaves the hardware behind if and only if it lands in the active custom profile, whose fan section is enabled, and is not what is in force |
| AutoSwitch.RestOfCallStores | tux-daemon/src/dbus/fan.rs:57-72 | a fan call left alone from any of its points stores the settings it has into the profile it finds active, and changes nothing else |
| AutoSwitch.UndisturbedFanCallExactly | tux-daemon/src/dbus/fan.rs:157-187 | from rest a whole undisturbed fan call leaves hardware and store in agreement if and only if the active profile is missing, holds the settings already, or is custom with its fan section enabled |
| AutoSwitch.CreationLeavesBehindExactly | tux-daemon/src/dbus/profile.rs:142-150 | from rest a creation leaves the hardware behind if and only if its id is the active one and its content is not what is in force |
| AutoSwitch.UnannouncedCreationExample | tux-daemon/src/main.rs:371-393 | a concrete start on a missing profile whose later creation goes unnoticed |
| AutoSwitch.RacingFanCallExample | tux-daemon/src/dbus/fan.rs:178-187 | a concrete run without any creation in which the power changes under a fan call and its curve ends in a profile the hardware does not follow |
| ProfileLocks.SomeCallCanStep | tux-daemon/src/dbus/profile.rs:49-95 | any number of calls that take locks in one order can always move, also where readers stand back for writers |
| ProfileLocks.CallsCanFinish | tux-daemon/src/dbus/profile.rs:49-177 | without a fan call, or without the calls it must not meet, all calls can finish from every state |
| ProfileLocks.DeadlockExactly | tux-daemon/src/dbus/fan.rs:57-72 | concurrent calls can get to where one is blocked for good if and only if a fan call is among them with a call that sends with the store locked, or, where a waiting writer keeps readers out, with a quiet update and another sender |
| ProfileLocks.LoopNeverAppliesAgain | tux-daemon/src/main.rs:620-640 | once a fan call and a sender wait for each other, and the sender is a nudging update or readers stand back, no run lets the loop read the store |
| ProfileLocks.LoopAppliesAgainExactly | tux-daemon/src/main.rs:620-640 | from every reachable such state the loop can read the store again if and only if readers do not stand back and the sender is not a nudging update |
| ProfileLocks.RunKeepsExclusion | tux-daemon/src/dbus/profile.rs:49-95 | in every run who holds a lock exclusively holds it alone |
| ProfileLocks.NestingExactly | tux-daemon/src/dbus/profile.rs:49-95 | which calls take which lock inside which other |
| ProfileLocks.TakesExactly | tux-daemon/src/dbus/tcc_compat.rs:490-531 | which calls take which lock, shared or exclusively |
| ProfileFiles.MirrorsReload | tux-daemon/src/profile_store.rs:165-201 | a mirroring directory reloads to exactly its map in every listing order, ignoring temporary and broken files |
| ProfileFiles.NoReloadToMisfiled | tux-daemon/src/profile_store.rs:165-201 | no directory reloads to a map that files a profile under another id |
| ProfileFiles.ReloadIsUnique | tux-daemon/src/profile_store.rs:165-201 | a directory reloads to at most one map |
| ProfileFiles.TempKeepsMirror | tux-daemon/src/profile_store.rs:231-232 | a temporary file of any content leaves the mirrored map as it is |
| ProfileFiles.RenameMirrors | tux-daemon/src/profile_store.rs:233-233 | the rename takes the directory to the map with the new profile in it, or, for an empty id, to the same map |
| ProfileStore.CrashReloads | tux-daemon/src/profile_store.rs:227-235 | reloading after a crash at any recorded disk step gives the map from before or after the operation |
| ProfileStore.ProfileStore.LoadCustomProfiles | tux-daemon/src/profile_store.rs:165-201 | the loop loads in listing order, first file of an id winning |
| ProfileFiles.FirstFileWins | tux-daemon/src/profile_store.rs:165-201 | an id is loaded exactly if some listed file holds it, and with the profile of the first that does |
| ProfileStore.ProfileStore.constructor | tux-daemon/src/profile_store.rs:26-42 | a new store holds what its directory loads to, and is in step with an empty directory |
| ProfileStore.ProfileStore.Persist | tux-daemon/src/profile_store.rs:227-235 | every directory state on the way, torn writes included, mirrors the old or the new map, and a failure leaves the old one |
| ProfileStore.ProfileStore.Create | tux-daemon/src/profile_store.rs:62-75 | the exact error or success, the new map, crash safety, and agreement of memory and disk whatever I/O does |
| ProfileStore.ProfileStore.Update | tux-daemon/src/profile_store.rs:78-94 | the exact error or success; after success memory and disk agree if and only if the profile's own id is the one updated, and a failed update leaves them in agreement whatever the id |
| ProfileStore.ProfileStore.UpdateFanSettings | tux-daemon/src/profile_store.rs:99-118 | only mode, minimum and curve change; after an I/O failure memory and disk agree if and only if nothing changed |
| ProfileStore.ProfileStore.Delete | tux-daemon/src/profile_store.rs:121-139 | the profile leaves memory at once; memory and disk agree if and only if the removal did not fail |
| ProfileStore.ProfileStore.Copy | tux-daemon/src/profile_store.rs:144-160 | a copy keeps every setting but id, name and default mark; copying an existing profile fails only if the disk does, finds a valid free id within one more try than there are custom profiles, and keeps memory and disk in step |
| ProfileStore.ProfileStore.PerformAll | tux-daemon/src/profile_store.rs:62-160 | any sequence of operations takes memory through exactly the stated effects; memory, disk and a reload agree after it, and every directory state passed mirrors memory at an operation boundary |
| ProfileStore.MisfiledUpdateExample | tux-daemon/src/profile_store.rs:91-92 | a concrete update after which disk and memory reload differently |
| ProfileStore.FailedDiskStepExample | tux-daemon/src/profile_store.rs:112-138 | a concrete deletion and a concrete change of fan settings that a reload undoes because their disk step failed |
| CopyIds.GenerateCopyId | tux-daemon/src/profile_store.rs:249-272 | the search terminates with the first free candidate, by the pigeonhole principle within one more try than there are custom profiles |
| CopyIds.TakenCandidatesBounded | tux-daemon/src/profile_store.rs:263-270 | if the first n candidates are all taken there are at least n ids |
| CopyIds.CandidatesDistinct | tux-daemon/src/profile_store.rs:257-264 | candidates never repeat, decimal suffixes being injective |
| CopyIds.CandidatesAreValid | tux-daemon/src/profile_store.rs:204-224 | every candidate passes the id check whatever the profile's name |
| CopyIds.RefusedExactly | tux-daemon/src/profile_store.rs:204-224 | an id is refused if and only if it is empty, contains two dots or a separator, or starts with two underscores |
| CopyIds.BaseByCharacter | tux-daemon/src/profile_store.rs:249-256 | character by character a name's base keeps alphanumerics and dashes and turns spaces into dashes |
| CopyIds.DecimalReadsBack | tux-daemon/src/profile_store.rs:263-264 | the number in a candidate reads back and has no leading zero |
| FanCurveEditor.FanCurveState.Handle | tux-tui/src/update.rs:377-411 | every key and daemon update moves the editor as specified, and a save sends the curve exactly when it is dirty |
| FanCurveEditor.StepKeysMean | tux-tui/src/update.rs:377-400 | Up and Down move one speed by five within 0 and 100, Right and Left select the next and the previous point |
| FanCurveEditor.PointKeysMean | tux-tui/src/model.rs:981-1008 | Insert puts the rounded-down middle in, Delete takes the selected point out, all others stay in order |
| FanCurveEditor.WholeCurveEventsMean | tux-tui/src/model.rs:947-975 | what reset, escape, data, confirmation and save do to the whole editor |
| FanCurveEditor.FanCurveState.InsertPoint | tux-tui/src/model.rs:981-997 | inserts the midpoint after the selection and selects it, below twenty points only |
| FanCurveEditor.FanCurveState.LoadCurve | tux-tui/src/model.rs:947-952 | a loaded curve becomes both points and baseline, unmarked |
| FanCurveEditor.FanCurveState.DeletePoint | tux-tui/src/model.rs:1000-1008 | removes the selected point, keeps at least two, clamps the selection |
| FanCurveEditor.SessionsStaySane | tux-tui/src/model.rs:932-1024 | over every session the curve stays valid, the selection in range, and an unmarked curve is the baseline |
| FanCurveEditor.SessionsSendValidCurves | tux-tui/src/update.rs:401-404 | every curve ever sent passes the daemon's curve checks |
| FanCurveEditor.EventKeepsSane | tux-tui/src/update.rs:994-1011 | one event keeps all that, and a daemon curve never replaces unsaved points |
| FanCurveEditor.MidpointBetween | tux-tui/src/model.rs:987-992 | the overflow-free formula is the floor of the mean and lies between its arguments |
| FanCurveEditor.InsertChangesNothingOutside | tux-tui/src/model.rs:981-997 | an inserted midpoint changes no interpolated value outside the two neighbouring temperatures |
| FanCurveEditor.InsertStaysWithinNeighbours | tux-tui/src/model.rs:981-997 | strictly between them, on any sorted curve, the new value stays within the neighbours' speeds if and only if the smaller is at most 100 |
| FanCurveEditor.DeleteUndoesInsert | tux-tui/src/model.rs:981-1008 | deleting after inserting restores the points |
| FanCurveEditor.LeftUndoesRight | tux-tui/src/bounded_index.rs:28-40 | the two selection moves are inverse |
| FanCurveEditor.KeepsPointsExactly | tux-tui/src/update.rs:377-411 | an event leaves the points alone if and only if its own guard in the handler finds nothing to do |
| FanCurveEditor.ConfirmationBaselineExactly | tux-tui/src/update.rs:1007-1011 | with one event between save and confirmation the baseline is the sent curve if and only if that event left the points alone, and a further save sends nothing either way |
| FanCurveEditor.ConfirmedAnyTimeExactly | tux-tui/src/update.rs:1007-1011 | over any events after a save the confirmation makes the sent curve the baseline, whenever it comes, if and only if each event left the points alone |
| FanCurveEditor.ConfirmationKeepsSentCurve | tux-tui/src/update.rs:1007-1011 | and then the editor is clean on exactly the curve that was sent |
| FanCurveEditor.SecondConfirmationExactly | tux-tui/src/update.rs:1007-1011 | with two saves in flight the first confirmation already makes the second curve the baseline, its own only if the edit between changed nothing, and the second finds its curve if and only if the event before it did |
| FanCurveEditor.UnsavedEditLooksSaved | tux-tui/src/update.rs:1007-1011 | a concrete session from a new editor whose last edit is shown as saved and never sent |
| Utf8Text.PressAllRefines | tux-tui/src/model.rs:1238-1298 | over every key sequence the byte editor stands for the character editor and its cursor is on a character boundary |
| Utf8Text.PressRefines | tux-tui/src/model.rs:1238-1298 | each key does to the bytes what it does to the characters |
| Utf8Text.RepresentationUnique | tux-tui/src/model.rs:1046-1050 | buffer and cursor determine the characters before and after the cursor |
| Utf8Text.DecodeEncode | tux-tui/src/model.rs:1238-1247 | an encoded character decodes to its code point |
| Utf8Text.TypingIsUndone | tux-tui/src/model.rs:1238-1273 | a typed character is removed without trace by Backspace, and by Left then Delete |
| Utf8Text.LeftRightInverse | tux-tui/src/model.rs:1275-1298 | away from the ends the cursor moves undo each other |
| FormNavigation.FindNext | tux-tui/src/model.rs:1092-1104 | the modular search loop finds the specified next field |
| FormNavigation.FindPrev | tux-tui/src/model.rs:1107-1119 | the modular search loop finds the specified previous field |
| FormNavigation.MovesLandOnEnabled | tux-tui/src/model.rs:1092-1119 | if any field is enabled both moves land on an enabled one, otherwise they stay |
| FormNavigation.NextIsNearest | tux-tui/src/model.rs:1092-1104 | the next field is the nearest enabled one further on, or the first from the start |
| FormNavigation.PrevIsNearest | tux-tui/src/model.rs:1107-1119 | the previous field is the nearest enabled one further back, or the last from the end |
| FormNavigation.MovesUndoEachOther | tux-tui/src/model.rs:1092-1119 | from an enabled field each move undoes the other |
| FormNavigation.OneRoundReturns | tux-tui/src/model.rs:1092-1104 | as many presses as there are enabled fields lead back |
| FormNavigation.OneRoundReaches | tux-tui/src/model.rs:1092-1104 | on the way every enabled field is reached |
| FormNavigation.OneRoundNeverRepeats | tux-tui/src/model.rs:1092-1104 | no two of the presses reach the same field |
| FormFields.AdjustUndoneExactly | tux-tui/src/model.rs:1122-1162 | the arrow keys undo each other on a value exactly where no bound cut the step short |
| FormFields.AdjustedMeans | tux-tui/src/model.rs:1122-1162 | one press moves a number one step up to its bounds, flips a switch, and moves a selection by one in the key's direction |
| FormFields.ToggledMeans | tux-tui/src/model.rs:1165-1182 | the space bar flips a switch and advances a selection |
| FormFields.SavedAndLoadedMean | tux-tui/src/update.rs:1303-1344 | what each kind of value is saved as, and what it takes over from a table |
| FormFields.ValueRoundTripExactly | tux-tui/src/update.rs:1303-1344 | a value survives saving and loading into every field of its shape if and only if it is within bounds, or a selected option no earlier option repeats |
| FormFields.SerializeForm | tux-tui/src/update.rs:675-692 | the loop builds the table in which the last field of a key wins |
| FormFields.TableHoldsFields | tux-tui/src/update.rs:678-690 | with unique keys the table holds exactly the fields |
| FormFields.LastFieldWins | tux-tui/src/update.rs:678-690 | of several fields with one key the last is saved |
| FormFields.FormRoundTrip | tux-tui/src/update.rs:1297-1348 | loading a form's table into any form of the same keys and shapes reproduces every faithful value |
| Form.Form.LoadFromTable | tux-tui/src/update.rs:1297-1348 | exactly the fields whose keys are present are loaded, and the result is clean with its snapshot equal to its values |
| Form.Form.LoadSaved | tux-tui/src/update.rs:1297-1348 | saving then loading reproduces the form, clean and with a matching snapshot |
| Form.Form.SelectNext | tux-tui/src/model.rs:1092-1104 | the selection moves as specified and nothing else changes |
| Form.Form.SelectPrev | tux-tui/src/model.rs:1107-1119 | the selection moves as specified and nothing else changes |
| Form.Form.Adjust | tux-tui/src/model.rs:1122-1162 | changes only the selected enabled field, within its bounds, and marks the form exactly when it changes it |
| Form.Form.Toggle | tux-tui/src/model.rs:1165-1182 | flips a switch or advances a selection of the selected enabled field, and marks the form exactly then |
| Form.Form.Discard | tux-tui/src/model.rs:1185-1190 | every value goes back to the snapshot, everything else stays |
| Form.Form.MarkSaved | tux-tui/src/model.rs:1193-1196 | the snapshot becomes the current values and the mark goes |
| Form.Form.StartTextEdit | tux-tui/src/model.rs:1204-1218 | only on an enabled text field, with the cursor at the end |
| Form.Form.EditKey | tux-tui/src/model.rs:1238-1298 | one key of a running edit, keeping it well-formed |
| Form.Form.ConfirmTextEdit | tux-tui/src/model.rs:1221-1230 | the buffer reaches the selected text field, and only a real difference marks the form |
| Form.Form.HandleTextKey | tux-tui/src/update.rs:575-587 | Enter stores a changed buffer and marks the form, Esc drops it, the editing keys change the buffer only |
| Form.Form.HandleKey | tux-tui/src/update.rs:599-618 | every key moves the form as specified, a running text edit taking all of them, and a save sends the form's table exactly when it is dirty |
| Form.Form.HandleUpdate | tux-tui/src/update.rs:1064-1076 | data is skipped while the form is dirty and loaded otherwise; a confirmation makes whatever the form holds the snapshot |
| FormSessions.NextStaysWellFormed | tux-tui/src/update.rs:599-618 | every key and daemon message keeps values sound, the selection in range and a running text edit well-formed |
| FormSessions.BackspaceMeans | tux-tui/src/update.rs:575-587 | during an edit Backspace removes the character before the cursor |
| FormSessions.DeleteMeans | tux-tui/src/update.rs:575-587 | Delete removes the character after it |
| FormSessions.LeftMeans | tux-tui/src/update.rs:575-587 | Left moves the cursor back over one character |
| FormSessions.RightMeans | tux-tui/src/update.rs:575-587 | Right moves it forward over one |
| FormSessions.CharMeans | tux-tui/src/update.rs:575-587 | a character goes in before the cursor, space and the save key included, and nothing is sent |
| FormSessions.EndingKeysMean | tux-tui/src/update.rs:575-587 | Esc drops the edit, Enter stores its buffer in the selected text field and marks the form if it differs |
| FormSessions.BufferHoldsCharacters | tux-tui/src/model.rs:1221-1230 | the buffer so stored encodes the characters around the cursor |
| FormSessions.EditingSessionsMean | tux-tui/src/update.rs:575-587 | any sequence of editing keys does to the edit what it does to the characters, and nothing else |
| FormSessions.FieldKeysMean | tux-tui/src/update.rs:599-618 | outside an edit Left and Right adjust an enabled field down and up, space toggles it, Enter starts a text edit at its end |
| FormSessions.ChangedMeans | tux-tui/src/model.rs:1122-1182 | a changed value replaces the selected one alone and marks the form |
| FormSessions.FormKeysMean | tux-tui/src/update.rs:599-618 | Up and Down select, Esc brings back the snapshot, every other key does nothing |
| FormSessions.KeepsValuesExactly | tux-tui/src/update.rs:599-618 | an event leaves all values alone if and only if its guard finds nothing to do |
| FormSessions.ConfirmedAnyTimeExactly | tux-tui/src/update.rs:1214-1276 | over any session after a save the confirmation makes the values that were sent the snapshot, whenever it comes, if and only if each event left the values alone |
| FormSessions.UnsavedSwitchLooksSaved | tux-tui/src/update.rs:1214-1276 | a concrete switch changed between save and confirmation is shown as saved and never sent |
| Form.Form.EditText | tux-tui/src/update.rs:575-587 | a whole text edit, when confirmed, stores what its keys make of the text and marks the form exactly if that differs; when cancelled it changes nothing |
| ScalingBounds.CpuGovernor.WriteAll | tux-daemon/src/cpu/governor.rs:71-93 | every CPU is tried, the call succeeds if and only if one write did, and each bound pair right after a write is on record |
| ScalingBounds.CpuGovernor.ApplyScalingBounds | tux-daemon/src/profile_apply.rs:62-97 | the final bounds of every CPU; no write inverts a CPU if and only if the stated per-CPU condition holds; from shared ordered bounds with succeeding writes none does and every CPU ends at the requested pair |
| ScalingBounds.CpuGovernor.ApplyFrequencies | tux-daemon/src/profile_apply.rs:157-186 | non-positive bounds are ignored, contradictory ones skipped, single ones set alone |
| ScalingBounds.SharedBoundsApplyCleanly | tux-daemon/src/profile_apply.rs:62-97 | the condition behind that holds of every CPU of such a start |
| ScalingBounds.SharedBoundsInvertedExactly | tux-daemon/src/profile_apply.rs:62-97 | with failing writes a CPU is inverted exactly when the write that had to clear the way failed and the other succeeded |
| ScalingBounds.WrongOrderExactly | tux-daemon/src/profile_apply.rs:63-73 | the order is wrong for a CPU exactly when the first CPU could not be read or differs in the stated way |
| ScalingBounds.InvertedExample | tux-daemon/src/profile_apply.rs:62-97 | a concrete CPU whose bounds are inverted by one failed write, or by unreadable current bounds |

## Left out

- FanEngine.FanCurveEngine.Run: counters are unbounded, so the wrap-around of the `u32` counters after four billion ticks is not modelled; CPU load is a real number instead of an `f32`.
- FanDirect.LetGoFansExactly: a direct write that lands in the middle of a round counts as before or after it, and the last `set_auto` of the daemon after the engine has stopped is left out.
- AutoSwitch.QuiescentContentIsFresh: speaks of what was last given to the fan engine and the applier; whether the hardware accepts it, the poll times and the hysteresis of a fan config, and direct D-Bus writes to keyboard, charging, display and power settings are not modelled.
- AutoSwitch.SomeLoopStepUnlessQuiescent: a reassignment that waits to send with the store locked, behind which a queued fan call can keep the loop out where waiting writers go first, is not among the steps; `ProfileLocks` has it.
- AutoSwitch.LoopSettles: the loop is a set of interleaved atomic steps rather than a method, because its point is what happens between them; shutdown and dropped senders are left out.
- ProfileLocks.DeadlockExactly: poisoned locks, and locks that no call holds while it waits for another one, such as those of the power and fan-config channels, are left out.
- ProfileStore.ProfileStore.LoadCustomProfiles: every listed file can be read; TOML text is abstracted to a profile or something that does not parse.
- ProfileStore.ProfileStore.Persist: disk steps reach the disk in the order they are made; a crash that reorders unflushed writes is not modelled.
- FanCurveEditor.FanCurveState.Handle: a speed addition past 255, possible only on a curve the daemon would reject, wraps as in a release build.
- CopyIds.GenerateCopyId: Unicode lower-casing and the alphanumeric test are parameters of which only the treatment of `.`, `/`, `\` and `_` is used; the `i32` suffix is unbounded.
- Form.Form.HandleKey: a tab without a backend, which ignores all keys, and the webcam tab's device switching are left out.
- Form.Form.LoadFromTable: TOML text is abstracted to a table; text that does not parse leaves the form as it is and is not modelled.
- FormFields.AdjustUndoneExactly: steps are positive, as in every form of the program.
- ScalingBounds.CpuGovernor.WriteAll: the kernel's own clamping of written bounds is not modelled, and the set of CPUs does not change during a call.
- The listing of profiles in sorted order, and the store's reload on SIGHUP other than as a step of the auto-switch protocol.
- The handler for daemon capabilities, which replaces the options of a form field without a new snapshot.
- Sysfs, hwmon and HID access, retries and sleeps, D-Bus transport, rendering and logging.
- Device tables, charging, display, keyboard, GPU and TDP backends, telemetry sampling, the client tracker, the TCC import and suspend handling: field copies, clamps and decision lists.
- Building the profile editor's form from a profile and applying it back.
