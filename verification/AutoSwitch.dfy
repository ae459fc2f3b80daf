/** The auto-switch protocol (tux-daemon/src/main.rs, tux-daemon/src/dbus/profile.rs,
    tux-daemon/src/dbus/fan.rs): one loop that consumes two coalescing watch channels, while the
    power monitor, D-Bus calls and the SIGHUP handler write them, the profile store and the fan
    config. Every step below is atomic in the source; anything may happen between two of them,
    except that a send waits for a held `borrow()` of the assignments, and whoever needs the store
    waits for a running update. */
module AutoSwitch {
  import FanCurve
  import opened Prelude

  type Id = string

  datatype Power = Ac | Battery

  datatype Assignments = Assignments(ac: Id, battery: Id)

  /** The part of a profile's fan section that the fan config shares with it. */
  datatype FanSettings = FanSettings(mode: FanCurve.FanMode, minSpeed: u8, curve: seq<FanCurve.Point>)

  /** A stored profile; `R` is everything outside its fan section. */
  datatype StoredProfile<R> = StoredProfile(fanEnabled: bool, fan: FanSettings, rest: R)

  /** What the applier sends to the fan engine for a profile. */
  function EffectiveFan<R>(p: StoredProfile<R>): FanSettings {
    if p.fanEnabled then p.fan
    else FanSettings(FanCurve.Auto, FanCurve.DEFAULT_MIN_SPEED, FanCurve.DEFAULT_CURVE)
  }

  /** A watch channel as one receiver sees it: every send bumps the version, `changed()` marks the
      current version seen, `borrow()` only reads. */
  datatype Channel<T> = Channel(value: T, version: nat, seen: nat) {
    predicate Unseen() { seen < version }
    function Send(v: T): Channel<T> { Channel(v, version + 1, seen) }
    function MarkSeen(): Channel<T> { Channel(value, version, version) }
  }

  /** Where the loop is: waiting, woken, holding the power state it read, holding the resolved id. */
  datatype LoopAt = Waiting | Woken | HasPower(power: Power) | HasId(id: Id)

  /** Where a running `update_profile` is, after its store write; it keeps the store locked. */
  datatype UpdateAt = NoUpdate | Updated(id: Id) | HasAssignments(id: Id, assigns: Assignments) | HasBoth(id: Id, activeId: Id)

  /** Where a `set_fan_mode` or `set_fan_curve` call is, after it sent the fan config: the former
      still has to read it back, and both look up the active profile before they write into it. */
  datatype FanCall = ModeSent | HasConfig(fan: FanSettings) | HasAssigns(fan: FanSettings, assigns: Assignments)
                   | HasTarget(fan: FanSettings, target: Id) | Finished

  /** `liveFan` is the fan config in force, `appliedRest` the rest of the profile applied last. */
  datatype State<R> = State(power: Channel<Power>, assigns: Channel<Assignments>, loopAt: LoopAt,
                            attempted: Id, liveFan: FanSettings, appliedRest: Option<R>,
                            store: map<Id, StoredProfile<R>>, builtins: set<Id>,
                            update: UpdateAt, reloading: bool, fanCalls: seq<FanCall>)

  function Resolve(a: Assignments, power: Power): Id {
    match power case Ac => a.ac case Battery => a.battery
  }

  /** The id that the current assignments give the current power state. */
  function Active<R>(s: State<R>): Id {
    Resolve(s.assigns.value, s.power.value)
  }

  /** `apply_profile_by_id`: an unknown id leaves the hardware as it is. */
  function ApplyById<R>(s: State<R>, id: Id): State<R> {
    if id !in s.store then s.(attempted := id)
    else s.(attempted := id, liveFan := EffectiveFan(s.store[id]), appliedRest := Some(s.store[id].rest))
  }

  /** What the daemon starts from: the monitor's first reading, the config file and the store. */
  datatype Boot<R> = Boot(power: Power, assigns: Assignments, fan: FanSettings, store: map<Id, StoredProfile<R>>, builtins: set<Id>)

  /** Start-up: the initial profile is applied before the loop and the D-Bus service are started,
      and both receivers start out having seen everything. */
  function Start<R>(b: Boot<R>): State<R> {
    ApplyById(State(Channel(b.power, 0, 0), Channel(b.assigns, 0, 0), Waiting, "", b.fan, None,
                    b.store, b.builtins, NoUpdate, false, []),
              Resolve(b.assigns, b.power))
  }

  // ---- Steps ---------------------------------------------------------------

  datatype Which = PowerChannel | AssignedChannel

  datatype Step<R> =
    | Wake(which: Which)          // a `changed()` of the select completes; either may win
    | ReadPower                   // `*power_rx.borrow()`
    | ResolveId                   // `resolve_profile_id`
    | Apply                       // `apply_profile_by_id`
    | PowerChange(power: Power)   // the power monitor sends
    | SetActive(id: Id, power: Power)   // the send of `set_active_profile_inner`, or of `set_temp_profile`,
                                        // whose id may have been deleted since it was looked up
    | UpdateStore(id: Id, profile: StoredProfile<R>) // `update_profile`: the store write ...
    | UpdateReadAssigned                // ... then the assignments ...
    | UpdateReadPower                   // ... then the power state ...
    | UpdateNudge                       // ... and a nudge if the profile is the active one
    | ReloadStore(profiles: map<Id, StoredProfile<R>>) // SIGHUP: the store is replaced ...
    | ReloadNudge                       // ... and the loop is nudged
    | CreateProfile(id: Id, profile: StoredProfile<R>) // `create_profile` or `copy_profile`, for an id not in the store
    | DeleteProfile(id: Id)             // `delete_profile`
    | FanCurveSend(fan: FanSettings)    // `set_fan_curve`: the config is replaced ...
    | FanModeSend(mode: FanCurve.FanMode) // `set_fan_mode`: the mode is changed ...
    | FanReadConfig(call: nat)          // ... and the config read back, then for either ...
    | FanReadAssigns(call: nat)         // ... the assignments ...
    | FanReadPower(call: nat)           // ... the power state ...
    | FanStore(call: nat)               // ... and `update_fan_settings` on the profile they name
    | DirectFan(fan: FanSettings)       // `set_fan_speed` goes to manual mode, a resume restores a config

  predicate IsLoopStep<R>(step: Step<R>) {
    step.Wake? || step.ReadPower? || step.ResolveId? || step.Apply?
  }

  /** Nobody holds a borrow of the assignments, so that a send can go ahead. */
  predicate AssignsFree<R>(s: State<R>) {
    !s.update.HasAssignments? && forall i :: 0 <= i < |s.fanCalls| ==> !HoldsAssigns(s.fanCalls[i])
  }

  predicate HoldsAssigns(c: FanCall) {
    c.HasAssigns? || c.HasTarget?
  }

  predicate Enabled<R>(s: State<R>, step: Step<R>) {
    match step
    case Wake(PowerChannel) => s.loopAt == Waiting && s.power.Unseen()
    case Wake(AssignedChannel) => s.loopAt == Waiting && s.assigns.Unseen()
    case ReadPower => s.loopAt == Woken
    case ResolveId => s.loopAt.HasPower?
    case Apply => s.loopAt.HasId? && s.update == NoUpdate
    case PowerChange(_) => true
    case SetActive(_, _) => AssignsFree(s)
    case UpdateStore(id, _) => s.update == NoUpdate && id in s.store && id !in s.builtins
    case UpdateReadAssigned => s.update.Updated?
    case UpdateReadPower => s.update.HasAssignments?
    case UpdateNudge => s.update.HasBoth? && (s.update.activeId == s.update.id ==> AssignsFree(s))
    case ReloadStore(_) => s.update == NoUpdate
    case ReloadNudge => s.reloading && AssignsFree(s)
    case CreateProfile(id, _) => s.update == NoUpdate && id !in s.store
    case DeleteProfile(id) => s.update == NoUpdate && id in s.store && id !in s.builtins
    case FanCurveSend(_) => true
    case FanModeSend(_) => true
    case FanReadConfig(i) => i < |s.fanCalls| && s.fanCalls[i].ModeSent?
    case FanReadAssigns(i) => i < |s.fanCalls| && s.fanCalls[i].HasConfig?
    case FanReadPower(i) => i < |s.fanCalls| && s.fanCalls[i].HasAssigns?
    case FanStore(i) => i < |s.fanCalls| && s.fanCalls[i].HasTarget? && s.update == NoUpdate
    case DirectFan(_) => true
  }

  /** Only custom profiles in the store are written into. */
  predicate Persistable<R>(s: State<R>, id: Id) {
    id in s.store && id !in s.builtins
  }

  /** `update_fan_settings`: `enabled` and the rest of the profile stay. */
  function WithFanSettings<R>(s: State<R>, id: Id, fan: FanSettings): map<Id, StoredProfile<R>> {
    if Persistable(s, id) then s.store[id := s.store[id].(fan := fan)] else s.store
  }

  function MoveCall<R>(s: State<R>, i: nat, to: FanCall): State<R>
    requires i < |s.fanCalls|
  {
    s.(fanCalls := s.fanCalls[i := to])
  }

  function Next<R>(s: State<R>, step: Step<R>): State<R>
    requires Enabled(s, step)
  {
    match step
    case Wake(PowerChannel) => s.(power := s.power.MarkSeen(), loopAt := Woken)
    case Wake(AssignedChannel) => s.(assigns := s.assigns.MarkSeen(), loopAt := Woken)
    case ReadPower => s.(loopAt := HasPower(s.power.value))
    case ResolveId => s.(loopAt := HasId(Resolve(s.assigns.value, s.loopAt.power)))
    case Apply => ApplyById(s, s.loopAt.id).(loopAt := Waiting)
    case PowerChange(p) => s.(power := s.power.Send(p))
    case SetActive(id, Ac) => s.(assigns := s.assigns.Send(s.assigns.value.(ac := id)))
    case SetActive(id, Battery) => s.(assigns := s.assigns.Send(s.assigns.value.(battery := id)))
    case UpdateStore(id, p) => s.(store := s.store[id := p], update := Updated(id))
    case UpdateReadAssigned => s.(update := HasAssignments(s.update.id, s.assigns.value))
    case UpdateReadPower => s.(update := HasBoth(s.update.id, Resolve(s.update.assigns, s.power.value)))
    case UpdateNudge =>
      var nudged := if s.update.activeId == s.update.id then s.assigns.Send(s.assigns.value) else s.assigns;
      s.(assigns := nudged, update := NoUpdate)
    case ReloadStore(ps) => s.(store := ps, reloading := true)
    case ReloadNudge => s.(assigns := s.assigns.Send(s.assigns.value), reloading := false)
    case CreateProfile(id, p) => s.(store := s.store[id := p])
    case DeleteProfile(id) => s.(store := s.store - {id})
    case FanCurveSend(fan) => s.(liveFan := fan, fanCalls := s.fanCalls + [HasConfig(fan)])
    case FanModeSend(mode) => s.(liveFan := s.liveFan.(mode := mode), fanCalls := s.fanCalls + [ModeSent])
    case FanReadConfig(i) => MoveCall(s, i, HasConfig(s.liveFan))
    case FanReadAssigns(i) => MoveCall(s, i, HasAssigns(s.fanCalls[i].fan, s.assigns.value))
    case FanReadPower(i) => MoveCall(s, i, HasTarget(s.fanCalls[i].fan, Resolve(s.fanCalls[i].assigns, s.power.value)))
    case FanStore(i) => MoveCall(s, i, Finished).(store := WithFanSettings(s, s.fanCalls[i].target, s.fanCalls[i].fan))
    case DirectFan(fan) => s.(liveFan := fan)
  }

  /** Every step is enabled when its turn comes. */
  ghost predicate Runs<R>(s: State<R>, steps: seq<Step<R>>)
    decreases |steps|
  {
    steps != [] ==> Enabled(s, steps[0]) && Runs(Next(s, steps[0]), steps[1..])
  }

  ghost function Final<R>(s: State<R>, steps: seq<Step<R>>): State<R>
    requires Runs(s, steps)
    decreases |steps|
  {
    if steps == [] then s else Final(Next(s, steps[0]), steps[1..])
  }

  // ---- What a step means to an observer -----------------------------------------------

  /** The engine and the applier have been given this profile: its own fan settings if its fan section is
      enabled and automatic mode with the default minimum and curve if not, and everything else. */
  predicate InForce<R(==)>(s: State<R>, p: StoredProfile<R>) {
    && (if p.fanEnabled then s.liveFan == p.fan
        else s.liveFan.mode == FanCurve.Auto && s.liveFan.minSpeed == 25
             && s.liveFan.curve == [FanCurve.Point(0, 0), FanCurve.Point(25, 10), FanCurve.Point(50, 30),
                                    FanCurve.Point(75, 70), FanCurve.Point(100, 100)])
    && s.appliedRest == Some(p.rest)
  }

  /** An apply puts the profile of its id in force if that is stored, leaves the hardware as it is if not,
      and touches nothing else but the loop. */
  lemma ApplyPutsInForce<R>(s: State<R>)
    requires Enabled(s, Apply)
    ensures var id, s' := s.loopAt.id, Next(s, Apply);
            && (if id in s.store then InForce(s', s.store[id]) else s'.liveFan == s.liveFan && s'.appliedRest == s.appliedRest)
            && s' == s.(loopAt := Waiting, attempted := id, liveFan := s'.liveFan, appliedRest := s'.appliedRest)
  {
  }

  /** The daemon starts with the profile of its power state in force, or with its own fan config if that
      profile is missing. */
  lemma StartPutsInForce<R>(boot: Boot<R>)
    ensures var id, s := if boot.power == Ac then boot.assigns.ac else boot.assigns.battery, Start(boot);
            && (if id in boot.store then InForce(s, boot.store[id]) else s.liveFan == boot.fan && s.appliedRest == None)
            && s.power.value == boot.power && s.assigns.value == boot.assigns && s.store == boot.store
  {
  }

  /** One profile of the store has changed, and no other. */
  ghost predicate OnlyAt<R>(before: map<Id, StoredProfile<R>>, after: map<Id, StoredProfile<R>>, id: Id) {
    && (forall other :: other in after && other != id <==> other in before && other != id)
    && (forall other :: other in after && other != id ==> after[other] == before[other])
  }

  /** A write of the store changes the profile it names, a reload all of them, and neither anything the hardware has. */
  lemma StoreWritesMean<R>(s: State<R>, id: Id, p: StoredProfile<R>, profiles: map<Id, StoredProfile<R>>)
    ensures Enabled(s, UpdateStore(id, p)) ==>
              var s' := Next(s, UpdateStore(id, p));
              id in s'.store && s'.store[id] == p && OnlyAt(s.store, s'.store, id) && s'.liveFan == s.liveFan && s'.appliedRest == s.appliedRest
    ensures Enabled(s, CreateProfile(id, p)) ==>
              var s' := Next(s, CreateProfile(id, p));
              id in s'.store && s'.store[id] == p && OnlyAt(s.store, s'.store, id) && s'.liveFan == s.liveFan && s'.appliedRest == s.appliedRest
    ensures Enabled(s, DeleteProfile(id)) ==>
              var s' := Next(s, DeleteProfile(id));
              id !in s'.store && OnlyAt(s.store, s'.store, id) && s'.liveFan == s.liveFan && s'.appliedRest == s.appliedRest
    ensures Enabled(s, ReloadStore(profiles)) ==>
              var s' := Next(s, ReloadStore(profiles));
              s'.store == profiles && s'.liveFan == s.liveFan && s'.appliedRest == s.appliedRest
  {
  }

  /** An update tells the loop exactly if it found its own profile active, by the assignments and the power state
      it read, and a reload always does; the assignments themselves stay. */
  lemma NudgesMean<R>(s: State<R>)
    ensures Enabled(s, UpdateReadAssigned) ==> Next(s, UpdateReadAssigned).update == HasAssignments(s.update.id, s.assigns.value)
    ensures Enabled(s, UpdateReadPower) ==>
              var a := s.update.assigns;
              Next(s, UpdateReadPower).update == HasBoth(s.update.id, if s.power.value == Ac then a.ac else a.battery)
    ensures Enabled(s, UpdateNudge) ==>
              var s' := Next(s, UpdateNudge);
              && s' == s.(assigns := s'.assigns, update := NoUpdate) && s'.assigns.value == s.assigns.value
              && s'.assigns.seen == s.assigns.seen
              && s'.assigns.version == s.assigns.version + if s.update.activeId == s.update.id then 1 else 0
    ensures Enabled(s, ReloadNudge) ==>
              var s' := Next(s, ReloadNudge);
              && s' == s.(assigns := s'.assigns, reloading := false) && s'.assigns.value == s.assigns.value
              && s'.assigns.seen == s.assigns.seen && s'.assigns.version == s.assigns.version + 1
  {
  }

  /** The sends of the fan methods reach the engine at once: a new config as it is, a new mode alone. The
      store write of a call changes the fan settings of the custom profile it names, and nothing else. */
  lemma FanStepsMean<R>(s: State<R>, fan: FanSettings, mode: FanCurve.FanMode, i: nat)
    ensures Next(s, FanCurveSend(fan)).liveFan == fan && Next(s, DirectFan(fan)).liveFan == fan
    ensures Next(s, FanModeSend(mode)).liveFan == FanSettings(mode, s.liveFan.minSpeed, s.liveFan.curve)
    ensures Enabled(s, FanStore(i)) ==>
              var call, s' := s.fanCalls[i], Next(s, FanStore(i));
              && OnlyAt(s.store, s'.store, call.target)
              && (call.target in s'.store <==> call.target in s.store)
              && (call.target in s.store ==>
                    s'.store[call.target] == if call.target in s.builtins then s.store[call.target]
                                             else StoredProfile(s.store[call.target].fanEnabled, call.fan, s.store[call.target].rest))
              && s'.liveFan == s.liveFan && s'.appliedRest == s.appliedRest
  {
  }

  /** A call takes along the config it sent, or the one in force when it reads it back, and looks up the
      profile by the assignments and the power state it finds. */
  lemma FanReadsMean<R>(s: State<R>, i: nat)
    ensures Enabled(s, FanReadConfig(i)) ==> Next(s, FanReadConfig(i)).fanCalls[i] == HasConfig(s.liveFan)
    ensures Enabled(s, FanReadAssigns(i)) ==>
              Next(s, FanReadAssigns(i)).fanCalls[i] == HasAssigns(s.fanCalls[i].fan, s.assigns.value)
    ensures Enabled(s, FanReadPower(i)) ==>
              var a := s.fanCalls[i].assigns;
              Next(s, FanReadPower(i)).fanCalls[i] == HasTarget(s.fanCalls[i].fan, if s.power.value == Ac then a.ac else a.battery)
  {
  }

  // ---- The last attempt agrees with the current situation -------------------------

  predicate AllSeen<R>(s: State<R>) {
    !s.power.Unseen() && !s.assigns.Unseen()
  }

  /** The loop is waiting and has nothing left to see. */
  predicate Quiescent<R>(s: State<R>) {
    s.loopAt == Waiting && AllSeen(s)
  }

  /** What each point of the loop knows once both channels are seen. */
  ghost predicate AttemptInv<R>(s: State<R>) {
    && s.power.seen <= s.power.version
    && s.assigns.seen <= s.assigns.version
    && match s.loopAt
       case Waiting => AllSeen(s) ==> s.attempted == Active(s)
       case Woken => true
       case HasPower(p) => !s.power.Unseen() ==> p == s.power.value
       case HasId(id) => AllSeen(s) ==> id == Active(s)
  }

  lemma StepKeepsAttemptInv<R>(s: State<R>, step: Step<R>)
    requires AttemptInv(s) && Enabled(s, step)
    ensures AttemptInv(Next(s, step))
  {
  }

  lemma {:induction false} RunKeepsAttemptInv<R>(s: State<R>, steps: seq<Step<R>>)
    requires AttemptInv(s) && Runs(s, steps)
    ensures AttemptInv(Final(s, steps))
    decreases |steps|
  {
    if steps != [] {
      StepKeepsAttemptInv(s, steps[0]);
      RunKeepsAttemptInv(Next(s, steps[0]), steps[1..]);
    }
  }

  /** Under every interleaving from start-up on, whenever the loop waits with both channels seen,
      the profile it attempted last is the one assigned to the current power state. */
  lemma {:induction false} QuiescentAttemptIsActive<R>(boot: Boot<R>, steps: seq<Step<R>>)
    requires Runs(Start(boot), steps)
    ensures var s := Final(Start(boot), steps);
            Quiescent(s) ==> s.attempted == if s.power.value == Ac then s.assigns.value.ac else s.assigns.value.battery
  {
    RunKeepsAttemptInv(Start(boot), steps);
  }

  // ---- Once the writers stop --------------------------------------------------------

  function UnseenChannels<R>(s: State<R>): nat {
    (if s.power.Unseen() then 1 else 0) + (if s.assigns.Unseen() then 1 else 0)
  }

  function StepsLeftInIteration(at: LoopAt): nat {
    match at case Waiting => 0 case Woken => 3 case HasPower(_) => 2 case HasId(_) => 1
  }

  /** Loop steps left if nobody writes any more: four per unseen channel, after the current iteration. */
  function StepsLeft<R>(s: State<R>): nat {
    4 * UnseenChannels(s) + StepsLeftInIteration(s.loopAt)
  }

  function Wakes<R>(steps: seq<Step<R>>): nat {
    if steps == [] then 0 else (if steps[0].Wake? then 1 else 0) + Wakes(steps[1..])
  }

  lemma LoopStepCounts<R>(s: State<R>, step: Step<R>)
    requires AttemptInv(s) && Enabled(s, step) && IsLoopStep(step)
    ensures StepsLeft(Next(s, step)) == StepsLeft(s) - 1
    ensures UnseenChannels(Next(s, step)) == UnseenChannels(s) - if step.Wake? then 1 else 0
    ensures Active(Next(s, step)) == Active(s)
  {
  }

  lemma {:induction false} LoopStepsAreCounted<R>(s: State<R>, steps: seq<Step<R>>)
    requires AttemptInv(s) && Runs(s, steps) && forall i :: 0 <= i < |steps| ==> IsLoopStep(steps[i])
    ensures StepsLeft(Final(s, steps)) == StepsLeft(s) - |steps|
    ensures UnseenChannels(Final(s, steps)) == UnseenChannels(s) - Wakes(steps)
    ensures Active(Final(s, steps)) == Active(s)
    decreases |steps|
  {
    if steps != [] {
      LoopStepCounts(s, steps[0]);
      StepKeepsAttemptInv(s, steps[0]);
      LoopStepsAreCounted(Next(s, steps[0]), steps[1..]);
    }
  }

  /** The loop holds an id while a running `update_profile` keeps the store locked. */
  predicate AwaitsStore<R>(s: State<R>) {
    s.loopAt.HasId? && s.update != NoUpdate
  }

  /** Apart from reassignments that wait with the store locked, whose locks are the matter of
      `ProfileLocks`, the loop can move unless it is at rest or waits for the store. */
  lemma SomeLoopStepUnlessQuiescent<R>(s: State<R>)
    requires AttemptInv(s)
    ensures Quiescent(s) <==> StepsLeft(s) == 0
    ensures (exists step: Step<R> :: IsLoopStep(step) && Enabled(s, step)) <==> !Quiescent(s) && !AwaitsStore(s)
  {
    if !Quiescent(s) && !AwaitsStore(s) {
      var step: Step<R> := match s.loopAt
        case Waiting => Wake(if s.power.Unseen() then PowerChannel else AssignedChannel)
        case Woken => ReadPower
        case HasPower(_) => ResolveId
        case HasId(_) => Apply;
      assert IsLoopStep(step) && Enabled(s, step);
    }
  }

  /** Once the writers stop, the loop starts at most two more iterations, takes exactly `StepsLeft`
      steps however its selects resolve, waits before that only for the store of a running update, and
      comes to rest with the profile assigned to the current power state attempted last. */
  lemma {:induction false} LoopSettles<R>(boot: Boot<R>, before: seq<Step<R>>, steps: seq<Step<R>>)
    requires Runs(Start(boot), before)
    requires var s := Final(Start(boot), before);
             Runs(s, steps) && forall i :: 0 <= i < |steps| ==> IsLoopStep(steps[i])
    ensures var s := Final(Start(boot), before);
            var end := Final(s, steps);
            && Wakes(steps) <= UnseenChannels(s) <= 2
            && |steps| <= StepsLeft(s)
            && (|steps| == StepsLeft(s) <==> Quiescent(end))
            && ((exists step :: IsLoopStep(step) && Enabled(end, step)) <==> |steps| < StepsLeft(s) && !AwaitsStore(end))
            && (Quiescent(end) ==> end.attempted == Active(end) == Active(s))
  {
    var s := Final(Start(boot), before);
    RunKeepsAttemptInv(Start(boot), before);
    LoopStepsAreCounted(s, steps);
    RunKeepsAttemptInv(s, steps);
    SomeLoopStepUnlessQuiescent(Final(s, steps));
  }

  /** A reassignment and a power change mean what they say, and both wake the loop. */
  lemma WritesResolve<R>(s: State<R>, id: Id, power: Power)
    requires AttemptInv(s) && Enabled(s, SetActive(id, power))
    ensures var s' := Next(s, SetActive(id, power));
            && Resolve(s'.assigns.value, power) == id
            && (forall other :: other != power ==> Resolve(s'.assigns.value, other) == Resolve(s.assigns.value, other))
            && s'.assigns.Unseen() && s'.power == s.power
    ensures var s' := Next(s, PowerChange(power));
            Active(s') == Resolve(s.assigns.value, power) && s'.power.Unseen() && s'.assigns == s.assigns
  {
  }

  /** From any reachable state: setting the profile for the current power state, or changing the power
      state, and then letting the loop come to rest attempts exactly the profile asked for. */
  lemma {:induction false} WriteTakesEffect<R>(boot: Boot<R>, before: seq<Step<R>>,
                            write: Step<R>, steps: seq<Step<R>>)
    requires Runs(Start(boot), before)
    requires var s := Final(Start(boot), before);
             && Enabled(s, write) && (write.PowerChange? || (write.SetActive? && write.power == s.power.value))
             && Runs(Next(s, write), steps)
    requires forall i :: 0 <= i < |steps| ==> IsLoopStep(steps[i])
    ensures var s := Final(Start(boot), before);
            var end := Final(Next(s, write), steps);
            var asked := if write.SetActive? then write.id
                         else if write.power == Ac then s.assigns.value.ac else s.assigns.value.battery;
            Quiescent(end) ==> Wakes(steps) >= 1 && end.attempted == asked
  {
    var s := Final(Start(boot), before);
    RunKeepsAttemptInv(Start(boot), before);
    StepKeepsAttemptInv(s, write);
    if write.SetActive? {
      WritesResolve(s, write.id, write.power);
    }
    LoopStepsAreCounted(Next(s, write), steps);
    RunKeepsAttemptInv(Next(s, write), steps);
  }

  // ---- A fan call and an update in each other's way -----------------------------------

  predicate SomeCallHolds<R>(s: State<R>) {
    exists i :: 0 <= i < |s.fanCalls| && HoldsAssigns(s.fanCalls[i])
  }

  /** A fan call has borrowed the assignments on its way to the store, and the update that has the
      store locked is bound to find its profile active and to wait with its send for that borrow. */
  predicate Deadlocked<R>(s: State<R>) {
    && SomeCallHolds(s)
    && match s.update
       case NoUpdate => false
       case Updated(id) => s.assigns.value == Assignments(id, id)
       case HasAssignments(id, a) => a == Assignments(id, id)
       case HasBoth(id, activeId) => activeId == id
  }

  lemma {:induction false} DeadlockStays<R>(s: State<R>, steps: seq<Step<R>>)
    requires Deadlocked(s) && Runs(s, steps)
    ensures var end := Final(s, steps);
            Deadlocked(end) && end.attempted == s.attempted && end.appliedRest == s.appliedRest
    decreases |steps|
  {
    if steps != [] {
      assert Deadlocked(Next(s, steps[0])) by { DeadlockSurvives(s, steps[0]); }
      DeadlockStays(Next(s, steps[0]), steps[1..]);
    }
  }

  lemma DeadlockSurvives<R>(s: State<R>, step: Step<R>)
    requires Deadlocked(s) && Enabled(s, step)
    ensures Deadlocked(Next(s, step)) && !step.Apply?
  {
    var i :| 0 <= i < |s.fanCalls| && HoldsAssigns(s.fanCalls[i]);
    assert HoldsAssigns(Next(s, step).fanCalls[i]);
  }

  lemma {:induction false} RunsStep<R>(s: State<R>, step: Step<R>, rest: seq<Step<R>>)
    requires Enabled(s, step)
    ensures Runs(s, [step] + rest) <==> Runs(Next(s, step), rest)
    ensures Runs(Next(s, step), rest) ==> Final(s, [step] + rest) == Final(Next(s, step), rest)
  {
    assert ([step] + rest)[1..] == rest;
  }

  /** A running update can still end, and let the loop have the store, in every state but those. */
  lemma UpdateCanEndExactly<R>(s: State<R>)
    ensures (exists steps :: Runs(s, steps) && Final(s, steps).update == NoUpdate) <==> !Deadlocked(s)
  {
    if Deadlocked(s) {
      forall steps | Runs(s, steps) ensures Final(s, steps).update != NoUpdate {
        DeadlockStays(s, steps);
      }
    } else {
      var steps := UpdateEnds(s);
    }
  }

  lemma UpdateEnds<R>(s: State<R>) returns (steps: seq<Step<R>>)
    requires !Deadlocked(s)
    ensures Runs(s, steps) && Final(s, steps).update == NoUpdate
    decreases match s.update case NoUpdate => 0 case HasBoth(_, _) => 1 case HasAssignments(_, _) => 2 case Updated(_) => 3
  {
    match s.update {
      case NoUpdate => steps := [];
      case Updated(id) =>
        var rest := UpdateEnds(Next(s, UpdateReadAssigned));
        RunsStep(s, UpdateReadAssigned, rest);
        steps := [UpdateReadAssigned] + rest;
      case HasAssignments(id, a) =>
        var p := if a.ac == id then Battery else Ac;
        var s1 := Next(s, PowerChange(p));
        var rest := UpdateEnds(Next(s1, UpdateReadPower));
        RunsStep(s1, UpdateReadPower, rest);
        RunsStep(s, PowerChange(p), [UpdateReadPower] + rest);
        steps := [PowerChange(p)] + ([UpdateReadPower] + rest);
      case HasBoth(_, _) =>
        steps := [UpdateNudge];
        RunsStep(s, UpdateNudge, []);
    }
  }

  // ---- The hardware has the stored content of the active profile ------------------------

  /** If the active profile is stored, the fan engine and the applier were last given what is stored
      under it. */
  ghost predicate Fresh<R>(s: State<R>) {
    Active(s) in s.store ==>
      s.liveFan == EffectiveFan(s.store[Active(s)]) && s.appliedRest == Some(s.store[Active(s)].rest)
  }

  lemma FreshMeansInForce<R>(s: State<R>)
    ensures var id := if s.power.value == Ac then s.assigns.value.ac else s.assigns.value.battery;
            Fresh(s) <==> (id in s.store ==> InForce(s, s.store[id]))
  {
  }

  /** As things stand a nudge will come: a reload has yet to nudge, or the running update is going to
      find its profile active, or has found it so. */
  ghost predicate NudgeComing<R>(s: State<R>) {
    || s.reloading
    || match s.update
       case NoUpdate => false
       case Updated(id) => id == Active(s)
       case HasAssignments(id, a) => id == Resolve(a, s.power.value)
       case HasBoth(id, activeId) => id == activeId
  }

  /** Whether a profile, stored as the active one, has what the applier applied last outside the fans,
      and takes over fan settings written into it. */
  ghost predicate TakesFan<R>(s: State<R>, p: StoredProfile<R>) {
    p.fanEnabled && Active(s) !in s.builtins && s.appliedRest == Some(p.rest)
  }

  /** What a call is going to store, with `live` as the fan config in force, and where. */
  function FanOf(live: FanSettings, c: FanCall): FanSettings
    requires !c.Finished?
  {
    if c.ModeSent? then live else c.fan
  }

  function TargetOf<R>(s: State<R>, c: FanCall): Id
    requires !c.Finished?
  {
    match c
    case HasAssigns(_, a) => Resolve(a, s.power.value)
    case HasTarget(_, target) => target
    case _ => Active(s)
  }

  /** The call is going to store `live` into the active profile. */
  ghost predicate WillStore<R>(s: State<R>, live: FanSettings, c: FanCall) {
    !c.Finished? && FanOf(live, c) == live && TargetOf(s, c) == Active(s)
  }

  ghost predicate SomeWillStore<R>(s: State<R>, live: FanSettings) {
    exists i :: 0 <= i < |s.fanCalls| && WillStore(s, live, s.fanCalls[i])
  }

  /** A fan call in flight is going to make the active profile what is in force. */
  ghost predicate Healing<R>(s: State<R>) {
    Active(s) in s.store && TakesFan(s, s.store[Active(s)]) && SomeWillStore(s, s.liveFan)
  }

  /** Hardware and store agree on the active profile, or are about to. */
  ghost predicate InSync<R>(s: State<R>) {
    Fresh(s) || NudgeComing(s) || Healing(s)
  }

  ghost predicate SyncInv<R>(s: State<R>) {
    AttemptInv(s) && (Quiescent(s) ==> InSync(s))
  }

  /** The writes nobody announces to the loop, each with what keeps it harmless while the loop rests
      and no nudge is coming: a creation under the active id brings what is in force; a fan call finds
      the active profile missing, ready to take its settings over, or holding them already, and stores
      them before they are replaced in the engine; a direct write is one the profile already holds, or
      a call in flight is about to store. Every other step is announced. */
  ghost predicate Announced<R>(s: State<R>, step: Step<R>)
    requires Enabled(s, step)
  {
    Quiescent(s) && !NudgeComing(s) ==>
      match step
      case CreateProfile(id, p) =>
        id == Active(s) ==>
          || (EffectiveFan(p) == s.liveFan && s.appliedRest == Some(p.rest))
          || (TakesFan(s, p) && SomeWillStore(s, s.liveFan))
      case FanCurveSend(fan) => MayForce(s, fan)
      case FanModeSend(mode) => MayForce(s, s.liveFan.(mode := mode))
      case FanStore(i) =>
        StoresBehind(s, i) ==> exists j :: 0 <= j < |s.fanCalls| && j != i && WillStore(s, s.liveFan, s.fanCalls[j])
      case DirectFan(fan) => AlreadyHolds(s, fan) || (TakesFan(s, s.store[Active(s)]) && SomeWillStore(s, fan))
      case _ => true
  }

  ghost predicate AlreadyHolds<R>(s: State<R>, fan: FanSettings) {
    Active(s) in s.store ==> EffectiveFan(s.store[Active(s)]) == fan
  }

  /** `set_fan_mode` or `set_fan_curve`, undisturbed, leaves hardware and store in agreement. */
  ghost predicate MayForce<R>(s: State<R>, fan: FanSettings) {
    AlreadyHolds(s, fan) || (s.store[Active(s)].fanEnabled && Active(s) !in s.builtins)
  }

  /** The call is about to store, into the active profile, settings that are not in force. */
  ghost predicate StoresBehind<R>(s: State<R>, i: nat)
    requires i < |s.fanCalls| && s.fanCalls[i].HasTarget?
  {
    var id := Active(s);
    && s.fanCalls[i].target == id && Persistable(s, id)
    && s.store[id].fanEnabled && s.fanCalls[i].fan != s.liveFan
  }

  // The silent writes one by one; `InSync` at rest without a coming nudge is `Fresh` or `Healing`.

  lemma CreationSyncs<R>(s: State<R>, id: Id, p: StoredProfile<R>)
    requires SyncInv(s) && Enabled(s, CreateProfile(id, p))
    ensures SyncInv(Next(s, CreateProfile(id, p))) <==> Announced(s, CreateProfile(id, p))
  {
    var s' := Next(s, CreateProfile(id, p));
    CallsKept(s, s', s.liveFan);
  }

  /** Whether a call is going to store depends on the calls and the active id alone. */
  lemma CallsKept<R>(s: State<R>, s': State<R>, live: FanSettings)
    requires s'.fanCalls == s.fanCalls && s'.power == s.power && s'.assigns == s.assigns
    ensures SomeWillStore(s', live) <==> SomeWillStore(s, live)
  {
    forall i | 0 <= i < |s.fanCalls|
      ensures WillStore(s', live, s'.fanCalls[i]) <==> WillStore(s, live, s.fanCalls[i])
    {
    }
  }

  lemma FanSendSyncs<R>(s: State<R>, step: Step<R>)
    requires SyncInv(s) && Enabled(s, step) && (step.FanCurveSend? || step.FanModeSend?)
    ensures SyncInv(Next(s, step)) <==> Announced(s, step)
  {
    var s' := Next(s, step);
    var fan := s'.liveFan;
    var n := |s.fanCalls|;
    assert WillStore(s', fan, s'.fanCalls[n]);
    assert SomeWillStore(s', fan);
  }

  lemma DirectSyncs<R>(s: State<R>, fan: FanSettings)
    requires SyncInv(s) && Enabled(s, DirectFan(fan))
    ensures SyncInv(Next(s, DirectFan(fan))) <==> Announced(s, DirectFan(fan))
  {
    CallsKept(s, Next(s, DirectFan(fan)), fan);
  }

  lemma FanStoreSyncs<R>(s: State<R>, i: nat)
    requires SyncInv(s) && Enabled(s, FanStore(i))
    ensures SyncInv(Next(s, FanStore(i))) <==> Announced(s, FanStore(i))
  {
    var s' := Next(s, FanStore(i));
    forall j | 0 <= j < |s.fanCalls| && j != i
      ensures WillStore(s', s.liveFan, s'.fanCalls[j]) <==> WillStore(s, s.liveFan, s.fanCalls[j])
    {
    }
    assert SomeWillStore(s', s.liveFan)
      <==> exists j :: 0 <= j < |s.fanCalls| && j != i && WillStore(s, s.liveFan, s.fanCalls[j]);
  }

  /** Reading on does not change what a call is going to store. */
  lemma FanReadSyncs<R>(s: State<R>, step: Step<R>)
    requires SyncInv(s) && Enabled(s, step) && (step.FanReadConfig? || step.FanReadAssigns? || step.FanReadPower?)
    ensures SyncInv(Next(s, step))
  {
    var s' := Next(s, step);
    forall j | 0 <= j < |s.fanCalls| && WillStore(s, s.liveFan, s.fanCalls[j])
      ensures WillStore(s', s.liveFan, s'.fanCalls[j])
    {
    }
  }

  lemma LoudStepSyncs<R>(s: State<R>, step: Step<R>)
    requires SyncInv(s) && Enabled(s, step) && !step.CreateProfile? && !step.DirectFan?
    requires !step.FanCurveSend? && !step.FanModeSend? && !step.FanReadConfig? && !step.FanReadAssigns?
    requires !step.FanReadPower? && !step.FanStore?
    ensures SyncInv(Next(s, step))
  {
    var s' := Next(s, step);
    StepKeepsAttemptInv(s, step);
    if s'.power == s.power && s'.assigns == s.assigns {
      CallsKept(s, s', s.liveFan);
    }
  }

  /** From every state in sync, a step stays in sync exactly if it is announced. */
  lemma StepKeepsSyncExactly<R>(s: State<R>, step: Step<R>)
    requires SyncInv(s) && Enabled(s, step)
    ensures SyncInv(Next(s, step)) <==> Announced(s, step)
  {
    match step
    case CreateProfile(id, p) => CreationSyncs(s, id, p);
    case DirectFan(fan) => DirectSyncs(s, fan);
    case FanCurveSend(_) => FanSendSyncs(s, step);
    case FanModeSend(_) => FanSendSyncs(s, step);
    case FanReadConfig(_) => FanReadSyncs(s, step);
    case FanReadAssigns(_) => FanReadSyncs(s, step);
    case FanReadPower(_) => FanReadSyncs(s, step);
    case FanStore(i) => FanStoreSyncs(s, i);
    case _ => LoudStepSyncs(s, step);
  }

  ghost predicate AllAnnounced<R>(s: State<R>, steps: seq<Step<R>>)
    requires Runs(s, steps)
    decreases |steps|
  {
    steps != [] ==> Announced(s, steps[0]) && AllAnnounced(Next(s, steps[0]), steps[1..])
  }

  ghost predicate AlwaysInSync<R>(s: State<R>, steps: seq<Step<R>>)
    requires Runs(s, steps)
    decreases |steps|
  {
    SyncInv(s) && (steps != [] ==> AlwaysInSync(Next(s, steps[0]), steps[1..]))
  }

  lemma {:induction false} RunKeepsSyncExactly<R>(s: State<R>, steps: seq<Step<R>>)
    requires SyncInv(s) && Runs(s, steps)
    ensures AlwaysInSync(s, steps) <==> AllAnnounced(s, steps)
    ensures AllAnnounced(s, steps) ==> SyncInv(Final(s, steps))
    decreases |steps|
  {
    if steps != [] {
      StepKeepsSyncExactly(s, steps[0]);
      if Announced(s, steps[0]) {
        RunKeepsSyncExactly(Next(s, steps[0]), steps[1..]);
      }
    }
  }

  // ---- What comes of what is under way -------------------------------------------------

  /** What is left of a fan call. */
  function RestOfCall<R>(i: nat, c: FanCall): seq<Step<R>> {
    match c
    case ModeSent => [FanReadConfig(i), FanReadAssigns(i), FanReadPower(i), FanStore(i)]
    case HasConfig(_) => [FanReadAssigns(i), FanReadPower(i), FanStore(i)]
    case HasAssigns(_, _) => [FanReadPower(i), FanStore(i)]
    case HasTarget(_, _) => [FanStore(i)]
    case Finished => []
  }

  /** Reading on changes neither what a call is going to store nor where. */
  lemma CallReadsOn<R>(s: State<R>, i: nat)
    requires i < |s.fanCalls| && !s.fanCalls[i].HasTarget? && !s.fanCalls[i].Finished?
    ensures var c := s.fanCalls[i];
            var step: Step<R> := RestOfCall(i, c)[0];
            && Enabled(s, step)
            && var c' := Next(s, step).fanCalls[i];
               && !c'.Finished? && RestOfCall<R>(i, c)[1..] == RestOfCall<R>(i, c')
               && Next(s, step) == MoveCall(s, i, c')
               && TargetOf(s, c') == TargetOf(s, c) && FanOf(s.liveFan, c') == FanOf(s.liveFan, c)
  {
  }

  /** The loop is at rest and no call, update or reload is under way. */
  ghost predicate AtRest<R>(s: State<R>) {
    Quiescent(s) && s.update == NoUpdate && !s.reloading && forall i :: 0 <= i < |s.fanCalls| ==> s.fanCalls[i].Finished?
  }

  /** A step of something already under way: the loop, a running update, a reload or a fan call. */
  predicate InFlight<R>(step: Step<R>) {
    || IsLoopStep(step)
    || step.UpdateReadAssigned? || step.UpdateReadPower? || step.UpdateNudge? || step.ReloadNudge?
    || step.FanReadConfig? || step.FanReadAssigns? || step.FanReadPower? || step.FanStore?
  }

  /** What is under way goes on, and nothing new starts. */
  ghost predicate GoesOn<R>(s: State<R>, steps: seq<Step<R>>) {
    Runs(s, steps) && forall i :: 0 <= i < |steps| ==> InFlight(steps[i])
  }

  /** The loop rests, and nothing under way is going to change that or to bring hardware and store together. */
  ghost predicate Behind<R>(s: State<R>) {
    Quiescent(s) && !InSync(s)
  }

  lemma FanStoreStaysBehind<R>(s: State<R>, i: nat)
    requires Behind(s) && Enabled(s, FanStore(i))
    ensures Behind(Next(s, FanStore(i)))
  {
    var s' := Next(s, FanStore(i));
    forall j | 0 <= j < |s'.fanCalls| && WillStore(s', s.liveFan, s'.fanCalls[j])
      ensures WillStore(s, s.liveFan, s.fanCalls[j])
    {
    }
    assert WillStore(s, s.liveFan, s.fanCalls[i]) <==> (s.fanCalls[i].fan == s.liveFan && s.fanCalls[i].target == Active(s));
  }

  lemma FanReadStaysBehind<R>(s: State<R>, step: Step<R>)
    requires Behind(s) && Enabled(s, step) && (step.FanReadConfig? || step.FanReadAssigns? || step.FanReadPower?)
    ensures Behind(Next(s, step))
  {
    var s' := Next(s, step);
    forall j | 0 <= j < |s'.fanCalls| && WillStore(s', s.liveFan, s'.fanCalls[j])
      ensures WillStore(s, s.liveFan, s.fanCalls[j])
    {
    }
  }

  lemma StaysBehind<R>(s: State<R>, step: Step<R>)
    requires Behind(s) && Enabled(s, step) && InFlight(step)
    ensures Behind(Next(s, step))
  {
    if step.FanStore? {
      FanStoreStaysBehind(s, step.call);
    } else if step.FanReadConfig? || step.FanReadAssigns? || step.FanReadPower? {
      FanReadStaysBehind(s, step);
    } else {
      CallsKept(s, Next(s, step), s.liveFan);
    }
  }

  lemma {:induction false} RunStaysBehind<R>(s: State<R>, steps: seq<Step<R>>)
    requires Behind(s) && GoesOn(s, steps)
    ensures Behind(Final(s, steps))
    decreases |steps|
  {
    if steps != [] {
      StaysBehind(s, steps[0]);
      RunStaysBehind(Next(s, steps[0]), steps[1..]);
    }
  }

  lemma {:induction false} GoesOnStep<R>(s: State<R>, step: Step<R>, rest: seq<Step<R>>)
    requires Enabled(s, step) && InFlight(step) && GoesOn(Next(s, step), rest)
    ensures GoesOn(s, [step] + rest) && Final(s, [step] + rest) == Final(Next(s, step), rest)
  {
    RunsStep(s, step, rest);
  }

  /** A running update that is not going to nudge can end at once. */
  lemma {:induction false} QuietUpdateEnds<R>(s: State<R>) returns (steps: seq<Step<R>>)
    requires !NudgeComing(s)
    ensures GoesOn(s, steps) && Final(s, steps).update == NoUpdate
    decreases match s.update case NoUpdate => 0 case HasBoth(_, _) => 1 case HasAssignments(_, _) => 2 case Updated(_) => 3
  {
    if s.update == NoUpdate {
      steps := [];
    } else {
      var step: Step<R> := match s.update
        case Updated(_) => UpdateReadAssigned
        case HasAssignments(_, _) => UpdateReadPower
        case _ => UpdateNudge;
      var rest := QuietUpdateEnds(Next(s, step));
      GoesOnStep(s, step, rest);
      steps := [step] + rest;
    }
  }

  /** The calls from `n` on finish one after the other. */
  lemma {:induction false} CallsFinish<R>(s: State<R>, n: nat) returns (steps: seq<Step<R>>)
    requires s.update == NoUpdate && n <= |s.fanCalls| && forall i :: 0 <= i < n ==> s.fanCalls[i].Finished?
    ensures GoesOn(s, steps)
    ensures var end := Final(s, steps);
            end.update == NoUpdate && forall i :: 0 <= i < |end.fanCalls| ==> end.fanCalls[i].Finished?
    decreases |s.fanCalls| - n, if n < |s.fanCalls| then |RestOfCall<R>(n, s.fanCalls[n])| else 0
  {
    if n == |s.fanCalls| {
      steps := [];
    } else if s.fanCalls[n].Finished? {
      steps := CallsFinish(s, n + 1);
    } else {
      var step: Step<R> := RestOfCall(n, s.fanCalls[n])[0];
      if !s.fanCalls[n].HasTarget? {
        CallReadsOn(s, n);
      }
      var rest := CallsFinish(Next(s, step), n);
      GoesOnStep(s, step, rest);
      steps := [step] + rest;
    }
  }

  lemma {:induction false} GoesOnFurther<R>(s: State<R>, a: seq<Step<R>>, b: seq<Step<R>>)
    requires GoesOn(s, a) && GoesOn(Final(s, a), b)
    ensures GoesOn(s, a + b) && Final(s, a + b) == Final(Final(s, a), b)
    decreases |a|
  {
    if a == [] {
      assert a + b == b;
    } else {
      GoesOnFurther(Next(s, a[0]), a[1..], b);
      GoesOnStep(s, a[0], a[1..] + b);
      assert a + b == [a[0]] + (a[1..] + b);
    }
  }

  /** Everything under way can come to rest, and however it does the hardware is behind the store. */
  ghost predicate SettlesBehind<R(!new)>(s: State<R>) {
    && (exists steps :: GoesOn(s, steps) && AtRest(Final(s, steps)))
    && (forall steps :: GoesOn(s, steps) && AtRest(Final(s, steps)) ==> !Fresh(Final(s, steps)))
  }

  lemma BehindSettles<R(!new)>(s: State<R>) returns (steps: seq<Step<R>>)
    requires Behind(s)
    ensures GoesOn(s, steps) && AtRest(Final(s, steps)) && !Fresh(Final(s, steps))
    ensures SettlesBehind(s)
  {
    var first := QuietUpdateEnds(s);
    var second := CallsFinish(Final(s, first), 0);
    GoesOnFurther(s, first, second);
    steps := first + second;
    forall steps | GoesOn(s, steps) ensures Behind(Final(s, steps)) {
      RunStaysBehind(s, steps);
    }
  }

  /** An unannounced step leaves the hardware behind: whatever is under way then finishes so. */
  lemma UnannouncedLeavesBehind<R(!new)>(s: State<R>, step: Step<R>)
    requires SyncInv(s) && Enabled(s, step) && !Announced(s, step)
    ensures SettlesBehind(Next(s, step))
  {
    StepKeepsSyncExactly(s, step);
    StepKeepsAttemptInv(s, step);
    var _ := BehindSettles(Next(s, step));
  }

  /** However what is under way finishes, at rest hardware and store agree. */
  ghost predicate SettlesFresh<R(!new)>(s: State<R>) {
    forall steps :: GoesOn(s, steps) && AtRest(Final(s, steps)) ==> Fresh(Final(s, steps))
  }

  ghost predicate SettlesAnnounced<R(!new)>(s: State<R>) {
    forall steps :: GoesOn(s, steps) ==> AllAnnounced(s, steps)
  }

  lemma {:induction false} UnannouncedEndsBehind<R(!new)>(s: State<R>, steps: seq<Step<R>>) returns (end: seq<Step<R>>)
    requires SyncInv(s) && GoesOn(s, steps) && !AllAnnounced(s, steps)
    ensures GoesOn(s, end) && AtRest(Final(s, end)) && !Fresh(Final(s, end))
    decreases |steps|
  {
    var rest: seq<Step<R>>;
    StepKeepsSyncExactly(s, steps[0]);
    if Announced(s, steps[0]) {
      rest := UnannouncedEndsBehind(Next(s, steps[0]), steps[1..]);
    } else {
      StepKeepsAttemptInv(s, steps[0]);
      rest := BehindSettles(Next(s, steps[0]));
    }
    GoesOnStep(s, steps[0], rest);
    end := [steps[0]] + rest;
  }

  lemma SettlesFreshExactly<R(!new)>(s: State<R>)
    requires SyncInv(s)
    ensures SettlesFresh(s) <==> SettlesAnnounced(s)
  {
    forall steps | GoesOn(s, steps) && !AllAnnounced(s, steps) ensures !SettlesFresh(s) {
      var _ := UnannouncedEndsBehind(s, steps);
    }
    forall steps | GoesOn(s, steps) && AllAnnounced(s, steps) && AtRest(Final(s, steps)) ensures Fresh(Final(s, steps)) {
      RunKeepsSyncExactly(s, steps);
    }
  }

  /** At every moment of a run, whatever is under way settles in agreement, and through announced steps. */
  ghost predicate AlwaysSettlesFresh<R(!new)>(s: State<R>, steps: seq<Step<R>>)
    requires Runs(s, steps)
    decreases |steps|
  {
    SettlesFresh(s) && (steps != [] ==> AlwaysSettlesFresh(Next(s, steps[0]), steps[1..]))
  }

  ghost predicate AlwaysAnnounced<R(!new)>(s: State<R>, steps: seq<Step<R>>)
    requires Runs(s, steps)
    decreases |steps|
  {
    && SettlesAnnounced(s)
    && (steps != [] ==> Announced(s, steps[0]) && AlwaysAnnounced(Next(s, steps[0]), steps[1..]))
  }

  lemma {:induction false} RunSettlesFreshExactly<R(!new)>(s: State<R>, steps: seq<Step<R>>)
    requires SyncInv(s) && Runs(s, steps)
    ensures AlwaysSettlesFresh(s, steps) <==> AlwaysAnnounced(s, steps)
    decreases |steps|
  {
    SettlesFreshExactly(s);
    if steps != [] {
      StepKeepsSyncExactly(s, steps[0]);
      if Announced(s, steps[0]) {
        RunSettlesFreshExactly(Next(s, steps[0]), steps[1..]);
      } else {
        UnannouncedLeavesBehind(s, steps[0]);
      }
    }
  }

  /** From start-up on: in a run of announced steps, whenever everything is at rest, the engine and the
      applier have what is stored under the active id, however updates, fan calls, power changes and
      reassignments raced with the loop. The first unannounced step lets everything under way finish
      into a rest with the hardware behind, and in no other. So hardware and store agree at every rest
      that the run, or what is under way at any of its moments, can come to, exactly if every step on
      the way there is announced. */
  lemma {:induction false} QuiescentContentIsFresh<R(!new)>(boot: Boot<R>, steps: seq<Step<R>>)
    requires Runs(Start(boot), steps)
    ensures var s := Final(Start(boot), steps);
            AllAnnounced(Start(boot), steps) ==>
              && (AtRest(s) ==>
                    var id := if s.power.value == Ac then s.assigns.value.ac else s.assigns.value.battery;
                    id in s.store ==> InForce(s, s.store[id]))
              && (forall step :: Enabled(s, step) && !Announced(s, step) ==> SettlesBehind(Next(s, step)))
    ensures AlwaysSettlesFresh(Start(boot), steps) <==> AlwaysAnnounced(Start(boot), steps)
  {
    var s := Final(Start(boot), steps);
    RunKeepsSyncExactly(Start(boot), steps);
    RunSettlesFreshExactly(Start(boot), steps);
    if AllAnnounced(Start(boot), steps) {
      forall step | Enabled(s, step) && !Announced(s, step) ensures SettlesBehind(Next(s, step)) {
        UnannouncedLeavesBehind(s, step);
      }
    }
  }

  // ---- Each silent write from rest -------------------------------------------------------

  /** From rest, a creation leaves the hardware behind the store exactly when it is under the active
      id and does not happen to bring what is in force. */
  lemma CreationLeavesBehindExactly<R>(s: State<R>, id: Id, p: StoredProfile<R>)
    requires AtRest(s) && Fresh(s) && Enabled(s, CreateProfile(id, p))
    ensures var s' := Next(s, CreateProfile(id, p));
            AtRest(s') && (!Fresh(s') <==> id == Active(s) && (EffectiveFan(p) != s.liveFan || Some(p.rest) != s.appliedRest))
  {
  }

  /** With the loop at rest, the store write of a fan call leaves the hardware behind exactly when it
      lands in the active profile, which has its fan section enabled, and is not what is in force. */
  lemma FanStoreLeavesBehindExactly<R>(s: State<R>, i: nat)
    requires Quiescent(s) && Fresh(s) && Enabled(s, FanStore(i))
    ensures var s' := Next(s, FanStore(i));
            Quiescent(s') && (!Fresh(s') <==> StoresBehind(s, i))
  {
  }

  /** A call left alone stores the fan config it has, or reads, into the profile it has, or reads. */
  lemma {:induction false} RestOfCallStores<R>(s: State<R>, i: nat)
    requires s.update == NoUpdate && i < |s.fanCalls| && !s.fanCalls[i].Finished?
    ensures var c := s.fanCalls[i];
            && Runs(s, RestOfCall(i, c))
            && Final(s, RestOfCall(i, c))
               == MoveCall(s, i, Finished).(store := WithFanSettings(s, TargetOf(s, c), FanOf(s.liveFan, c)))
    decreases |RestOfCall<R>(i, s.fanCalls[i])|
  {
    var rest: seq<Step<R>> := RestOfCall(i, s.fanCalls[i]);
    if !s.fanCalls[i].HasTarget? {
      CallReadsOn(s, i);
      RestOfCallStores(Next(s, rest[0]), i);
      assert s.fanCalls[i := Finished] == Next(s, rest[0]).fanCalls[i := Finished];
    }
  }

  /** From rest, a whole call of `set_fan_mode` or `set_fan_curve` that nothing disturbs leaves
      hardware and store in agreement exactly if the active profile is missing, holds the settings
      already, or is a custom profile with its fan section enabled. */
  lemma UndisturbedFanCallExactly<R>(s: State<R>, send: Step<R>)
    requires AtRest(s) && Fresh(s) && (send.FanCurveSend? || send.FanModeSend?)
    ensures var n := |s.fanCalls|;
            var s1 := Next(s, send);
            var rest := RestOfCall(n, s1.fanCalls[n]);
            && Runs(s1, rest) && AtRest(Final(s1, rest))
            && (Fresh(Final(s1, rest)) <==> MayForce(s, s1.liveFan))
  {
    RestOfCallStores(Next(s, send), |s.fanCalls|);
  }

  /** Reachable: start on an assignment to a missing profile, then create it. */
  lemma UnannouncedCreationExample()
    ensures var fan := FanSettings(FanCurve.Auto, 25, []);
            var s := Start(Boot(Ac, Assignments("work", "quiet"), fan, map["quiet" := StoredProfile(true, fan, 1)], {}));
            var create := CreateProfile("work", StoredProfile(true, fan, 2));
            AtRest(s) && Fresh(s) && Enabled(s, create) && AtRest(Next(s, create)) && !Fresh(Next(s, create))
  {
  }

  /** Three steps at the head of a run. */
  lemma {:induction false} RunsThree<R>(s: State<R>, a: Step<R>, b: Step<R>, c: Step<R>, rest: seq<Step<R>>)
    requires Enabled(s, a) && Enabled(Next(s, a), b) && Enabled(Next(Next(s, a), b), c)
    ensures var s3 := Next(Next(Next(s, a), b), c);
            && (Runs(s, [a, b, c] + rest) <==> Runs(s3, rest))
            && (Runs(s3, rest) ==> Final(s, [a, b, c] + rest) == Final(s3, rest))
  {
    assert [a, b, c] + rest == [a] + ([b] + ([c] + rest));
    RunsStep(s, a, [b] + ([c] + rest));
    RunsStep(Next(s, a), b, [c] + rest);
    RunsStep(Next(Next(s, a), b), c, rest);
  }

  function RacingBoot(work: FanSettings, quiet: FanSettings): Boot<int> {
    Boot(Ac, Assignments("work", "quiet"), work,
         map["work" := StoredProfile(true, work, 1), "quiet" := StoredProfile(true, quiet, 2)], {})
  }

  /** The loop applies the other profile under a fan call's feet. */
  lemma {:induction false} UnpluggedDuringCall(work: FanSettings, quiet: FanSettings, fan: FanSettings, rest: seq<Step<int>>)
    ensures var boot := RacingBoot(work, quiet);
            var s := Start(boot);
            var applied := State(Channel(Battery, 1, 1), Channel(boot.assigns, 0, 0), Waiting, "quiet", quiet, Some(2),
                                 boot.store, {}, NoUpdate, false, [HasConfig(fan)]);
            var steps := [FanCurveSend(fan), PowerChange(Battery), Wake(PowerChannel)] + ([ReadPower, ResolveId, Apply] + rest);
            Runs(applied, rest) ==> Runs(s, steps) && Final(s, steps) == Final(applied, rest)
  {
    var s := Start(RacingBoot(work, quiet));
    var woken := Next(Next(Next(s, FanCurveSend(fan)), PowerChange(Battery)), Wake(PowerChannel));
    assert Next(Next(Next(woken, ReadPower), ResolveId), Apply)
        == State(Channel(Battery, 1, 1), Channel(Assignments("work", "quiet"), 0, 0), Waiting, "quiet", quiet, Some(2),
                 RacingBoot(work, quiet).store, {}, NoUpdate, false, [HasConfig(fan)]);
    RunsThree(woken, ReadPower, ResolveId, Apply, rest);
    RunsThree(s, FanCurveSend(fan), PowerChange(Battery), Wake(PowerChannel), [ReadPower, ResolveId, Apply] + rest);
  }

  /** Reachable without any creation: a curve is set on mains power, the power is unplugged and the
      loop applies the other profile, and only then does the call look up where to store its curve. */
  lemma RacingFanCallExample(work: FanSettings, quiet: FanSettings, fan: FanSettings)
    requires fan != quiet
    ensures var s := Start(RacingBoot(work, quiet));
            var steps := [FanCurveSend(fan), PowerChange(Battery), Wake(PowerChannel)]
                         + ([ReadPower, ResolveId, Apply] + RestOfCall(0, HasConfig(fan)));
            && AtRest(s) && Fresh(s) && Runs(s, steps)
            && AtRest(Final(s, steps)) && !Fresh(Final(s, steps))
  {
    var boot := RacingBoot(work, quiet);
    var applied := State(Channel(Battery, 1, 1), Channel(boot.assigns, 0, 0), Waiting, "quiet", quiet, Some(2),
                         boot.store, {}, NoUpdate, false, [HasConfig(fan)]);
    RestOfCallStores(applied, 0);
    UnpluggedDuringCall(work, quiet, fan, RestOfCall(0, HasConfig(fan)));
  }
}
