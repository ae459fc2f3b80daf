/** What one round of the fan engine's loop does, as a function of the state it
    starts from and of everything the outside world decides in that round
    (tux-daemon/src/fan_engine.rs). `FanEngine` refines these functions. */
module FanEngineSpec {
  import opened Prelude
  import opened FanCurve

  const SAFETY_FAILURE_THRESHOLD := 5
  const SUSPEND_FAILURE_THRESHOLD := 5
  const SAFETY_FAILURE_PERCENT: u8 := 60
  const IMPLAUSIBLE_TEMP: u8 := 110
  const IMPLAUSIBLE_THRESHOLD := 5
  const IMPLAUSIBLE_LOAD_MIN := 30.0

  // ---- Hardware --------------------------------------------------------

  /** A backend as the engine sees it: how many fans, and whether setpoints need re-applying. */
  datatype Hardware = Hardware(numFans: u8, reapply: bool)

  /** One attempt on the backend and whether it succeeded. */
  datatype Command = WritePwm(fan: u8, pwm: u8, ok: bool) | SetAuto(fan: u8, ok: bool)

  datatype Fan = Fan(pwm: u8, auto: bool)

  /** Whether the outside world lets the attempt on fan `i` succeed. */
  predicate Succeeds(hw: Hardware, oks: seq<bool>, i: nat) {
    i < hw.numFans && i < |oks| && oks[i]
  }

  /** A failed attempt leaves the fan as it was; `set_auto` also clears the duty. */
  function Apply(fans: seq<Fan>, c: Command): (r: seq<Fan>)
    ensures |r| == |fans|
  {
    if !c.ok || c.fan >= |fans| then fans
    else match c
      case WritePwm(f, pwm, _) => fans[f := Fan(pwm, false)]
      case SetAuto(f, _) => fans[f := Fan(0, true)]
  }

  /** A new backend: every fan in automatic mode. */
  function NewFans(n: nat): (r: seq<Fan>)
    ensures |r| == n && forall i :: 0 <= i < n ==> r[i] == Fan(0, true)
  {
    seq(n, _ => Fan(0, true))
  }

  function Replay(fans: seq<Fan>, commands: seq<Command>): (r: seq<Fan>)
    ensures |r| == |fans|
  {
    if commands == [] then fans
    else Apply(Replay(fans, commands[..|commands| - 1]), commands[|commands| - 1])
  }

  /** `set_all_pwm` up to fan `k`. */
  function PwmToAll(hw: Hardware, pwm: u8, oks: seq<bool>, k: nat): (r: seq<Command>)
    requires k <= hw.numFans
    ensures |r| == k
    ensures forall i :: 0 <= i < k ==> r[i] == WritePwm(i, pwm, Succeeds(hw, oks, i))
  {
    if k == 0 then [] else PwmToAll(hw, pwm, oks, k - 1) + [WritePwm(k - 1, pwm, Succeeds(hw, oks, k - 1))]
  }

  /** `set_all_auto` up to fan `k`. */
  function AutoToAll(hw: Hardware, oks: seq<bool>, k: nat): (r: seq<Command>)
    requires k <= hw.numFans
    ensures |r| == k
    ensures forall i :: 0 <= i < k ==> r[i] == SetAuto(i, Succeeds(hw, oks, i))
  {
    if k == 0 then [] else AutoToAll(hw, oks, k - 1) + [SetAuto(k - 1, Succeeds(hw, oks, k - 1))]
  }

  /** Manual mode on a re-applying backend: entry `i` goes to fan `i as u8`. */
  function ManualWrites(hw: Hardware, pwms: seq<u8>, oks: seq<bool>, k: nat): seq<Command>
    requires k <= |pwms|
  {
    if k == 0 then []
    else ManualWrites(hw, pwms, oks, k - 1) + [WritePwm((k - 1) % 256, pwms[k - 1], Succeeds(hw, oks, (k - 1) % 256))]
  }

  /** How many of the first `k` writes fail. */
  function WriteErrors(hw: Hardware, oks: seq<bool>, k: nat): (r: nat)
    ensures r == 0 <==> forall i :: 0 <= i < k ==> Succeeds(hw, oks, i)
  {
    if k == 0 then 0 else WriteErrors(hw, oks, k - 1) + if Succeeds(hw, oks, k - 1) then 0 else 1
  }

  // ---- State and inputs -------------------------------------------------

  /** The engine's locals, its shared read-failure counter, and whether `run` has not returned. */
  datatype State = State(lastTemp: Option<u8>, lastPwm: Option<u8>, implausible: nat, writeFailures: nat,
                         mode: FanMode, lastConfig: Option<FanConfig>, suspended: bool,
                         readFailures: nat, running: bool)

  const INITIAL := State(None, None, 0, 0, Auto, None, false, 0, true)

  /** How the wait at the end of a round ends. */
  datatype Wake = Slept | Changed | Shutdown

  /** Everything the outside world decides in one round. */
  datatype Round = Round(config: FanConfig, manualPwms: seq<u8>, temp: Option<u8>, load: Option<real>,
                         writeOk: seq<bool>, autoOk: seq<bool>, stopOk: seq<bool>, wake: Wake)

  // ---- Taking over a config ---------------------------------------------

  /** A config value that differs from the last one resets everything but the read-failure
      counter; a mode that differs from the current one has its own resets. */
  function Adopt(st: State, config: FanConfig): State {
    var s := if st.lastConfig == Some(config) then st
             else st.(lastTemp := None, lastPwm := None, implausible := 0, writeFailures := 0,
                      suspended := false, lastConfig := Some(config));
    if config.mode == s.mode then s
    else match config.mode
      case Auto => s.(mode := Auto)
      case Manual => s.(mode := Manual, writeFailures := 0)
      case CustomCurve => s.(mode := CustomCurve, lastTemp := None, lastPwm := None, implausible := 0,
                             writeFailures := 0, suspended := false)
  }

  function AdoptCommands(hw: Hardware, st: State, r: Round): seq<Command> {
    if r.config.mode != st.mode && r.config.mode == Auto then AutoToAll(hw, r.autoOk, hw.numFans) else []
  }

  // ---- One CustomCurve tick ----------------------------------------------

  /** What a tick did with the sensor, and how many of its write-stage writes failed, if it got there. */
  datatype TickResult = TickResult(state: State, commands: seq<Command>, pollMs: nat, writeStage: Option<nat>)

  function ReadFailed(hw: Hardware, st: State, r: Round): TickResult {
    var n := st.readFailures + 1;
    var s := st.(readFailures := n);
    if hw.reapply && n >= SUSPEND_FAILURE_THRESHOLD then
      TickResult(s.(suspended := true), AutoToAll(hw, r.autoOk, hw.numFans), r.config.idlePollMs, None)
    else if n < SAFETY_FAILURE_THRESHOLD && s.lastPwm.Some? then
      TickResult(s, PwmToAll(hw, s.lastPwm.value, r.writeOk, hw.numFans), r.config.activePollMs, None)
    else
      TickResult(s, PwmToAll(hw, PercentToPwm(SAFETY_FAILURE_PERCENT), r.writeOk, hw.numFans),
                 r.config.activePollMs, None)
  }

  /** The load used by the plausibility policy; an unreadable load counts as full. */
  function EffectiveLoad(load: Option<real>): real {
    if load.Some? then load.value else 100.0
  }

  function CountImplausible(st: State, t: u8): State {
    st.(readFailures := 0, implausible := if t >= IMPLAUSIBLE_TEMP then st.implausible + 1 else 0)
  }

  /** Whether an implausible reading is held back, with the counter already bumped. */
  predicate HoldsBack(s: State, t: u8, load: Option<real>) {
    && t >= IMPLAUSIBLE_TEMP
    && s.lastPwm.Some?
    && (EffectiveLoad(load) < IMPLAUSIBLE_LOAD_MIN || s.implausible < IMPLAUSIBLE_THRESHOLD)
  }

  function Distance(a: int, b: int): nat {
    if a >= b then a - b else b - a
  }

  /** Hysteresis: keep the setpoint unless the reading moved far enough. */
  function Settle(s: State, config: FanConfig, t: u8): State {
    if s.lastTemp.Some? && Distance(t, s.lastTemp.value) < config.hysteresis then
      s.(lastPwm := if s.lastPwm.Some? then s.lastPwm else Some(CurvePwm(config, t)))
    else
      s.(lastTemp := Some(t), lastPwm := Some(CurvePwm(config, t)))
  }

  predicate Keeps(s: State, config: FanConfig, t: u8) {
    s.lastTemp.Some? && Distance(t, s.lastTemp.value) < config.hysteresis
  }

  function WriteStage(hw: Hardware, s: State, r: Round, t: u8): TickResult {
    var s1 := Settle(s, r.config, t);
    var writes := PwmToAll(hw, s1.lastPwm.value, r.writeOk, hw.numFans);
    var errors := WriteErrors(hw, r.writeOk, hw.numFans);
    var s2 := s1.(writeFailures := if errors == 0 then 0 else s1.writeFailures + 1);
    if errors > 0 && hw.reapply && s2.writeFailures >= SUSPEND_FAILURE_THRESHOLD then
      TickResult(s2.(suspended := true), writes + AutoToAll(hw, r.autoOk, hw.numFans), r.config.idlePollMs, Some(errors))
    else
      TickResult(s2, writes, if Keeps(s, r.config, t) then r.config.idlePollMs else r.config.activePollMs, Some(errors))
  }

  function Tick(hw: Hardware, st: State, r: Round): TickResult {
    if r.temp == None then ReadFailed(hw, st, r)
    else
      var t := r.temp.value;
      var s := CountImplausible(st, t);
      if HoldsBack(s, t, r.load) then
        TickResult(s, PwmToAll(hw, s.lastPwm.value, r.writeOk, hw.numFans), r.config.activePollMs, None)
      else WriteStage(hw, s, r, t)
  }

  // ---- One round ---------------------------------------------------------

  /** Whether a round gets as far as a CustomCurve tick. */
  predicate Ticks(st: State, r: Round) {
    r.config.mode == CustomCurve && !Adopt(st, r.config).suspended
  }

  function AfterMode(hw: Hardware, st: State, r: Round): State {
    if Ticks(st, r) then Tick(hw, Adopt(st, r.config), r).state else Adopt(st, r.config)
  }

  function ModeCommands(hw: Hardware, st: State, r: Round): seq<Command> {
    if r.config.mode == Manual && hw.reapply then ManualWrites(hw, r.manualPwms, r.writeOk, |r.manualPwms|)
    else if Ticks(st, r) then Tick(hw, Adopt(st, r.config), r).commands
    else []
  }

  function Waken(s: State, wake: Wake): State {
    match wake
    case Slept => s
    case Changed => s.(lastTemp := None, lastPwm := None, implausible := 0)
    case Shutdown => s.(running := false)
  }

  function Step(hw: Hardware, st: State, r: Round): State {
    Waken(AfterMode(hw, st, r), r.wake)
  }

  function StepCommands(hw: Hardware, st: State, r: Round): seq<Command> {
    AdoptCommands(hw, st, r) + ModeCommands(hw, st, r)
    + if r.wake == Shutdown then AutoToAll(hw, r.stopOk, hw.numFans) else []
  }

  // ---- Runs --------------------------------------------------------------

  /** The state after any number of rounds; nothing happens after a shutdown. */
  function After(hw: Hardware, rounds: seq<Round>): State {
    if rounds == [] then INITIAL
    else
      var s := After(hw, rounds[..|rounds| - 1]);
      if s.running then Step(hw, s, rounds[|rounds| - 1]) else s
  }

  function Issued(hw: Hardware, rounds: seq<Round>): seq<Command> {
    if rounds == [] then []
    else
      var before := rounds[..|rounds| - 1];
      var s := After(hw, before);
      Issued(hw, before) + if s.running then StepCommands(hw, s, rounds[|rounds| - 1]) else []
  }
}
