/** The fan engine in the form the daemon runs it: a loop over rounds that updates its
    locals in place and drives a backend fan by fan (tux-daemon/src/fan_engine.rs,
    with the in-memory backend of tux-core/src/mock/fan.rs). */
module FanEngine {
  import opened Prelude
  import opened FanCurve
  import opened FanEngineSpec

  /** Per-fan duty and automatic-mode arrays; every attempt on them is recorded. */
  class FanBackend {
    const numFans: u8
    const reapply: bool
    const pwm: array<u8>
    const auto: array<bool>
    ghost var issued: seq<Command>

    ghost function Hw(): Hardware { Hardware(numFans, reapply) }

    ghost function Fans(): (r: seq<Fan>)
      requires pwm.Length == auto.Length == numFans
      reads pwm, auto
      ensures |r| == numFans
    {
      seq(numFans, i requires 0 <= i < numFans reads pwm, auto => Fan(pwm[i], auto[i]))
    }

    ghost predicate Valid()
      reads this, pwm, auto
    {
      && pwm.Length == auto.Length == numFans
      && Fans() == Replay(NewFans(numFans), issued)
    }

    constructor (numFans: u8, reapply: bool)
      ensures Valid() && issued == [] && fresh(pwm) && fresh(auto)
      ensures Hw() == Hardware(numFans, reapply)
    {
      this.numFans, this.reapply := numFans, reapply;
      pwm := new u8[numFans](_ => 0);
      auto := new bool[numFans](_ => true);
      issued := [];
    }

    method WritePwm(fan: u8, value: u8, ok: bool) returns (written: bool)
      requires Valid()
      modifies this, pwm, auto
      ensures Valid() && issued == old(issued) + [Command.WritePwm(fan, value, written)]
      ensures written == (fan < numFans && ok)
    {
      written := fan < numFans && ok;
      if written {
        pwm[fan] := value;
        auto[fan] := false;
      }
      Record(Command.WritePwm(fan, value, written));
    }

    method SetAuto(fan: u8, ok: bool) returns (done: bool)
      requires Valid()
      modifies this, pwm, auto
      ensures Valid() && issued == old(issued) + [Command.SetAuto(fan, done)]
      ensures done == (fan < numFans && ok)
    {
      done := fan < numFans && ok;
      if done {
        auto[fan] := true;
        pwm[fan] := 0;
      }
      Record(Command.SetAuto(fan, done));
    }

    /** Appends the attempt whose effect the arrays already show. */
    ghost method Record(c: Command)
      requires pwm.Length == auto.Length == numFans
      requires Fans() == Apply(Replay(NewFans(numFans), issued), c)
      modifies this`issued
      ensures Valid() && issued == old(issued) + [c]
    {
      var was := issued;
      issued := issued + [c];
      assert issued[..|issued| - 1] == was;
    }
  }

  /** One more round of a running engine, in the terms the loop of `Run` uses. */
  lemma ExtendRun(hw: Hardware, rounds: seq<Round>, i: nat, start: seq<Command>)
    requires i < |rounds| && After(hw, rounds[..i]).running
    ensures var st := After(hw, rounds[..i]);
            && After(hw, rounds[..i + 1]) == Step(hw, st, rounds[i])
            && start + Issued(hw, rounds[..i + 1]) == start + Issued(hw, rounds[..i]) + StepCommands(hw, st, rounds[i])
  {
    assert rounds[..i + 1][..i] == rounds[..i];
  }

  /** Rounds after a shutdown neither change the state nor reach the backend. */
  lemma {:induction false} StoppedStaysStopped(hw: Hardware, rounds: seq<Round>, k: nat)
    requires k <= |rounds| && !After(hw, rounds[..k]).running
    ensures After(hw, rounds) == After(hw, rounds[..k]) && Issued(hw, rounds) == Issued(hw, rounds[..k])
    decreases |rounds| - k
  {
    if k == |rounds| {
      assert rounds[..k] == rounds;
    } else {
      assert rounds[..k + 1][..k] == rounds[..k];
      StoppedStaysStopped(hw, rounds, k + 1);
    }
  }

  /** The engine. The locals of `run`, which `tick_custom_curve` receives by mutable reference,
      are fields here, beside the shared read-failure counter. */
  class FanCurveEngine {
    const backend: FanBackend
    var lastTemp: Option<u8>
    var lastPwm: Option<u8>
    var implausible: nat
    var writeFailures: nat
    var currentMode: FanMode
    var lastConfig: Option<FanConfig>
    var suspended: bool
    var consecutiveFailures: nat

    ghost predicate Valid()
      reads this, backend, backend.pwm, backend.auto
    {
      backend.Valid()
    }

    /** The engine's fields as a value of the specification. */
    ghost function Now(): State
      reads this
    {
      State(lastTemp, lastPwm, implausible, writeFailures, currentMode, lastConfig, suspended, consecutiveFailures, true)
    }

    ghost function Hw(): Hardware { backend.Hw() }

    constructor (backend: FanBackend)
      requires backend.Valid()
      ensures this.backend == backend && Now() == INITIAL && Valid()
    {
      this.backend := backend;
      lastTemp, lastPwm, implausible, writeFailures := None, None, 0, 0;
      currentMode, lastConfig, suspended, consecutiveFailures := Auto, None, false, 0;
    }

    method SetAllAuto(oks: seq<bool>)
      requires Valid()
      modifies backend, backend.pwm, backend.auto
      ensures Valid()
      ensures backend.issued == old(backend.issued) + AutoToAll(Hw(), oks, backend.numFans)
    {
      for i := 0 to backend.numFans
        invariant Valid()
        invariant backend.issued == old(backend.issued) + AutoToAll(Hw(), oks, i)
      {
        var _ := backend.SetAuto(i, i < |oks| && oks[i]);
      }
    }

    /** Returns how many of the writes failed. */
    method SetAllPwm(pwm: u8, oks: seq<bool>) returns (errors: nat)
      requires Valid()
      modifies backend, backend.pwm, backend.auto
      ensures Valid()
      ensures backend.issued == old(backend.issued) + PwmToAll(Hw(), pwm, oks, backend.numFans)
      ensures errors == WriteErrors(Hw(), oks, backend.numFans)
    {
      errors := 0;
      for i := 0 to backend.numFans
        invariant Valid()
        invariant backend.issued == old(backend.issued) + PwmToAll(Hw(), pwm, oks, i)
        invariant errors == WriteErrors(Hw(), oks, i)
      {
        var ok := backend.WritePwm(i, pwm, i < |oks| && oks[i]);
        if !ok { errors := errors + 1; }
      }
    }

    method ReapplyManual(pwms: seq<u8>, oks: seq<bool>)
      requires Valid()
      modifies backend, backend.pwm, backend.auto
      ensures Valid()
      ensures backend.issued == old(backend.issued) + ManualWrites(Hw(), pwms, oks, |pwms|)
    {
      for i := 0 to |pwms|
        invariant Valid()
        invariant backend.issued == old(backend.issued) + ManualWrites(Hw(), pwms, oks, i)
      {
        var _ := backend.WritePwm(i % 256, pwms[i], i % 256 < |oks| && oks[i % 256]);
      }
    }

    method OnReadFailure(r: Round) returns (pollMs: nat)
      requires Valid()
      modifies this, backend, backend.pwm, backend.auto
      ensures Valid()
      ensures var t := ReadFailed(Hw(), old(Now()), r);
              Now() == t.state && pollMs == t.pollMs && backend.issued == old(backend.issued) + t.commands
    {
      consecutiveFailures := consecutiveFailures + 1;
      var n := consecutiveFailures;
      if backend.reapply && n >= SUSPEND_FAILURE_THRESHOLD {
        SetAllAuto(r.autoOk);
        suspended := true;
        return r.config.idlePollMs;
      }
      var errors;
      if n < SAFETY_FAILURE_THRESHOLD && lastPwm.Some? {
        errors := SetAllPwm(lastPwm.value, r.writeOk);
      } else {
        errors := SetAllPwm(PercentToPwm(SAFETY_FAILURE_PERCENT), r.writeOk);
      }
      return r.config.activePollMs;
    }

    /** Hysteresis: recompute the setpoint only when the temperature moved enough. */
    method SettleSetpoint(config: FanConfig, temp: u8) returns (pwm: u8, pollMs: nat)
      modifies this`lastTemp, this`lastPwm
      ensures Now() == Settle(old(Now()), config, temp) && lastPwm == Some(pwm)
      ensures pollMs == if Keeps(old(Now()), config, temp) then config.idlePollMs else config.activePollMs
    {
      if lastTemp.Some? && Distance(temp, lastTemp.value) < config.hysteresis {
        pollMs := config.idlePollMs;
        if lastPwm.Some? {
          pwm := lastPwm.value;
        } else {
          var speed := InterpolateByLoop(config.curve, temp);
          pwm := PercentToPwm(Max(speed, config.minSpeed));
        }
      } else {
        lastTemp := Some(temp);
        pollMs := config.activePollMs;
        var speed := InterpolateByLoop(config.curve, temp);
        pwm := PercentToPwm(Max(speed, config.minSpeed));
      }
      lastPwm := Some(pwm);
    }

    /** From the hysteresis check to the end of the tick. */
    method SettleAndWrite(r: Round, temp: u8) returns (pollMs: nat)
      requires Valid()
      modifies this, backend, backend.pwm, backend.auto
      ensures Valid()
      ensures var t := WriteStage(Hw(), old(Now()), r, temp);
              Now() == t.state && pollMs == t.pollMs && backend.issued == old(backend.issued) + t.commands
    {
      var pwm;
      pwm, pollMs := SettleSetpoint(r.config, temp);
      var writeErrors := SetAllPwm(pwm, r.writeOk);
      if writeErrors == 0 {
        writeFailures := 0;
      } else {
        writeFailures := writeFailures + 1;
        if backend.reapply && writeFailures >= SUSPEND_FAILURE_THRESHOLD {
          SetAllAuto(r.autoOk);
          suspended := true;
          ConcatAssociates(old(backend.issued), PwmToAll(Hw(), pwm, r.writeOk, backend.numFans),
                           AutoToAll(Hw(), r.autoOk, backend.numFans));
          return r.config.idlePollMs;
        }
      }
    }

    method TickCustomCurve(r: Round) returns (pollMs: nat)
      requires Valid()
      modifies this, backend, backend.pwm, backend.auto
      ensures Valid()
      ensures var t := Tick(Hw(), old(Now()), r);
              Now() == t.state && pollMs == t.pollMs && backend.issued == old(backend.issued) + t.commands
    {
      if r.temp == None {
        pollMs := OnReadFailure(r);
        return;
      }
      consecutiveFailures := 0;
      var temp := r.temp.value;
      if temp >= IMPLAUSIBLE_TEMP {
        implausible := implausible + 1;
        var load := EffectiveLoad(r.load);
        if lastPwm.Some? && (load < IMPLAUSIBLE_LOAD_MIN || implausible < IMPLAUSIBLE_THRESHOLD) {
          var _ := SetAllPwm(lastPwm.value, r.writeOk);
          return r.config.activePollMs;
        }
      } else {
        implausible := 0;
      }
      pollMs := SettleAndWrite(r, temp);
    }

    /** Takes over the config of a round: value comparison first, then the mode change. */
    method AdoptConfig(r: Round)
      requires Valid()
      modifies this, backend, backend.pwm, backend.auto
      ensures Valid()
      ensures Now() == Adopt(old(Now()), r.config)
      ensures backend.issued == old(backend.issued) + AdoptCommands(Hw(), old(Now()), r)
    {
      if lastConfig != Some(r.config) {
        lastTemp, lastPwm := None, None;
        implausible, writeFailures := 0, 0;
        suspended := false;
        lastConfig := Some(r.config);
      }
      if r.config.mode != currentMode {
        match r.config.mode {
          case Auto => SetAllAuto(r.autoOk);
          case Manual => writeFailures := 0;
          case CustomCurve =>
            lastTemp, lastPwm := None, None;
            implausible, writeFailures := 0, 0;
            suspended := false;
        }
        currentMode := r.config.mode;
      }
    }

    /** The match on the current mode. */
    method ActOnMode(r: Round, ghost st: State) returns (pollMs: nat)
      requires Valid() && Now() == Adopt(st, r.config)
      modifies this, backend, backend.pwm, backend.auto
      ensures Valid()
      ensures Now() == AfterMode(Hw(), st, r)
      ensures backend.issued == old(backend.issued) + ModeCommands(Hw(), st, r)
      ensures pollMs == if Ticks(st, r) then Tick(Hw(), Adopt(st, r.config), r).pollMs else r.config.idlePollMs
    {
      match currentMode {
        case Auto => pollMs := r.config.idlePollMs;
        case Manual =>
          if backend.reapply { ReapplyManual(r.manualPwms, r.writeOk); }
          pollMs := r.config.idlePollMs;
        case CustomCurve =>
          if suspended {
            pollMs := r.config.idlePollMs;
          } else {
            pollMs := TickCustomCurve(r);
          }
      }
    }

    /** The body of the engine's loop; `stop` is its `return`, `waitMs` the length of its sleep. */
    method OneRound(r: Round) returns (stop: bool, waitMs: nat)
      requires Valid()
      modifies this, backend, backend.pwm, backend.auto
      ensures Valid()
      ensures Now().(running := !stop) == Step(Hw(), old(Now()), r)
      ensures backend.issued == old(backend.issued) + StepCommands(Hw(), old(Now()), r)
      ensures var st := old(Now());
              waitMs == if Ticks(st, r) then Tick(Hw(), Adopt(st, r.config), r).pollMs else r.config.idlePollMs
    {
      ghost var st, was := Now(), backend.issued;
      AdoptConfig(r);
      waitMs := ActOnMode(r, st);
      ConcatAssociates(was, AdoptCommands(Hw(), st, r), ModeCommands(Hw(), st, r));
      stop := false;
      match r.wake {
        case Slept =>
        case Changed =>
          lastTemp, lastPwm := None, None;
          implausible := 0;
        case Shutdown =>
          SetAllAuto(r.stopOk);
          stop := true;
          ConcatAssociates(was, AdoptCommands(Hw(), st, r) + ModeCommands(Hw(), st, r),
                           AutoToAll(Hw(), r.stopOk, backend.numFans));
      }
    }

    /** The engine's loop over the rounds of a run; stops early at a shutdown. */
    method Run(rounds: seq<Round>)
      requires Valid() && Now() == INITIAL
      modifies this, backend, backend.pwm, backend.auto
      ensures Valid()
      ensures Now() == After(Hw(), rounds).(running := true)
      ensures backend.issued == old(backend.issued) + Issued(Hw(), rounds)
    {
      for i := 0 to |rounds|
        invariant Valid()
        invariant Now() == After(Hw(), rounds[..i])
        invariant backend.issued == old(backend.issued) + Issued(Hw(), rounds[..i])
      {
        ExtendRun(Hw(), rounds, i, old(backend.issued));
        var stop, _ := OneRound(rounds[i]);
        if stop {
          StoppedStaysStopped(Hw(), rounds, i + 1);
          return;
        }
      }
      assert rounds[..|rounds|] == rounds;
    }
  }

  /** A new engine on a new backend: after any run the fan arrays are what the run's commands make of them. */
  method RunNewEngine(numFans: u8, reapply: bool, rounds: seq<Round>) returns (backend: FanBackend)
    ensures backend.pwm.Length == backend.auto.Length == backend.numFans == numFans
    ensures backend.Fans() == Replay(NewFans(numFans), Issued(Hardware(numFans, reapply), rounds))
  {
    backend := new FanBackend(numFans, reapply);
    var engine := new FanCurveEngine(backend);
    engine.Run(rounds);
    assert [] + Issued(Hardware(numFans, reapply), rounds) == Issued(Hardware(numFans, reapply), rounds);
  }
}
