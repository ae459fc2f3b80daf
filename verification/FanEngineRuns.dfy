/** Properties of whole runs of the fan engine: every statement ranges over all
    histories of rounds, with arbitrary configs, readings, loads and failures. */
module FanEngineRuns {
  import opened Prelude
  import opened FanCurve
  import opened FanCurveLaws
  import opened Counting
  import opened FanEngineSpec

  lemma {:induction false} AfterOneMore(hw: Hardware, rounds: seq<Round>, r: Round)
    ensures After(hw, rounds).running ==> After(hw, rounds + [r]) == Step(hw, After(hw, rounds), r)
    ensures After(hw, rounds).running ==>
              Issued(hw, rounds + [r]) == Issued(hw, rounds) + StepCommands(hw, After(hw, rounds), r)
    ensures !After(hw, rounds).running ==> After(hw, rounds + [r]) == After(hw, rounds)
    ensures !After(hw, rounds).running ==> Issued(hw, rounds + [r]) == Issued(hw, rounds)
  {
    assert (rounds + [r])[..|rounds|] == rounds;
  }

  // ---- Cache coherence ---------------------------------------------------

  /** Temperature and duty are cached together, and the duty is what the current config asks for
      at the cached temperature. */
  ghost predicate Coherent(s: State) {
    && (s.lastTemp.Some? <==> s.lastPwm.Some?)
    && (s.lastPwm.Some? ==> s.lastConfig.Some? && s.lastPwm.value == CurvePwm(s.lastConfig.value, s.lastTemp.value))
    && (s.lastConfig.Some? ==> s.mode == s.lastConfig.value.mode)
    && (s.lastConfig.None? ==> s.mode == Auto)
    && (s.suspended ==> s.mode == CustomCurve)
  }

  lemma AdoptKeepsCoherent(s: State, config: FanConfig)
    requires Coherent(s)
    ensures Coherent(Adopt(s, config)) && Adopt(s, config).lastConfig == Some(config)
    ensures s.lastConfig == Some(config) ==> Adopt(s, config) == s
    ensures s.lastConfig != Some(config) ==>
              Adopt(s, config) == s.(lastTemp := None, lastPwm := None, implausible := 0, writeFailures := 0,
                                     suspended := false, lastConfig := Some(config), mode := config.mode)
  {
  }

  lemma TickKeepsCoherent(hw: Hardware, s: State, r: Round)
    requires Coherent(s) && s.lastConfig == Some(r.config) && s.mode == CustomCurve
    ensures Coherent(Tick(hw, s, r).state)
    ensures Tick(hw, s, r).state.lastConfig == s.lastConfig
  {
  }

  lemma ModeKeepsCoherent(hw: Hardware, s: State, r: Round)
    requires Coherent(s)
    ensures Coherent(AfterMode(hw, s, r)) && AfterMode(hw, s, r).lastConfig == Some(r.config)
  {
    AdoptKeepsCoherent(s, r.config);
    if Ticks(s, r) {
      TickKeepsCoherent(hw, Adopt(s, r.config), r);
    }
  }

  lemma WakenKeepsCoherent(s: State, wake: Wake)
    requires Coherent(s)
    ensures Coherent(Waken(s, wake)) && Waken(s, wake).lastConfig == s.lastConfig
  {
  }

  lemma StepKeepsCoherent(hw: Hardware, s: State, r: Round)
    requires Coherent(s)
    ensures Coherent(Step(hw, s, r)) && Step(hw, s, r).lastConfig == Some(r.config)
  {
    ModeKeepsCoherent(hw, s, r);
    WakenKeepsCoherent(AfterMode(hw, s, r), r.wake);
  }

  /** In every reachable state the cached setpoint agrees with the config in force. In particular
      no tick of any run finds a temperature without a duty. */
  lemma {:induction false} ReachableIsCoherent(hw: Hardware, rounds: seq<Round>)
    ensures Coherent(After(hw, rounds))
    ensures rounds != [] && After(hw, rounds).running ==>
              After(hw, rounds).lastConfig == Some(rounds[|rounds| - 1].config)
    ensures var s := After(hw, rounds);
            s.lastPwm.Some? ==> s.lastTemp.Some? && s.lastConfig.Some? && DutyFor(s.lastConfig.value, s.lastTemp.value, s.lastPwm.value)
  {
    var s := After(hw, rounds);
    if rounds != [] {
      var before, r := rounds[..|rounds| - 1], rounds[|rounds| - 1];
      ReachableIsCoherent(hw, before);
      StepKeepsCoherent(hw, After(hw, before), r);
      if s.lastPwm.Some? {
        CurvePwmIsDuty(s.lastConfig.value, s.lastTemp.value);
      }
    }
  }

  // ---- No drift ------------------------------------------------------------

  /** The state a tick starts from. */
  ghost function TickStart(hw: Hardware, rounds: seq<Round>, r: Round): State {
    Adopt(After(hw, rounds), r.config)
  }

  ghost predicate TicksNext(hw: Hardware, rounds: seq<Round>, r: Round) {
    After(hw, rounds).running && Ticks(After(hw, rounds), r)
  }

  lemma {:induction false} TickStartIsCoherent(hw: Hardware, rounds: seq<Round>, r: Round)
    requires TicksNext(hw, rounds, r)
    ensures Coherent(TickStart(hw, rounds, r)) && TickStart(hw, rounds, r).lastConfig == Some(r.config)
    ensures TickStart(hw, rounds, r).mode == CustomCurve
  {
    ReachableIsCoherent(hw, rounds);
    AdoptKeepsCoherent(After(hw, rounds), r.config);
  }

  /** What the hysteresis step makes of a reading: within less than the hysteresis of the temperature behind
      the setpoint, both stay, and a missing duty is computed for the reading; otherwise both are renewed
      for the reading. Nothing else changes. */
  lemma SettleMeans(s: State, config: FanConfig, t: u8)
    ensures var after := Settle(s, config, t);
            var held := s.lastTemp.Some? && t - config.hysteresis < s.lastTemp.value < t + config.hysteresis;
            && after == s.(lastTemp := if held then s.lastTemp else Some(t), lastPwm := after.lastPwm)
            && after.lastPwm.Some?
            && (if held && s.lastPwm.Some? then after.lastPwm == s.lastPwm else DutyFor(config, t, after.lastPwm.value))
            && (Keeps(s, config, t) <==> held)
  {
    CurvePwmIsDuty(config, t);
  }

  /** However long the run, a duty written at reading `t` is the curve's duty at some temperature
      less than the hysteresis away from `t`; for sorted curves of rising speeds it therefore lies
      between the curve's duties at the two ends of that band, and with a hysteresis of at most one
      degree it is the curve's duty at `t`. The setpoint moves only when the hysteresis is reached,
      so small changes neither move it nor add up to a drift. */
  lemma {:induction false} WrittenDutyNeverDrifts(hw: Hardware, rounds: seq<Round>, r: Round)
    requires TicksNext(hw, rounds, r) && r.temp.Some?
    requires Tick(hw, TickStart(hw, rounds, r), r).writeStage.Some?
    ensures var t, w, done := r.temp.value, Max(r.config.hysteresis - 1, 0), Tick(hw, TickStart(hw, rounds, r), r);
            && done.state.lastPwm.Some? && done.state.lastTemp.Some?
            && done.commands[..hw.numFans] == PwmToAll(hw, done.state.lastPwm.value, r.writeOk, hw.numFans)
            && DutyFor(r.config, done.state.lastTemp.value, done.state.lastPwm.value)
            && t - w <= done.state.lastTemp.value <= t + w
            && (var held, h := TickStart(hw, rounds, r).lastTemp, r.config.hysteresis;
                done.state.lastTemp == if held.Some? && t - h < held.value < t + h then held else Some(t))
            && (Sorted(r.config.curve) && NonDecreasing(r.config.curve) ==>
                  CurvePwm(r.config, Max(t - w, 0)) <= done.state.lastPwm.value <= CurvePwm(r.config, Min(t + w, 255)))
  {
    var s, t, w := TickStart(hw, rounds, r), r.temp.value, Max(r.config.hysteresis - 1, 0);
    TickStartIsCoherent(hw, rounds, r);
    TickKeepsCoherent(hw, s, r);
    var done := Tick(hw, s, r);
    var u := done.state.lastTemp.value;
    CurvePwmIsDuty(r.config, u);
    if Sorted(r.config.curve) && NonDecreasing(r.config.curve) {
      CurvePwmMonotone(r.config, Max(t - w, 0), u);
      CurvePwmMonotone(r.config, u, Min(t + w, 255));
    }
  }

  /** A config with a new value, or of any value if its sending ended the wait, takes effect at the next
      good reading, past hysteresis and plausibility checks alike: the duty written is the curve's duty
      at that reading. (An equal value sent after the wait's time ran out and before the config is taken
      over goes unnoticed.) */
  lemma {:induction false} NotifiedConfigTakesEffect(hw: Hardware, rounds: seq<Round>, r: Round)
    requires TicksNext(hw, rounds, r) && r.temp.Some?
    requires After(hw, rounds).lastConfig != Some(r.config) || (rounds != [] && rounds[|rounds| - 1].wake == Changed)
    ensures var done := Tick(hw, TickStart(hw, rounds, r), r);
            && done.writeStage.Some?
            && done.state.lastTemp == r.temp
            && done.state.lastPwm.Some? && DutyFor(r.config, r.temp.value, done.state.lastPwm.value)
  {
    ReachableIsCoherent(hw, rounds);
    AdoptKeepsCoherent(After(hw, rounds), r.config);
    if rounds != [] && rounds[|rounds| - 1].wake == Changed {
      NotificationClears(hw, After(hw, rounds[..|rounds| - 1]), rounds[|rounds| - 1]);
    }
    assert TickStart(hw, rounds, r).lastPwm == None && TickStart(hw, rounds, r).lastTemp == None;
    CurvePwmIsDuty(r.config, r.temp.value);
  }

  lemma NotificationClears(hw: Hardware, st: State, r: Round)
    requires r.wake == Changed
    ensures Step(hw, st, r).lastTemp == None && Step(hw, st, r).lastPwm == None
    ensures Step(hw, st, r).suspended == AfterMode(hw, st, r).suspended
  {
  }

  // ---- What a tick sends ----------------------------------------------------

  /** A duty the engine may send under a config: the safety duty, or at least the configured minimum. */
  ghost predicate AllowedDuty(config: FanConfig, pwm: u8) {
    pwm == 153 || pwm >= PercentToPwm(config.minSpeed)
  }

  /** A tick's commands: one allowed duty to all fans, or, when it suspends, `set_auto` to all fans
      at the end. */
  ghost predicate OneDutyOrAuto(hw: Hardware, r: Round, done: TickResult) {
    var toAuto := AutoToAll(hw, r.autoOk, hw.numFans);
    if done.state.suspended then
      done.commands == toAuto
      || exists pwm: u8 :: AllowedDuty(r.config, pwm)
                           && done.commands == PwmToAll(hw, pwm, r.writeOk, hw.numFans) + toAuto
    else
      exists pwm: u8 :: AllowedDuty(r.config, pwm) && done.commands == PwmToAll(hw, pwm, r.writeOk, hw.numFans)
  }

  lemma TickSends(hw: Hardware, s: State, r: Round)
    requires Coherent(s) && s.lastConfig == Some(r.config) && s.mode == CustomCurve && !s.suspended
    ensures OneDutyOrAuto(hw, r, Tick(hw, s, r))
  {
    TickKeepsCoherent(hw, s, r);
    var done := Tick(hw, s, r);
    PercentToPwmOrder(60, 60);
    if s.lastPwm.Some? {
      DutyAllowed(r.config, s.lastTemp.value);
    }
    if done.writeStage.Some? {
      DutyAllowed(r.config, done.state.lastTemp.value);
      assert AllowedDuty(r.config, done.state.lastPwm.value);
    }
    assert AllowedDuty(r.config, 153);
  }

  /** Every tick of every run either sends one allowed duty to all fans, or ends by sending
      `set_auto` to all fans and suspends. */
  lemma {:induction false} TickSendsOneDutyOrAuto(hw: Hardware, rounds: seq<Round>, r: Round)
    requires TicksNext(hw, rounds, r)
    ensures OneDutyOrAuto(hw, r, Tick(hw, TickStart(hw, rounds, r), r))
  {
    TickStartIsCoherent(hw, rounds, r);
    TickSends(hw, TickStart(hw, rounds, r), r);
  }

  /** A tick waits for the idle interval when it kept the setpoint or suspended, else for the active one. */
  lemma TickInterval(hw: Hardware, s: State, r: Round)
    requires !s.suspended
    ensures var done, h := Tick(hw, s, r), r.config.hysteresis;
            done.pollMs == if done.state.suspended
                              || (done.writeStage.Some? && s.lastTemp.Some?
                                  && r.temp.value - h < s.lastTemp.value < r.temp.value + h)
                           then r.config.idlePollMs else r.config.activePollMs
  {
  }

  /** A round in Auto or Manual mode or with a suspended curve does not tick, and so waits for the idle interval. */
  lemma IdleRoundsDoNotTick(st: State, r: Round)
    requires Coherent(st)
    ensures Ticks(st, r) <==> r.config.mode == CustomCurve && !(st.suspended && st.lastConfig == Some(r.config))
  {
    AdoptKeepsCoherent(st, r.config);
  }

  lemma DutyAllowed(config: FanConfig, t: u8)
    ensures AllowedDuty(config, CurvePwm(config, t))
  {
    PercentToPwmOrder(config.minSpeed, Max(Interpolate(config.curve, t), config.minSpeed));
  }

  // ---- What a round sends, and what it leaves --------------------------------------

  lemma {:induction false} ManualWritesAre(hw: Hardware, pwms: seq<u8>, oks: seq<bool>, k: nat)
    requires k <= |pwms|
    ensures |ManualWrites(hw, pwms, oks, k)| == k
    ensures forall i :: 0 <= i < k ==> ManualWrites(hw, pwms, oks, k)[i] == WritePwm(i % 256, pwms[i], Succeeds(hw, oks, i % 256))
  {
    if k > 0 {
      ManualWritesAre(hw, pwms, oks, k - 1);
    }
  }

  /** In Auto mode a round sends `set_auto` to every fan if the mode is new, and nothing otherwise; in
      CustomCurve mode a tick's commands, and nothing while suspended. A shutdown adds `set_auto` to every fan. */
  lemma RoundSendsExactly(hw: Hardware, st: State, r: Round)
    requires Coherent(st) && r.config.mode != Manual
    ensures var before := if r.config.mode == Auto then (if st.mode == Auto then [] else AutoToAll(hw, r.autoOk, hw.numFans))
                          else if st.suspended && st.lastConfig == Some(r.config) then []
                          else Tick(hw, Adopt(st, r.config), r).commands;
            StepCommands(hw, st, r) == before + if r.wake == Shutdown then AutoToAll(hw, r.stopOk, hw.numFans) else []
  {
    AdoptKeepsCoherent(st, r.config);
    assert AdoptCommands(hw, st, r) == [] || ModeCommands(hw, st, r) == [];
  }

  /** In Manual mode it sends one write per recorded setpoint on a re-applying backend, and nothing on any
      other, whatever the mode was before. */
  lemma ManualRoundSendsExactly(hw: Hardware, st: State, r: Round)
    requires Coherent(st) && r.config.mode == Manual && r.wake != Shutdown
    ensures var sent := StepCommands(hw, st, r);
            && |sent| == (if hw.reapply then |r.manualPwms| else 0)
            && forall i :: 0 <= i < |sent| ==> sent[i] == WritePwm(i % 256, r.manualPwms[i], Succeeds(hw, r.writeOk, i % 256))
  {
    assert AdoptCommands(hw, st, r) == [];
    ManualWritesAre(hw, r.manualPwms, r.writeOk, |r.manualPwms|);
    assert StepCommands(hw, st, r) == ModeCommands(hw, st, r);
  }

  /** A wait that runs out changes nothing: the next round of the same config finds the setpoint, and a
      reading within the hysteresis of it leaves it, duty and all. */
  lemma {:induction false} SetpointSurvivesSleep(hw: Hardware, rounds: seq<Round>, last: Round, r: Round)
    requires After(hw, rounds).running && last.wake == Slept && r.config == last.config
    requires TicksNext(hw, rounds + [last], r) && r.temp.Some?
    ensures var slept, done := AfterMode(hw, After(hw, rounds), last), Tick(hw, TickStart(hw, rounds + [last], r), r);
            && TickStart(hw, rounds + [last], r) == slept
            && (slept.lastTemp.Some? && r.temp.value - r.config.hysteresis < slept.lastTemp.value < r.temp.value + r.config.hysteresis ==>
                  done.state.lastTemp == slept.lastTemp && done.state.lastPwm == slept.lastPwm)
  {
    AfterOneMore(hw, rounds, last);
    ReachableIsCoherent(hw, rounds);
    ModeKeepsCoherent(hw, After(hw, rounds), last);
    AdoptKeepsCoherent(AfterMode(hw, After(hw, rounds), last), r.config);
  }

  // ---- The counters count the history ----------------------------------------

  datatype Counter = Reads | Implausibles | Writes

  /** What one round contributes to the history that a counter looks at. */
  ghost function RoundMarks(c: Counter, hw: Hardware, st: State, r: Round): seq<Mark> {
    var reset := if c != Reads && st.lastConfig != Some(r.config) then [Break] else [];
    var cleared := if c == Implausibles && r.wake == Changed then [Break] else [];
    reset + [TickMark(c, hw, st, r)] + cleared
  }

  ghost function TickMark(c: Counter, hw: Hardware, st: State, r: Round): Mark {
    if !Ticks(st, r) then Neutral
    else
      match c
      case Reads => if r.temp.None? then Count else Break
      case Implausibles => if r.temp.None? then Neutral else if r.temp.value >= 110 then Count else Break
      case Writes =>
        match Tick(hw, Adopt(st, r.config), r).writeStage
        case None => Neutral
        case Some(errors) => if errors > 0 then Count else Break
  }

  ghost function History(c: Counter, hw: Hardware, rounds: seq<Round>): seq<Mark> {
    if rounds == [] then []
    else
      var before := rounds[..|rounds| - 1];
      var s := After(hw, before);
      History(c, hw, before) + if s.running then RoundMarks(c, hw, s, rounds[|rounds| - 1]) else []
  }

  ghost function CounterOf(c: Counter, s: State): nat {
    match c
    case Reads => s.readFailures
    case Implausibles => s.implausible
    case Writes => s.writeFailures
  }

  /** Each counter equals the count over its history: failed reads since the last good read;
      implausible readings since the last plausible reading, config value change or config
      notification, with failed reads in between ignored; ticks with failed writes since the last
      clean write stage or config value change, with ticks that write nothing ignored. */
  lemma {:induction false} CountersCountHistory(c: Counter, hw: Hardware, rounds: seq<Round>)
    ensures CounterOf(c, After(hw, rounds)) == Trailing(History(c, hw, rounds))
  {
    if rounds != [] {
      var before, r := rounds[..|rounds| - 1], rounds[|rounds| - 1];
      CountersCountHistory(c, hw, before);
      var s := After(hw, before);
      if s.running {
        ReachableIsCoherent(hw, before);
        RoundCounts(c, hw, s, r, History(c, hw, before));
      } else {
        assert History(c, hw, rounds) == History(c, hw, before);
      }
    }
  }

  /** The history a tick's own mark is appended to. */
  ghost function Until(c: Counter, hw: Hardware, rounds: seq<Round>, r: Round): seq<Mark> {
    History(c, hw, rounds) + if c != Reads && After(hw, rounds).lastConfig != Some(r.config) then [Break] else []
  }

  lemma AdoptCounts(c: Counter, st: State, r: Round, h: seq<Mark>)
    requires Coherent(st) && CounterOf(c, st) == Trailing(h)
    ensures CounterOf(c, Adopt(st, r.config)) ==
            Trailing(h + if c != Reads && st.lastConfig != Some(r.config) then [Break] else [])
  {
    AdoptKeepsCoherent(st, r.config);
    TrailingAppend(h, Break);
    assert h + [] == h;
  }

  /** A counter's round: perhaps a reset, then the tick's mark, then perhaps a clear. */
  lemma TrailingOfRound(h: seq<Mark>, reset: seq<Mark>, mark: Mark, cleared: seq<Mark>)
    requires cleared == [] || cleared == [Break]
    ensures Trailing(h + (reset + [mark] + cleared)) == if cleared == [] then Trailing(h + reset + [mark]) else 0
  {
    ConcatAssociates(h, reset, [mark]);
    ConcatAssociates(h, reset + [mark], cleared);
    if cleared == [] {
      assert h + reset + [mark] + cleared == h + reset + [mark];
    } else {
      TrailingAppend(h + reset + [mark], Break);
    }
  }

  lemma RoundCounts(c: Counter, hw: Hardware, st: State, r: Round, h: seq<Mark>)
    requires Coherent(st) && CounterOf(c, st) == Trailing(h)
    ensures CounterOf(c, Step(hw, st, r)) == Trailing(h + RoundMarks(c, hw, st, r))
  {
    var reset := if c != Reads && st.lastConfig != Some(r.config) then [Break] else [];
    var cleared := if c == Implausibles && r.wake == Changed then [Break] else [];
    var mark := TickMark(c, hw, st, r);
    AdoptCounts(c, st, r, h);
    TrailingAppend(h + reset, mark);
    TickCounts(c, hw, Adopt(st, r.config), st, r);
    TrailingOfRound(h, reset, mark, cleared);
    WakenCounts(c, AfterMode(hw, st, r), r.wake);
  }

  lemma WakenCounts(c: Counter, s: State, wake: Wake)
    ensures CounterOf(c, Waken(s, wake)) == if c == Implausibles && wake == Changed then 0 else CounterOf(c, s)
  {
  }

  lemma TickCounts(c: Counter, hw: Hardware, s: State, st: State, r: Round)
    requires s == Adopt(st, r.config)
    ensures CounterOf(c, AfterMode(hw, st, r)) ==
            match TickMark(c, hw, st, r)
            case Break => 0
            case Count => CounterOf(c, s) + 1
            case Neutral => CounterOf(c, s)
  {
  }

  // ---- Implausible readings ---------------------------------------------------

  /** A reading below 110 degrees, or any without a held setpoint, is acted on. While a setpoint is held, a
      reading of 110 degrees or more is acted on exactly when the CPU load is at least 30% or unreadable and
      this is at least the fifth reading of an unbroken run of implausible ones; otherwise the setpoint
      stays and its duty is sent again. */
  lemma {:induction false} ImplausibleReadingActedOnExactly(hw: Hardware, rounds: seq<Round>, r: Round)
    requires TicksNext(hw, rounds, r) && r.temp.Some?
    ensures var s := TickStart(hw, rounds, r);
            var done := Tick(hw, s, r);
            var acted := || r.temp.value < 110
                         || s.lastPwm.None?
                         || ((r.load.None? || r.load.value >= 30.0)
                             && exists j: nat :: UnbrokenRun(History(Implausibles, hw, rounds) + [Count], j, 5));
            && (done.writeStage.Some? <==> acted)
            && (!acted ==> done.state.lastTemp == s.lastTemp && done.state.lastPwm == s.lastPwm
                           && done.commands == PwmToAll(hw, s.lastPwm.value, r.writeOk, hw.numFans))
  {
    ReachableIsCoherent(hw, rounds);
    AdoptKeepsCoherent(After(hw, rounds), r.config);
    var h := History(Implausibles, hw, rounds);
    CountersCountHistory(Implausibles, hw, rounds);
    TrailingAppend(h, Count);
    TrailingIsUnbrokenRun(h + [Count], 5);
  }

  // ---- Suspension -----------------------------------------------------------------

  /** Whether a tick of round `r` with a counting mark ends an unbroken run of five. */
  ghost predicate EndsRunOfFive(c: Counter, hw: Hardware, rounds: seq<Round>, r: Round) {
    exists j: nat :: UnbrokenRun(Until(c, hw, rounds, r) + [Count], j, 5)
  }

  lemma {:induction false} RunOfFiveByCounter(c: Counter, hw: Hardware, rounds: seq<Round>, r: Round)
    ensures EndsRunOfFive(c, hw, rounds, r) <==> CounterOf(c, TickStart(hw, rounds, r)) + 1 >= 5
  {
    ReachableIsCoherent(hw, rounds);
    CountersCountHistory(c, hw, rounds);
    AdoptCounts(c, After(hw, rounds), r, History(c, hw, rounds));
    TrailingAppend(Until(c, hw, rounds, r), Count);
    TrailingIsUnbrokenRun(Until(c, hw, rounds, r) + [Count], 5);
  }

  lemma SuspendsByCounters(hw: Hardware, s: State, r: Round)
    requires !s.suspended
    ensures var done := Tick(hw, s, r);
            done.state.suspended <==>
              hw.reapply && (|| (r.temp.None? && s.readFailures + 1 >= 5)
                             || (done.writeStage.Some? && done.writeStage.value > 0 && s.writeFailures + 1 >= 5))
  {
  }

  /** A tick suspends CustomCurve exactly when, on a re-applying backend, its failed read ends an
      unbroken run of five failed reads, or its failed write stage ends an unbroken run of five
      failed write stages; after anything else it then sends `set_auto` to every fan. */
  lemma {:induction false} SuspendsExactly(hw: Hardware, rounds: seq<Round>, r: Round)
    requires TicksNext(hw, rounds, r)
    ensures var done := Tick(hw, TickStart(hw, rounds, r), r);
            var toAuto := AutoToAll(hw, r.autoOk, hw.numFans);
            && (done.state.suspended <==>
                  && hw.reapply
                  && (|| (r.temp.None? && EndsRunOfFive(Reads, hw, rounds, r))
                      || (done.writeStage.Some? && done.writeStage.value > 0 && EndsRunOfFive(Writes, hw, rounds, r))))
            && (done.state.suspended ==>
                  |done.commands| >= |toAuto| && done.commands[|done.commands| - |toAuto|..] == toAuto)
  {
    RunOfFiveByCounter(Reads, hw, rounds, r);
    RunOfFiveByCounter(Writes, hw, rounds, r);
    SuspendsByCounters(hw, TickStart(hw, rounds, r), r);
    TickSendsOneDutyOrAuto(hw, rounds, r);
  }

  /** What a failed read does: it suspends, or keeps the cached duty while the unbroken run of failed
      reads is shorter than five, or else sends the safety duty 153 to every fan. The setpoint stays. */
  lemma {:induction false} FailedReadSendsExactly(hw: Hardware, rounds: seq<Round>, r: Round)
    requires TicksNext(hw, rounds, r) && r.temp.None?
    ensures var s := TickStart(hw, rounds, r);
            var done := Tick(hw, s, r);
            && done.state.lastTemp == s.lastTemp && done.state.lastPwm == s.lastPwm
            && done.commands ==
                 if hw.reapply && EndsRunOfFive(Reads, hw, rounds, r) then AutoToAll(hw, r.autoOk, hw.numFans)
                 else PwmToAll(hw, if s.lastPwm.Some? && !EndsRunOfFive(Reads, hw, rounds, r) then s.lastPwm.value else 153,
                               r.writeOk, hw.numFans)
  {
    RunOfFiveByCounter(Reads, hw, rounds, r);
    PercentToPwmOrder(60, 60);
  }

  /** On a backend that needs no re-applying, CustomCurve is never suspended, and from the fifth
      failed read of an unbroken run on every failing tick sends the safety duty 153. */
  lemma {:induction false} SafetyDutyWithoutReapply(hw: Hardware, rounds: seq<Round>, r: Round)
    requires !hw.reapply
    ensures !After(hw, rounds).suspended
    ensures TicksNext(hw, rounds, r) && r.temp.None?
            && (exists j: nat :: UnbrokenRun(History(Reads, hw, rounds) + [Count], j, 5)) ==>
              Tick(hw, TickStart(hw, rounds, r), r).commands == PwmToAll(hw, 153, r.writeOk, hw.numFans)
  {
    NeverSuspended(hw, rounds);
    PercentToPwmOrder(60, 60);
    var h := History(Reads, hw, rounds);
    CountersCountHistory(Reads, hw, rounds);
    TrailingAppend(h, Count);
    TrailingIsUnbrokenRun(h + [Count], 5);
  }

  lemma StepNeverSuspends(hw: Hardware, st: State, r: Round)
    requires !hw.reapply && !st.suspended
    ensures !Step(hw, st, r).suspended
  {
    SuspendsByCounters(hw, Adopt(st, r.config), r);
  }

  lemma {:induction false} NeverSuspended(hw: Hardware, rounds: seq<Round>)
    requires !hw.reapply
    ensures !After(hw, rounds).suspended
  {
    if rounds != [] {
      var before := rounds[..|rounds| - 1];
      NeverSuspended(hw, before);
      StepNeverSuspends(hw, After(hw, before), rounds[|rounds| - 1]);
    }
  }

  ghost predicate OnlySetAuto(commands: seq<Command>) {
    forall i :: 0 <= i < |commands| ==> commands[i].SetAuto?
  }

  lemma SuspendedStepIsSilent(hw: Hardware, st: State, r: Round)
    requires Coherent(st) && st.suspended && st.lastConfig == Some(r.config)
    ensures Step(hw, st, r).suspended && Step(hw, st, r).lastConfig == st.lastConfig
    ensures OnlySetAuto(StepCommands(hw, st, r))
  {
    AdoptKeepsCoherent(st, r.config);
    assert AdoptCommands(hw, st, r) == [] && ModeCommands(hw, st, r) == [];
  }

  /** While CustomCurve is suspended and the config value stays the same, no duty is written,
      whatever is re-sent or read; only a shutdown still talks to the fans, with `set_auto`. */
  lemma {:induction false} SuspendedIsSilent(hw: Hardware, rounds: seq<Round>, more: seq<Round>) returns (extra: seq<Command>)
    requires After(hw, rounds).suspended
    requires forall i :: 0 <= i < |more| ==> Some(more[i].config) == After(hw, rounds).lastConfig
    ensures After(hw, rounds + more).suspended
    ensures After(hw, rounds + more).lastConfig == After(hw, rounds).lastConfig
    ensures Issued(hw, rounds + more) == Issued(hw, rounds) + extra && OnlySetAuto(extra)
    decreases |more|
  {
    if more == [] {
      assert rounds + more == rounds;
      extra := [];
    } else {
      var before, r := more[..|more| - 1], more[|more| - 1];
      extra := SuspendedIsSilent(hw, rounds, before);
      var all := rounds + before;
      assert rounds + more == all + [r];
      AfterOneMore(hw, all, r);
      ReachableIsCoherent(hw, all);
      if After(hw, all).running {
        var last := StepCommands(hw, After(hw, all), r);
        SuspendedStepIsSilent(hw, After(hw, all), r);
        ConcatAssociates(Issued(hw, rounds), extra, last);
        extra := extra + last;
      }
    }
  }

  // ---- The failure counter and the reported health ---------------------------------

  /** How often the config value changed after the first round. */
  function ValueChanges(rounds: seq<Round>): nat {
    if |rounds| <= 1 then 0
    else ValueChanges(rounds[..|rounds| - 1])
         + if rounds[|rounds| - 1].config != rounds[|rounds| - 2].config then 1 else 0
  }

  /** Only a round that leaves CustomCurve suspended can raise the counter above four. */
  lemma StepFailures(hw: Hardware, st: State, r: Round)
    requires hw.reapply
    ensures var s := Step(hw, st, r);
            && (Adopt(st, r.config).suspended ==> s.suspended && s.readFailures == st.readFailures)
            && (!Adopt(st, r.config).suspended ==> s.readFailures <= st.readFailures + 1)
            && (!Adopt(st, r.config).suspended && s.readFailures >= 5 ==> s.suspended || s.readFailures == st.readFailures)
  {
  }

  /** On a re-applying backend the read-failure counter, which no config change resets, is still
      bounded: five plus one for every change of the config value. */
  lemma {:induction false} ReadFailuresBounded(hw: Hardware, rounds: seq<Round>)
    requires hw.reapply
    ensures After(hw, rounds).readFailures
            <= ValueChanges(rounds) + if After(hw, rounds).suspended then 5 else 4
  {
    if rounds != [] {
      var before, r := rounds[..|rounds| - 1], rounds[|rounds| - 1];
      ReadFailuresBounded(hw, before);
      ReachableIsCoherent(hw, before);
      var st := After(hw, before);
      if st.running {
        AdoptKeepsCoherent(st, r.config);
        StepFailures(hw, st, r);
        if before != [] {
          assert before[|before| - 1] == rounds[|rounds| - 2];
        }
      }
    }
  }

  datatype Health = Ok | Degraded | Failed

  /** `get_fan_health` on the shared counter. */
  function HealthOf(failures: nat): Health {
    if failures >= 30 then Failed else if failures >= 5 then Degraded else Ok
  }

  /** Health is failed exactly during an unbroken run of 30 failed reads, and ok exactly outside one of five;
      a re-applying backend cannot get to failed before its config value changed 25 times. */
  lemma {:induction false} HealthOverRuns(hw: Hardware, rounds: seq<Round>)
    ensures HealthOf(After(hw, rounds).readFailures) == Failed <==>
            exists j: nat :: UnbrokenRun(History(Reads, hw, rounds), j, 30)
    ensures HealthOf(After(hw, rounds).readFailures) == Ok <==>
            !exists j: nat :: UnbrokenRun(History(Reads, hw, rounds), j, 5)
    ensures hw.reapply && ValueChanges(rounds) < 25 ==> HealthOf(After(hw, rounds).readFailures) != Failed
  {
    CountersCountHistory(Reads, hw, rounds);
    TrailingIsUnbrokenRun(History(Reads, hw, rounds), 30);
    TrailingIsUnbrokenRun(History(Reads, hw, rounds), 5);
    if hw.reapply {
      ReadFailuresBounded(hw, rounds);
    }
  }

  // ---- The fans themselves ------------------------------------------------------------

  lemma {:induction false} ReplayAppend(fans: seq<Fan>, a: seq<Command>, b: seq<Command>)
    ensures Replay(fans, a + b) == Replay(Replay(fans, a), b)
  {
    if b == [] {
      assert a + b == a;
    } else {
      var b' := b[..|b| - 1];
      assert (a + b)[..|a + b| - 1] == a + b';
      ReplayAppend(fans, a, b');
    }
  }

  lemma ReplayOneMore(fans: seq<Fan>, commands: seq<Command>, c: Command)
    ensures Replay(fans, commands + [c]) == Apply(Replay(fans, commands), c)
  {
    assert (commands + [c])[..|commands|] == commands;
  }

  /** The first `k` fans are as `fan`, the others as before. */
  ghost predicate FirstAre(before: seq<Fan>, after: seq<Fan>, fan: Fan, k: nat) {
    |after| == |before| && forall i :: 0 <= i < |after| ==> after[i] == if i < k then fan else before[i]
  }

  lemma OneMoreIs(before: seq<Fan>, after: seq<Fan>, k: u8, pwm: u8)
    requires k < |before|
    ensures FirstAre(before, after, Fan(pwm, false), k) ==> FirstAre(before, Apply(after, WritePwm(k, pwm, true)), Fan(pwm, false), k + 1)
    ensures FirstAre(before, after, Fan(0, true), k) ==> FirstAre(before, Apply(after, SetAuto(k, true)), Fan(0, true), k + 1)
  {
  }

  lemma {:induction false} PwmReachesAll(hw: Hardware, fans: seq<Fan>, pwm: u8, oks: seq<bool>, k: nat)
    requires |fans| == hw.numFans && k <= hw.numFans
    requires forall i :: 0 <= i < k ==> Succeeds(hw, oks, i)
    ensures FirstAre(fans, Replay(fans, PwmToAll(hw, pwm, oks, k)), Fan(pwm, false), k)
  {
    if k > 0 {
      var sent := PwmToAll(hw, pwm, oks, k - 1);
      PwmReachesAll(hw, fans, pwm, oks, k - 1);
      ReplayOneMore(fans, sent, WritePwm(k - 1, pwm, true));
      OneMoreIs(fans, Replay(fans, sent), k - 1, pwm);
    }
  }

  lemma {:induction false} AutoReachesAll(hw: Hardware, fans: seq<Fan>, oks: seq<bool>, k: nat)
    requires |fans| == hw.numFans && k <= hw.numFans
    requires forall i :: 0 <= i < k ==> Succeeds(hw, oks, i)
    ensures FirstAre(fans, Replay(fans, AutoToAll(hw, oks, k)), Fan(0, true), k)
  {
    if k > 0 {
      var sent := AutoToAll(hw, oks, k - 1);
      AutoReachesAll(hw, fans, oks, k - 1);
      ReplayOneMore(fans, sent, SetAuto(k - 1, true));
      OneMoreIs(fans, Replay(fans, sent), k - 1, 0);
    }
  }

  /** The fans after a run, starting from the automatic mode a new backend is in. */
  ghost function FansAfter(hw: Hardware, rounds: seq<Round>): (r: seq<Fan>)
    ensures |r| == hw.numFans
  {
    Replay(NewFans(hw.numFans), Issued(hw, rounds))
  }

  ghost predicate AllAuto(fans: seq<Fan>) {
    forall i :: 0 <= i < |fans| ==> fans[i] == Fan(0, true)
  }

  lemma AutoAtTheEnd(hw: Hardware, fans: seq<Fan>, commands: seq<Command>, oks: seq<bool>)
    requires |fans| == hw.numFans && forall i :: 0 <= i < hw.numFans ==> Succeeds(hw, oks, i)
    ensures AllAuto(Replay(fans, commands + AutoToAll(hw, oks, hw.numFans)))
  {
    ReplayAppend(fans, commands, AutoToAll(hw, oks, hw.numFans));
    AutoReachesAll(hw, Replay(fans, commands), oks, hw.numFans);
  }

  lemma TickLetsGo(hw: Hardware, r: Round, done: TickResult, fans: seq<Fan>)
    requires |fans| == hw.numFans && done.state.suspended && OneDutyOrAuto(hw, r, done)
    requires forall i :: 0 <= i < hw.numFans ==> Succeeds(hw, r.autoOk, i)
    ensures AllAuto(Replay(fans, done.commands))
  {
    var toAuto := AutoToAll(hw, r.autoOk, hw.numFans);
    if done.commands == toAuto {
      AutoReachesAll(hw, fans, r.autoOk, hw.numFans);
    } else {
      var pwm: u8 :| done.commands == PwmToAll(hw, pwm, r.writeOk, hw.numFans) + toAuto;
      AutoAtTheEnd(hw, fans, PwmToAll(hw, pwm, r.writeOk, hw.numFans), r.autoOk);
    }
  }

  ghost predicate AllAtOneDuty(fans: seq<Fan>, config: FanConfig) {
    exists pwm: u8 :: AllowedDuty(config, pwm) && forall i :: 0 <= i < |fans| ==> fans[i] == Fan(pwm, false)
  }

  lemma TickSetsOneDuty(hw: Hardware, r: Round, done: TickResult, fans: seq<Fan>)
    requires |fans| == hw.numFans && !done.state.suspended && OneDutyOrAuto(hw, r, done)
    requires forall i :: 0 <= i < hw.numFans ==> Succeeds(hw, r.writeOk, i)
    ensures AllAtOneDuty(Replay(fans, done.commands), r.config)
  {
    var pwm: u8 :| AllowedDuty(r.config, pwm) && done.commands == PwmToAll(hw, pwm, r.writeOk, hw.numFans);
    PwmReachesAll(hw, fans, pwm, r.writeOk, hw.numFans);
  }

  lemma TickStepIsItsTick(hw: Hardware, st: State, r: Round)
    requires Ticks(st, r) && r.wake != Shutdown
    ensures StepCommands(hw, st, r) == Tick(hw, Adopt(st, r.config), r).commands
    ensures Step(hw, st, r).suspended == Tick(hw, Adopt(st, r.config), r).state.suspended
  {
  }

  /** What the fans are after a round that ticks and does not shut down. */
  lemma {:induction false} FansAfterTick(hw: Hardware, rounds: seq<Round>, r: Round)
    requires TicksNext(hw, rounds, r) && r.wake != Shutdown
    ensures FansAfter(hw, rounds + [r]) == Replay(FansAfter(hw, rounds), Tick(hw, TickStart(hw, rounds, r), r).commands)
    ensures After(hw, rounds + [r]).suspended == Tick(hw, TickStart(hw, rounds, r), r).state.suspended
  {
    AfterOneMore(hw, rounds, r);
    TickStepIsItsTick(hw, After(hw, rounds), r);
    ReplayAppend(NewFans(hw.numFans), Issued(hw, rounds), Tick(hw, TickStart(hw, rounds, r), r).commands);
  }

  /** After a tick whose attempts all succeed, the fans agree whatever happened before: all at one
      allowed duty, or, when the tick suspends, all in automatic mode. */
  lemma {:induction false} FansAgreeAfterTick(hw: Hardware, rounds: seq<Round>, r: Round)
    requires TicksNext(hw, rounds, r) && r.wake != Shutdown
    requires forall i :: 0 <= i < hw.numFans ==> Succeeds(hw, r.writeOk, i) && Succeeds(hw, r.autoOk, i)
    ensures var fans := FansAfter(hw, rounds + [r]);
            if After(hw, rounds + [r]).suspended then AllAuto(fans) else AllAtOneDuty(fans, r.config)
  {
    FansAfterTick(hw, rounds, r);
    TickSendsOneDutyOrAuto(hw, rounds, r);
    var done := Tick(hw, TickStart(hw, rounds, r), r);
    if done.state.suspended {
      TickLetsGo(hw, r, done, FansAfter(hw, rounds));
    } else {
      TickSetsOneDuty(hw, r, done, FansAfter(hw, rounds));
    }
  }

  lemma {:induction false} SetAutoKeepsAuto(fans: seq<Fan>, commands: seq<Command>)
    requires AllAuto(fans) && OnlySetAuto(commands)
    ensures AllAuto(Replay(fans, commands))
  {
    if commands != [] {
      SetAutoKeepsAuto(fans, commands[..|commands| - 1]);
    }
  }

  /** Once a suspension has put the fans in automatic mode, they stay there until the config value
      changes, whatever the sensors and the hardware do. */
  lemma {:induction false} SuspendedFansStayAuto(hw: Hardware, rounds: seq<Round>, more: seq<Round>)
    requires After(hw, rounds).suspended && AllAuto(FansAfter(hw, rounds))
    requires forall i :: 0 <= i < |more| ==> Some(more[i].config) == After(hw, rounds).lastConfig
    ensures AllAuto(FansAfter(hw, rounds + more))
  {
    var extra := SuspendedIsSilent(hw, rounds, more);
    ReplayAppend(NewFans(hw.numFans), Issued(hw, rounds), extra);
    SetAutoKeepsAuto(FansAfter(hw, rounds), extra);
  }

  // ---- Whenever the engine lets go of the fans -------------------------------------------

  /** The engine is not supposed to be in charge: stopped, in Auto mode, or suspended. */
  ghost predicate LetGo(s: State) {
    !s.running || s.mode == Auto || s.suspended
  }

  ghost predicate AutoSucceeds(hw: Hardware, r: Round) {
    forall i :: 0 <= i < hw.numFans ==> Succeeds(hw, r.autoOk, i) && Succeeds(hw, r.stopOk, i)
  }

  /** A round that finds the engine without the fans and leaves it so: Auto mode goes on, or the config
      that was suspended is still in force. */
  predicate StaysOut(st: State, r: Round) {
    && r.wake != Shutdown
    && ((st.mode == Auto && r.config.mode == Auto) || (st.suspended && st.lastConfig == Some(r.config)))
  }

  lemma StayingOutSendsNothing(hw: Hardware, st: State, r: Round)
    requires Coherent(st) && StaysOut(st, r)
    ensures StepCommands(hw, st, r) == []
  {
    AdoptKeepsCoherent(st, r.config);
    assert AdoptCommands(hw, st, r) == [] && ModeCommands(hw, st, r) == [];
  }

  lemma SwitchToAutoCommands(hw: Hardware, st: State, r: Round)
    requires Coherent(st) && r.config.mode == Auto && st.mode != Auto
    ensures AdoptCommands(hw, st, r) + ModeCommands(hw, st, r) == AutoToAll(hw, r.autoOk, hw.numFans)
  {
    AdoptKeepsCoherent(st, r.config);
    assert ModeCommands(hw, st, r) == [];
  }

  lemma SuspendingTicks(hw: Hardware, st: State, r: Round)
    requires Coherent(st) && AfterMode(hw, st, r).suspended && !(st.suspended && st.lastConfig == Some(r.config))
    ensures Ticks(st, r) && Tick(hw, Adopt(st, r.config), r).state.suspended
    ensures AdoptCommands(hw, st, r) + ModeCommands(hw, st, r) == Tick(hw, Adopt(st, r.config), r).commands
  {
    AdoptKeepsCoherent(st, r.config);
    assert !Adopt(st, r.config).suspended;
    assert AdoptCommands(hw, st, r) == [];
  }

  /** What any other round that ends with the engine having let go sends before its wait. */
  lemma LettingGoCommands(hw: Hardware, st: State, r: Round)
    requires Coherent(st) && LetGo(AfterMode(hw, st, r)) && st.running
    requires r.wake != Shutdown && !StaysOut(st, r)
    ensures var acted := AdoptCommands(hw, st, r) + ModeCommands(hw, st, r);
            || acted == AutoToAll(hw, r.autoOk, hw.numFans)
            || (Ticks(st, r) && acted == Tick(hw, Adopt(st, r.config), r).commands
                && Tick(hw, Adopt(st, r.config), r).state.suspended)
  {
    ModeKeepsCoherent(hw, st, r);
    if r.config.mode == Auto {
      SwitchToAutoCommands(hw, st, r);
    } else {
      SuspendingTicks(hw, st, r);
    }
  }

  lemma LettingGoBeforeWait(hw: Hardware, st: State, r: Round, fans: seq<Fan>)
    requires Coherent(st) && st.running && |fans| == hw.numFans && AutoSucceeds(hw, r)
    requires r.wake != Shutdown && LetGo(AfterMode(hw, st, r)) && !StaysOut(st, r)
    ensures AllAuto(Replay(fans, AdoptCommands(hw, st, r) + ModeCommands(hw, st, r)))
  {
    LettingGoCommands(hw, st, r);
    if AdoptCommands(hw, st, r) + ModeCommands(hw, st, r) == AutoToAll(hw, r.autoOk, hw.numFans) {
      AutoReachesAll(hw, fans, r.autoOk, hw.numFans);
    } else {
      AdoptKeepsCoherent(st, r.config);
      TickSends(hw, Adopt(st, r.config), r);
      TickLetsGo(hw, r, Tick(hw, Adopt(st, r.config), r), fans);
    }
  }

  lemma LettingGoSendsAuto(hw: Hardware, st: State, r: Round, fans: seq<Fan>)
    requires Coherent(st) && st.running && |fans| == hw.numFans && AutoSucceeds(hw, r)
    requires LetGo(Step(hw, st, r)) && !StaysOut(st, r)
    ensures AllAuto(Replay(fans, StepCommands(hw, st, r)))
  {
    var acted := AdoptCommands(hw, st, r) + ModeCommands(hw, st, r);
    if r.wake == Shutdown {
      AutoAtTheEnd(hw, fans, acted, r.stopOk);
    } else {
      assert StepCommands(hw, st, r) == acted;
      LettingGoBeforeWait(hw, st, r, fans);
    }
  }

  lemma StepLetsGo(hw: Hardware, st: State, r: Round, fans: seq<Fan>)
    requires Coherent(st) && st.running && |fans| == hw.numFans && AutoSucceeds(hw, r)
    requires LetGo(st) ==> AllAuto(fans)
    requires LetGo(Step(hw, st, r))
    ensures AllAuto(Replay(fans, StepCommands(hw, st, r)))
  {
    if StaysOut(st, r) {
      StayingOutSendsNothing(hw, st, r);
    } else {
      LettingGoSendsAuto(hw, st, r, fans);
    }
  }

  /** As long as `set_auto` itself works, whatever else fails: whenever the engine has stopped, is in
      Auto mode or has suspended the curve, every fan is back in automatic mode. */
  lemma {:induction false} LetGoMeansAutomatic(hw: Hardware, rounds: seq<Round>)
    requires forall i :: 0 <= i < |rounds| ==> AutoSucceeds(hw, rounds[i])
    ensures LetGo(After(hw, rounds)) ==> AllAuto(FansAfter(hw, rounds))
  {
    if rounds != [] {
      var before, r := rounds[..|rounds| - 1], rounds[|rounds| - 1];
      LetGoMeansAutomatic(hw, before);
      ReachableIsCoherent(hw, before);
      assert rounds == before + [r];
      AfterOneMore(hw, before, r);
      var st := After(hw, before);
      if st.running && LetGo(After(hw, rounds)) {
        StepLetsGo(hw, st, r, FansAfter(hw, before));
        ReplayAppend(NewFans(hw.numFans), Issued(hw, before), StepCommands(hw, st, r));
      }
    }
  }
}
