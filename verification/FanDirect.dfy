/** Direct writes of the D-Bus fan methods and of the suspend handler between the engine's rounds
    (tux-daemon/src/dbus/fan.rs, tux-daemon/src/sleep.rs), and what the engine makes of them
    (tux-daemon/src/fan_engine.rs). */
module FanDirect {
  import opened Prelude
  import opened FanCurve
  import opened FanEngineSpec
  import opened FanEngineRuns

  /** A round of the engine, or one attempt on a fan past the engine: `set_fan_speed` writes a duty,
      `set_auto_mode` and a suspend restore automatic mode. The config that `set_fan_speed` sends is the
      next round's. */
  datatype Event = EngineRound(round: Round) | DirectWrite(fan: u8, pwm: u8, ok: bool) | DirectAuto(fan: u8, ok: bool)

  function RoundsOf(events: seq<Event>): seq<Round> {
    if events == [] then []
    else
      var before, last := RoundsOf(events[..|events| - 1]), events[|events| - 1];
      if last.EngineRound? then before + [last.round] else before
  }

  /** The engine does not notice direct attempts. */
  ghost function EngineAfter(hw: Hardware, events: seq<Event>): State {
    After(hw, RoundsOf(events))
  }

  ghost function FansAfterAll(hw: Hardware, events: seq<Event>): (fans: seq<Fan>)
    ensures |fans| == hw.numFans
  {
    if events == [] then NewFans(hw.numFans)
    else
      var before := events[..|events| - 1];
      var fans := FansAfterAll(hw, before);
      match events[|events| - 1]
      case EngineRound(r) =>
        if EngineAfter(hw, before).running then Replay(fans, StepCommands(hw, EngineAfter(hw, before), r)) else fans
      case DirectWrite(f, pwm, ok) => Apply(fans, WritePwm(f, pwm, ok))
      case DirectAuto(f, ok) => Apply(fans, SetAuto(f, ok))
  }

  /** A duty was written to the fan while the engine did not have the fans, and since then nobody put the
      fan back and every round left the engine out. */
  ghost predicate WriteStands(hw: Hardware, events: seq<Event>, i: nat) {
    if events == [] then false
    else
      var before := events[..|events| - 1];
      match events[|events| - 1]
      case EngineRound(r) => WriteStands(hw, before, i) && (!EngineAfter(hw, before).running || StaysOut(EngineAfter(hw, before), r))
      case DirectWrite(f, _, ok) => if f == i && ok then LetGo(EngineAfter(hw, before)) else WriteStands(hw, before, i)
      case DirectAuto(f, ok) => WriteStands(hw, before, i) && !(f == i && ok)
  }

  lemma {:induction false} EngineAfterOneMore(hw: Hardware, events: seq<Event>)
    requires events != []
    ensures var before, last := events[..|events| - 1], events[|events| - 1];
            EngineAfter(hw, events) == if last.EngineRound? && EngineAfter(hw, before).running
                                       then Step(hw, EngineAfter(hw, before), last.round) else EngineAfter(hw, before)
  {
    var before, last := events[..|events| - 1], events[|events| - 1];
    if last.EngineRound? {
      AfterOneMore(hw, RoundsOf(before), last.round);
    }
  }

  /** As long as the engine's own `set_auto` works: whenever the engine has stopped, is in Auto mode or has
      suspended the curve, a fan is in automatic mode exactly unless a direct write to it stands. */
  lemma {:induction false} LetGoFansExactly(hw: Hardware, events: seq<Event>, i: nat)
    requires i < hw.numFans && LetGo(EngineAfter(hw, events))
    requires forall k :: 0 <= k < |events| && events[k].EngineRound? ==> AutoSucceeds(hw, events[k].round)
    ensures FansAfterAll(hw, events)[i] == Fan(0, true) <==> !WriteStands(hw, events, i)
  {
    if events != [] {
      var before, last := events[..|events| - 1], events[|events| - 1];
      var st := EngineAfter(hw, before);
      EngineAfterOneMore(hw, events);
      ReachableIsCoherent(hw, RoundsOf(before));
      if last.EngineRound? && st.running && !StaysOut(st, last.round) {
        LettingGoSendsAuto(hw, st, last.round, FansAfterAll(hw, before));
      } else {
        if last.EngineRound? && st.running {
          StayingOutSendsNothing(hw, st, last.round);
        }
        LetGoFansExactly(hw, before, i);
      }
    }
  }

  // ---- Auto mode -------------------------------------------------------------------------

  ghost predicate InAuto(hw: Hardware, events: seq<Event>) {
    EngineAfter(hw, events).running && EngineAfter(hw, events).mode == Auto
  }

  /** Event `k` wrote a duty to the fan with the engine in Auto mode; since then every round took over an
      Auto config and nobody put the fan back. */
  ghost predicate WrittenInAuto(hw: Hardware, events: seq<Event>, i: nat, k: nat) {
    && k < |events| && events[k].DirectWrite? && events[k].fan == i && events[k].ok && InAuto(hw, events[..k])
    && forall j :: k < j < |events| ==>
         && (events[j].EngineRound? ==> events[j].round.config.mode == Auto)
         && (events[j].DirectAuto? ==> !(events[j].fan == i && events[j].ok))
  }

  lemma WrittenBefore(hw: Hardware, events: seq<Event>, i: nat, k: nat)
    requires events != [] && k < |events| - 1
    ensures WrittenInAuto(hw, events, i, k) <==>
            var last := events[|events| - 1];
            && WrittenInAuto(hw, events[..|events| - 1], i, k)
            && (last.EngineRound? ==> last.round.config.mode == Auto)
            && (last.DirectAuto? ==> !(last.fan == i && last.ok))
  {
    var before := events[..|events| - 1];
    assert before[..k] == events[..k];
    assert forall j :: 0 <= j < |before| ==> before[j] == events[j];
  }

  lemma ModeIsConfigs(hw: Hardware, st: State, r: Round)
    requires Coherent(st)
    ensures Step(hw, st, r).mode == r.config.mode
  {
    ModeKeepsCoherent(hw, st, r);
  }

  /** With Auto configs alone the engine, once in Auto mode, is in it all along. */
  lemma {:induction false} AutoBefore(hw: Hardware, events: seq<Event>, i: nat, k: nat)
    requires WrittenInAuto(hw, events, i, k) && EngineAfter(hw, events).running
    ensures InAuto(hw, events)
  {
    var before, last := events[..|events| - 1], events[|events| - 1];
    EngineAfterOneMore(hw, events);
    ReachableIsCoherent(hw, RoundsOf(before));
    if k < |before| {
      WrittenBefore(hw, events, i, k);
      AutoBefore(hw, before, i, k);
      if last.EngineRound? {
        ModeIsConfigs(hw, EngineAfter(hw, before), last.round);
      }
    }
  }

  /** The last event of a history that ends in Auto mode. */
  lemma {:induction false} LastEventInAuto(hw: Hardware, events: seq<Event>)
    requires events != [] && InAuto(hw, events)
    ensures var before, last := events[..|events| - 1], events[|events| - 1];
            var st := EngineAfter(hw, before);
            && (!last.EngineRound? ==> InAuto(hw, before))
            && (last.EngineRound? ==>
                  st.running && last.round.config.mode == Auto && (StaysOut(st, last.round) <==> InAuto(hw, before)))
  {
    var before, last := events[..|events| - 1], events[|events| - 1];
    EngineAfterOneMore(hw, events);
    ReachableIsCoherent(hw, RoundsOf(before));
    if last.EngineRound? && EngineAfter(hw, before).running {
      ModeIsConfigs(hw, EngineAfter(hw, before), last.round);
    }
  }

  lemma {:induction false} StandingWriteInAuto(hw: Hardware, events: seq<Event>, i: nat) returns (k: nat)
    requires InAuto(hw, events) && WriteStands(hw, events, i)
    ensures WrittenInAuto(hw, events, i, k)
  {
    var n := |events| - 1;
    LastEventInAuto(hw, events);
    if events[n].DirectWrite? && events[n].fan == i && events[n].ok {
      k := n;
    } else {
      k := StandingWriteInAuto(hw, events[..n], i);
      WrittenBefore(hw, events, i, k);
    }
  }

  lemma {:induction false} WrittenInAutoStands(hw: Hardware, events: seq<Event>, i: nat, k: nat)
    requires InAuto(hw, events) && WrittenInAuto(hw, events, i, k)
    ensures WriteStands(hw, events, i)
  {
    var n := |events| - 1;
    LastEventInAuto(hw, events);
    if k < n {
      WrittenBefore(hw, events, i, k);
      AutoBefore(hw, events[..n], i, k);
      WrittenInAutoStands(hw, events[..n], i, k);
    }
  }

  /** In Auto mode a fan is in automatic mode exactly if every direct write to it either met the engine in
      another mode, or was followed by a round that took over a config of another mode, or by a successful
      `set_auto_mode` of that fan. */
  lemma {:induction false} AutoModeFansExactly(hw: Hardware, events: seq<Event>, i: nat)
    requires i < hw.numFans && InAuto(hw, events)
    requires forall k :: 0 <= k < |events| && events[k].EngineRound? ==> AutoSucceeds(hw, events[k].round)
    ensures FansAfterAll(hw, events)[i] == Fan(0, true) <==> !exists k :: WrittenInAuto(hw, events, i, k)
  {
    LetGoFansExactly(hw, events, i);
    if WriteStands(hw, events, i) {
      var _ := StandingWriteInAuto(hw, events, i);
    }
    forall k | WrittenInAuto(hw, events, i, k) ensures WriteStands(hw, events, i) {
      WrittenInAutoStands(hw, events, i, k);
    }
  }

  lemma AfterDirectWrite(hw: Hardware, events: seq<Event>, i: u8, pwm: u8)
    requires i < hw.numFans
    ensures var after := events + [DirectWrite(i, pwm, true)];
            EngineAfter(hw, after) == EngineAfter(hw, events) && FansAfterAll(hw, after)[i] == Fan(pwm, false)
  {
    assert (events + [DirectWrite(i, pwm, true)])[..|events|] == events;
  }

  lemma AfterUnnoticingRound(hw: Hardware, events: seq<Event>, r: Round)
    requires InAuto(hw, events) && r.config.mode == Auto && r.wake != Shutdown
    ensures var after := events + [EngineRound(r)];
            InAuto(hw, after) && FansAfterAll(hw, after) == FansAfterAll(hw, events)
  {
    var after := events + [EngineRound(r)];
    assert after[..|events|] == events;
    EngineAfterOneMore(hw, after);
    ReachableIsCoherent(hw, RoundsOf(events));
    StayingOutSendsNothing(hw, EngineAfter(hw, events), r);
    ModeIsConfigs(hw, EngineAfter(hw, events), r);
  }

  /** In particular `set_fan_speed` and `set_fan_mode("auto")` between two rounds go unnoticed, whatever
      came before: the engine finds Auto mode as it left it, and the fan keeps the written duty. */
  lemma WriteGoesUnnoticed(hw: Hardware, events: seq<Event>, i: u8, pwm: u8, r: Round)
    requires i < hw.numFans && InAuto(hw, events) && r.config.mode == Auto && r.wake != Shutdown
    ensures var after := events + [DirectWrite(i, pwm, true)] + [EngineRound(r)];
            InAuto(hw, after) && FansAfterAll(hw, after)[i] == Fan(pwm, false)
  {
    AfterDirectWrite(hw, events, i, pwm);
    AfterUnnoticingRound(hw, events + [DirectWrite(i, pwm, true)], r);
  }
}
