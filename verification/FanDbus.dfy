/** The D-Bus fan interface's manual setpoints (tux-daemon/src/dbus/fan.rs) and what the
    engine's Manual mode makes of them. */
module FanDbus {
  import opened Prelude
  import opened FanCurve
  import opened FanEngineSpec
  import opened FanEngine
  import opened FanEngineRuns

  const UNSET_DUTY: u8 := 128

  /** Grows the vector so that `fan` has an entry, then overwrites that entry. */
  function Recorded(setpoints: seq<u8>, fan: u8, pwm: u8): seq<u8> {
    var grown := if |setpoints| < fan + 1 then setpoints + seq(fan + 1 - |setpoints|, _ => UNSET_DUTY) else setpoints;
    grown[fan := pwm]
  }

  datatype Reply = Done | InvalidArgs | WriteFailed

  class FanInterface {
    const backend: FanBackend
    var setpoints: seq<u8>
    var mode: FanMode

    constructor (backend: FanBackend, mode: FanMode)
      ensures this.backend == backend && setpoints == [] && this.mode == mode
    {
      this.backend, this.mode, setpoints := backend, mode, [];
    }

    /** `set_fan_speed`: an index that is no `u8` changes nothing; any other switches to Manual and
        records the setpoint before the write is tried, also for a fan that does not exist. */
    method SetFanSpeed(fanIndex: nat, pwm: u8, ok: bool) returns (reply: Reply)
      requires backend.Valid()
      modifies this, backend, backend.pwm, backend.auto
      ensures backend.Valid()
      ensures fanIndex >= 256 ==> reply == InvalidArgs && setpoints == old(setpoints) && mode == old(mode)
                                  && backend.issued == old(backend.issued)
      ensures fanIndex < 256 ==> mode == Manual && setpoints == Recorded(old(setpoints), fanIndex, pwm)
      ensures fanIndex < 256 ==> var written := fanIndex < backend.numFans && ok;
                && backend.issued == old(backend.issued) + [Command.WritePwm(fanIndex, pwm, written)]
                && reply == if written then Done else WriteFailed
    {
      if fanIndex >= 256 { return InvalidArgs; }
      mode := Manual;
      var needed := fanIndex + 1;
      if |setpoints| < needed {
        setpoints := setpoints + seq(needed - |setpoints|, _ => UNSET_DUTY);
      }
      setpoints := setpoints[fanIndex := pwm];
      var written := backend.WritePwm(fanIndex, pwm, ok);
      reply := if written then Done else WriteFailed;
    }
  }

  // ---- Over any sequence of calls -----------------------------------------

  datatype Call = Call(fan: u8, pwm: u8)

  function Setpoints(calls: seq<Call>): seq<u8> {
    if calls == [] then []
    else Recorded(Setpoints(calls[..|calls| - 1]), calls[|calls| - 1].fan, calls[|calls| - 1].pwm)
  }

  /** Call `k` is the last one for its fan. */
  ghost predicate LastCallFor(calls: seq<Call>, k: nat, fan: nat) {
    k < |calls| && calls[k].fan == fan && forall j :: k < j < |calls| ==> calls[j].fan != fan
  }

  /** The vector reaches just past the highest fan asked for and holds, per fan, the duty of the last
      call for it, or 128 where no call named the fan. */
  lemma {:induction false} SetpointsRememberLastCalls(calls: seq<Call>)
    ensures |Setpoints(calls)| <= 256
    ensures forall k :: 0 <= k < |calls| ==> calls[k].fan < |Setpoints(calls)|
    ensures calls != [] ==> exists k :: 0 <= k < |calls| && calls[k].fan + 1 == |Setpoints(calls)|
    ensures forall k: nat, fan: nat :: LastCallFor(calls, k, fan) ==> Setpoints(calls)[fan] == calls[k].pwm
    ensures forall fan :: 0 <= fan < |Setpoints(calls)| && (forall k :: 0 <= k < |calls| ==> calls[k].fan != fan) ==>
              Setpoints(calls)[fan] == 128
  {
    if calls != [] {
      var before, last := calls[..|calls| - 1], calls[|calls| - 1];
      SetpointsRememberLastCalls(before);
      assert Setpoints(calls) == Recorded(Setpoints(before), last.fan, last.pwm);
      forall k: nat, fan: nat | LastCallFor(calls, k, fan)
        ensures fan < |Setpoints(calls)| && Setpoints(calls)[fan] == calls[k].pwm
      {
        if k < |before| {
          assert LastCallFor(before, k, fan);
        }
      }
      if |Setpoints(calls)| == last.fan + 1 {
        assert calls[|calls| - 1].fan + 1 == |Setpoints(calls)|;
      } else {
        var k :| 0 <= k < |before| && before[k].fan + 1 == |Setpoints(before)|;
        assert calls[k].fan + 1 == |Setpoints(calls)|;
      }
      forall fan | 0 <= fan < |Setpoints(calls)| && forall k :: 0 <= k < |calls| ==> calls[k].fan != fan
        ensures Setpoints(calls)[fan] == UNSET_DUTY
      {
        assert calls[|calls| - 1].fan != fan;
        assert forall k :: 0 <= k < |before| ==> before[k] == calls[k];
      }
    }
  }

  /** The first `k` entries have reached their fans; the other fans are as before. */
  ghost predicate Reached(before: seq<Fan>, after: seq<Fan>, pwms: seq<u8>, k: nat)
    requires k <= |pwms|
  {
    |after| == |before| && forall i :: 0 <= i < |after| ==> after[i] == if i < k then Fan(pwms[i], false) else before[i]
  }

  lemma ReachOneMore(before: seq<Fan>, after: seq<Fan>, pwms: seq<u8>, k: u8)
    requires k < |pwms| && Reached(before, after, pwms, k)
    ensures Reached(before, Apply(after, WritePwm(k, pwms[k], k < |before|)), pwms, k + 1)
  {
  }

  lemma ManualWritesOneMore(hw: Hardware, pwms: seq<u8>, oks: seq<bool>, k: u8)
    requires k < |pwms|
    requires forall i :: 0 <= i < hw.numFans ==> Succeeds(hw, oks, i)
    ensures ManualWrites(hw, pwms, oks, k + 1) == ManualWrites(hw, pwms, oks, k) + [WritePwm(k, pwms[k], k < hw.numFans)]
  {
    assert k % 256 == k;
  }

  lemma {:induction false} ManualWritesReach(hw: Hardware, fans: seq<Fan>, pwms: seq<u8>, oks: seq<bool>, k: nat)
    requires |fans| == hw.numFans && k <= |pwms| <= 256
    requires forall i :: 0 <= i < hw.numFans ==> Succeeds(hw, oks, i)
    ensures Reached(fans, Replay(fans, ManualWrites(hw, pwms, oks, k)), pwms, k)
  {
    if k > 0 {
      var i: u8 := k - 1;
      ManualWritesReach(hw, fans, pwms, oks, i);
      ManualWritesOneMore(hw, pwms, oks, i);
      ReplayOneMore(fans, ManualWrites(hw, pwms, oks, i), WritePwm(i, pwms[i], i < hw.numFans));
      ReachOneMore(fans, Replay(fans, ManualWrites(hw, pwms, oks, i)), pwms, i);
    }
  }

  /** One Manual round on a re-applying backend undoes whatever the firmware did to the fans since:
      every fan that was ever asked for is back at the duty of the last call for it. */
  lemma ManualRoundRestoresRequests(hw: Hardware, st: State, r: Round, calls: seq<Call>, fans: seq<Fan>, k: nat, fan: nat)
    requires hw.reapply && r.config.mode == Manual && r.manualPwms == Setpoints(calls)
    requires |fans| == hw.numFans && fan < hw.numFans && LastCallFor(calls, k, fan)
    requires forall i :: 0 <= i < hw.numFans ==> Succeeds(hw, r.writeOk, i)
    ensures Replay(fans, ModeCommands(hw, st, r))[fan] == Fan(calls[k].pwm, false)
  {
    SetpointsRememberLastCalls(calls);
    ManualWritesReach(hw, fans, r.manualPwms, r.writeOk, |r.manualPwms|);
  }
}
