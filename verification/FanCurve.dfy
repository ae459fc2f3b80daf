/** Fan curves (tux-core/src/fan_curve.rs): validation, integer piecewise-linear
    interpolation, and the conversions to the PWM and EC scales. */
module FanCurve {
  import opened Prelude

  datatype Point = Point(temp: u8, speed: u8)

  datatype FanMode = Auto | Manual | CustomCurve

  datatype FanConfig = FanConfig(mode: FanMode, minSpeed: u8, curve: seq<Point>,
                                 activePollMs: nat, idlePollMs: nat, hysteresis: u8)

  /** The curve and the minimum of `FanConfig::default()`. */
  const DEFAULT_CURVE := [Point(0, 0), Point(25, 10), Point(50, 30), Point(75, 70), Point(100, 100)]
  const DEFAULT_MIN_SPEED: u8 := 25

  const MIN_POLL_MS := 10
  const SAFETY_FALLBACK_SPEED: u8 := 100

  // ---- Validation ------------------------------------------------------

  ghost predicate Sorted(curve: seq<Point>) {
    forall i, j :: 0 <= i < j < |curve| ==> curve[i].temp <= curve[j].temp
  }

  ghost predicate NonDecreasing(curve: seq<Point>) {
    forall i, j :: 0 <= i < j < |curve| ==> curve[i].speed <= curve[j].speed
  }

  ghost predicate SpeedsWithin100(curve: seq<Point>) {
    forall i :: 0 <= i < |curve| ==> curve[i].speed <= 100
  }

  /** What `validate` asks of the points alone. */
  ghost predicate CurveOk(curve: seq<Point>) {
    SpeedsWithin100(curve) && Sorted(curve)
  }

  datatype ConfigError = ActivePollTooLow | IdlePollTooLow | MinSpeedTooHigh | SpeedTooHigh | NotSorted

  /** The loops of `validate`: speeds first, then neighbouring temperatures. */
  method Validate(config: FanConfig) returns (error: Option<ConfigError>)
    ensures error == if config.activePollMs < 10 then Some(ActivePollTooLow)
                     else if config.idlePollMs < 10 then Some(IdlePollTooLow)
                     else if config.minSpeed > 100 then Some(MinSpeedTooHigh)
                     else if !SpeedsWithin100(config.curve) then Some(SpeedTooHigh)
                     else if !Sorted(config.curve) then Some(NotSorted)
                     else None
  {
    if config.activePollMs < MIN_POLL_MS { return Some(ActivePollTooLow); }
    if config.idlePollMs < MIN_POLL_MS { return Some(IdlePollTooLow); }
    if config.minSpeed > 100 { return Some(MinSpeedTooHigh); }
    for i := 0 to |config.curve|
      invariant SpeedsWithin100(config.curve[..i])
    {
      if config.curve[i].speed > 100 { return Some(SpeedTooHigh); }
    }
    assert config.curve[..|config.curve|] == config.curve;
    var k := 0;
    while k + 1 < |config.curve|
      invariant 0 <= k <= |config.curve|
      invariant k < |config.curve| || config.curve == []
      invariant forall i, j :: 0 <= i < j <= k < |config.curve| ==> config.curve[i].temp <= config.curve[j].temp
    {
      if config.curve[k + 1].temp < config.curve[k].temp { return Some(NotSorted); }
      k := k + 1;
    }
    return None;
  }

  // ---- Interpolation ---------------------------------------------------

  /** The speed gained `dx` degrees into a segment of `dt` degrees that rises by `ds`. */
  function Slope(ds: int, dx: int, dt: int): int
    requires dt > 0
  {
    TruncDiv(ds * dx, dt)
  }

  predicate Contains(lo: Point, hi: Point, temp: u8) {
    lo.temp <= temp <= hi.temp
  }

  /** The result inside one window of two neighbouring points. */
  function WindowSpeed(lo: Point, hi: Point, temp: u8): u8
    requires Contains(lo, hi, temp)
  {
    if hi.temp == lo.temp then hi.speed
    else Clamp(lo.speed + Slope(hi.speed - lo.speed, temp - lo.temp, hi.temp - lo.temp), 0, 100)
  }

  /** The first window at or after `k` that contains `temp` decides. */
  function ScanWindows(curve: seq<Point>, temp: u8, k: nat): u8
    decreases |curve| - k
  {
    if k + 1 >= |curve| then SAFETY_FALLBACK_SPEED
    else if Contains(curve[k], curve[k + 1], temp) then WindowSpeed(curve[k], curve[k + 1], temp)
    else ScanWindows(curve, temp, k + 1)
  }

  /** `interpolate` as a function of the curve; its laws are in `FanCurveLaws`. */
  function Interpolate(curve: seq<Point>, temp: u8): u8 {
    if curve == [] then SAFETY_FALLBACK_SPEED
    else if temp <= curve[0].temp then curve[0].speed
    else if temp >= curve[|curve| - 1].temp then curve[|curve| - 1].speed
    else ScanWindows(curve, temp, 0)
  }

  /** The source's window loop with its early return. */
  method InterpolateByLoop(curve: seq<Point>, temp: u8) returns (speed: u8)
    ensures speed == Interpolate(curve, temp)
  {
    if |curve| == 0 { return SAFETY_FALLBACK_SPEED; }
    if temp <= curve[0].temp { return curve[0].speed; }
    var last := curve[|curve| - 1];
    if temp >= last.temp { return last.speed; }
    for k := 0 to |curve| - 1
      invariant ScanWindows(curve, temp, 0) == ScanWindows(curve, temp, k)
    {
      var lo, hi := curve[k], curve[k + 1];
      if lo.temp <= temp && temp <= hi.temp {
        if hi.temp == lo.temp { return hi.speed; }
        var result := lo.speed + TruncDiv((hi.speed - lo.speed) * (temp - lo.temp), hi.temp - lo.temp);
        return Clamp(result, 0, 100);
      }
    }
    return SAFETY_FALLBACK_SPEED;
  }

  // ---- Scale conversions ----------------------------------------------

  /** Percent to PWM, rounding to nearest; percentages above 100 count as 100. */
  function PercentToPwm(percent: u8): u8 {
    (Min(percent, 100) * 255 + 50) / 100
  }

  /** The PWM that a config asks for at a temperature. */
  function CurvePwm(config: FanConfig, temp: u8): u8 {
    PercentToPwm(Max(Interpolate(config.curve, temp), config.minSpeed))
  }

  /** Percent to the EC's 0..200 scale; the cast to `u8` wraps. */
  function EcSpeed(percent: u8): u8 {
    Max(((percent * 200 + 50) / 100) % 256, 20)
  }

  function ZoneEnd(i: nat): nat {
    if i == 15 then 115 else (i + 1) * 7
  }

  function ZoneMid(i: nat): nat {
    i * 7 + (ZoneEnd(i) - i * 7) / 2
  }

  /** The counted loop of `curve_to_ec_zones`. */
  method CurveToEcZones(curve: seq<Point>, minSpeed: u8) returns (zones: seq<(u8, u8)>)
    ensures curve == [] ==> zones == [(115, 200)]
    ensures curve != [] ==> |zones| == 16
    ensures curve != [] ==> forall i :: 0 <= i < 16 ==>
              zones[i] == (ZoneEnd(i), EcSpeed(Max(Interpolate(curve, ZoneMid(i)), minSpeed)))
  {
    if curve == [] { return [(115, 200)]; }
    zones := [];
    for i := 0 to 16
      invariant |zones| == i
      invariant forall j :: 0 <= j < i ==>
                  zones[j] == (ZoneEnd(j), EcSpeed(Max(Interpolate(curve, ZoneMid(j)), minSpeed)))
    {
      var endTemp := if i == 15 then 115 else (i + 1) * 7;
      var startTemp := i * 7;
      var midTemp := startTemp + (endTemp - startTemp) / 2;
      var speed := InterpolateByLoop(curve, midTemp);
      zones := zones + [(endTemp, EcSpeed(Max(speed, minSpeed)))];
    }
  }
}
