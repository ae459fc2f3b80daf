/** Laws of fan-curve interpolation for curves of any length, with repeated
    temperatures, descending segments and speeds over the whole `u8` range. */
module FanCurveLaws {
  import opened Prelude
  import opened FanCurve

  // ---- One segment -----------------------------------------------------

  lemma SlopeMonotone(ds: int, x: int, x': int, dt: int)
    requires dt > 0 && ds >= 0 && x <= x'
    ensures Slope(ds, x, dt) <= Slope(ds, x', dt)
  {
    Distribute(x, x' - x, ds);
    ProductNonNegative(x' - x, ds);
    TruncDivMonotone(ds * x, ds * x', dt);
  }

  lemma SlopeRange(ds: int, x: int, dt: int)
    requires 0 <= x <= dt && dt > 0
    ensures ds >= 0 ==> 0 <= Slope(ds, x, dt) <= ds
    ensures ds <= 0 ==> ds <= Slope(ds, x, dt) <= 0
    ensures x == dt ==> Slope(ds, x, dt) == ds
  {
    TruncDivExact(ds, dt);
    if ds >= 0 {
      SlopeMonotone(ds, 0, x, dt);
      SlopeMonotone(ds, x, dt, dt);
    } else {
      SlopeNegate(ds, x, dt);
      SlopeMonotone(-ds, 0, x, dt);
      SlopeMonotone(-ds, x, dt, dt);
      TruncDivExact(-ds, dt);
    }
  }

  /** Truncation toward zero is symmetric, so a descending segment mirrors an ascending one. */
  lemma SlopeNegate(ds: int, x: int, dt: int)
    requires dt > 0
    ensures Slope(-ds, x, dt) == -Slope(ds, x, dt)
  {
    NegateProduct(ds, x);
    assert 0 / dt == 0 by { DivIs(0, dt, 0); }
  }

  /** Raising either end of a segment never lowers a point inside it. */
  lemma SegmentRaise(lo: int, hi: int, lo': int, hi': int, x: int, dt: int)
    requires 0 <= x <= dt && dt > 0 && lo <= lo' && hi <= hi'
    ensures lo + Slope(hi - lo, x, dt) <= lo' + Slope(hi' - lo', x, dt)
  {
    // First the high end, then the low end.
    Distribute(hi - lo, hi' - hi, x);
    ProductNonNegative(hi' - hi, x);
    TruncDivMonotone((hi - lo) * x, (hi' - lo) * x, dt);
    var d := lo' - lo;
    Distribute(hi' - lo', d, x);
    Distribute(x, dt - x, d);
    ProductNonNegative(dt - x, d);
    TruncDivMonotone((hi' - lo) * x, (hi' - lo') * x + d * dt, dt);
    TruncDivShift((hi' - lo') * x, d * dt, d, dt);
  }

  // ---- Which window decides --------------------------------------------

  ghost predicate Interior(curve: seq<Point>, temp: u8) {
    curve != [] && curve[0].temp < temp < curve[|curve| - 1].temp
  }

  /** Window `k` is the first that contains `temp`. */
  ghost predicate FirstWindow(curve: seq<Point>, temp: u8, k: nat) {
    && k + 1 < |curve|
    && Contains(curve[k], curve[k + 1], temp)
    && forall j :: 0 <= j < k ==> !Contains(curve[j], curve[j + 1], temp)
  }

  /** The window that decides an interior temperature. */
  ghost function Bracket(curve: seq<Point>, temp: u8, from: nat): (k: nat)
    requires Sorted(curve) && Interior(curve, temp)
    requires from + 1 < |curve| && curve[from].temp < temp
    requires forall j :: 0 <= j < from ==> !Contains(curve[j], curve[j + 1], temp)
    ensures FirstWindow(curve, temp, k) && curve[k].temp < temp
    decreases |curve| - from
  {
    if temp <= curve[from + 1].temp then from else Bracket(curve, temp, from + 1)
  }

  lemma {:induction false} ScanStopsAtFirst(curve: seq<Point>, temp: u8, from: nat, k: nat)
    requires FirstWindow(curve, temp, k) && from <= k
    ensures ScanWindows(curve, temp, from) == WindowSpeed(curve[k], curve[k + 1], temp)
    decreases k - from
  {
    if from < k {
      ScanStopsAtFirst(curve, temp, from + 1, k);
    }
  }

  /** On a sorted curve an interior temperature is decided by exactly one window, whose
      ends differ in temperature: neither the equal-temperature branch nor the fallback
      after the loop is ever taken. */
  lemma InteriorWindow(curve: seq<Point>, temp: u8) returns (k: nat)
    requires Sorted(curve) && Interior(curve, temp)
    ensures FirstWindow(curve, temp, k)
    ensures curve[k].temp < temp <= curve[k + 1].temp
    ensures forall j :: FirstWindow(curve, temp, j) ==> j == k
    ensures Interpolate(curve, temp) == Clamp(curve[k].speed
                + Slope(curve[k + 1].speed - curve[k].speed, temp - curve[k].temp, curve[k + 1].temp - curve[k].temp), 0, 100)
  {
    k := Bracket(curve, temp, 0);
    ScanStopsAtFirst(curve, temp, 0, k);
  }

  // ---- The straight line ------------------------------------------------

  /** Truncated division is pinned by two inequalities on either side of zero. */
  lemma SlopeIsLinear(ds: int, dx: int, dt: int)
    requires dt > 0 && dx >= 0
    ensures ds >= 0 ==> Slope(ds, dx, dt) * dt <= ds * dx < (Slope(ds, dx, dt) + 1) * dt
    ensures ds <= 0 ==> (Slope(ds, dx, dt) - 1) * dt < ds * dx <= Slope(ds, dx, dt) * dt
  {
    var g := Slope(ds, dx, dt);
    Distribute(g, 1, dt);
    Distribute(g, -1, dt);
    if ds >= 0 {
      ProductNonNegative(ds, dx);
    } else {
      ProductNonNegative(-ds, dx);
      NegateProduct(ds, dx);
      NegateProduct(-(ds * dx) / dt, dt);
    }
  }

  /** Inside a sorted curve the result is the straight line through the two bracketing points, rounded
      to a whole percent towards the lower temperature's speed, and capped at 100. */
  lemma InterpolatesLinearly(curve: seq<Point>, temp: u8) returns (k: nat, line: int)
    requires Sorted(curve) && Interior(curve, temp)
    ensures k + 1 < |curve| && curve[k].temp < temp <= curve[k + 1].temp
    ensures var lo, hi := curve[k], curve[k + 1];
            var ds, dx, dt := hi.speed - lo.speed, temp - lo.temp, hi.temp - lo.temp;
            && (ds >= 0 ==> (line - lo.speed) * dt <= ds * dx < (line - lo.speed + 1) * dt)
            && (ds <= 0 ==> (line - lo.speed - 1) * dt < ds * dx <= (line - lo.speed) * dt)
    ensures Interpolate(curve, temp) == if line > 100 then 100 else line
    ensures SpeedsWithin100(curve) ==> Interpolate(curve, temp) == line
  {
    k := InteriorWindow(curve, temp);
    var lo, hi := curve[k], curve[k + 1];
    var g := Slope(hi.speed - lo.speed, temp - lo.temp, hi.temp - lo.temp);
    line := lo.speed + g;
    SlopeIsLinear(hi.speed - lo.speed, temp - lo.temp, hi.temp - lo.temp);
    SlopeRange(hi.speed - lo.speed, temp - lo.temp, hi.temp - lo.temp);
    assert line - lo.speed == g;
  }

  /** Outside a curve the result is the speed of the nearer end, and of an empty curve full speed. */
  lemma OutsideTheCurve(curve: seq<Point>, temp: u8)
    ensures curve == [] ==> Interpolate(curve, temp) == 100
    ensures curve != [] && temp <= curve[0].temp ==> Interpolate(curve, temp) == curve[0].speed
    ensures curve != [] && curve[0].temp < temp && curve[|curve| - 1].temp <= temp ==>
              Interpolate(curve, temp) == curve[|curve| - 1].speed
  {
  }

  /** On the default curve, between 30 percent at 50 degrees and its neighbours. */
  lemma DefaultCurveExample()
    ensures DEFAULT_CURVE == [Point(0, 0), Point(25, 10), Point(50, 30), Point(75, 70), Point(100, 100)]
    ensures Interpolate(DEFAULT_CURVE, 37) == 19 && Interpolate(DEFAULT_CURVE, 50) == 30 && Interpolate(DEFAULT_CURVE, 60) == 46
  {
    ScanStopsAtFirst(DEFAULT_CURVE, 37, 0, 1);
    ScanStopsAtFirst(DEFAULT_CURVE, 50, 0, 1);
    ScanStopsAtFirst(DEFAULT_CURVE, 60, 0, 2);
  }

  // ---- Range -----------------------------------------------------------

  /** An interior result lies between the two bracketing speeds exactly when the smaller of
      them is at most 100: results inside the curve are clamped to 100, the knots are not. */
  lemma BetweenBracketingSpeeds(curve: seq<Point>, temp: u8, k: nat)
    requires Sorted(curve) && Interior(curve, temp) && FirstWindow(curve, temp, k)
    ensures var a, b := curve[k].speed, curve[k + 1].speed;
            Min(a, b) <= Interpolate(curve, temp) <= Max(a, b) <==> Min(a, b) <= 100
  {
    var j := InteriorWindow(curve, temp);
    SlopeRange(curve[k + 1].speed - curve[k].speed, temp - curve[k].temp, curve[k + 1].temp - curve[k].temp);
  }

  /** At an interior knot the first knot of that temperature is hit, up to the clamp at 100. */
  lemma HitsFirstKnot(curve: seq<Point>, j: nat)
    requires Sorted(curve) && j < |curve| && Interior(curve, curve[j].temp)
    requires forall i :: 0 <= i < j ==> curve[i].temp != curve[j].temp
    ensures Interpolate(curve, curve[j].temp) == Min(curve[j].speed, 100)
  {
    var k := InteriorWindow(curve, curve[j].temp);
    assert k + 1 == j by {
      assert k < j;
      assert !(k + 1 < j);
    }
    SlopeRange(curve[j].speed - curve[k].speed, curve[j].temp - curve[k].temp, curve[j].temp - curve[k].temp);
  }

  // ---- Monotone in temperature -----------------------------------------

  lemma InteriorMonotone(curve: seq<Point>, t: u8, t': u8)
    requires Sorted(curve) && NonDecreasing(curve)
    requires Interior(curve, t) && Interior(curve, t') && t <= t'
    ensures Min(curve[0].speed, 100) <= Interpolate(curve, t) <= Interpolate(curve, t')
    ensures Interpolate(curve, t') <= Min(curve[|curve| - 1].speed, 100)
  {
    var k := InteriorWindow(curve, t);
    var k' := InteriorWindow(curve, t');
    var ds, dt := curve[k + 1].speed - curve[k].speed, curve[k + 1].temp - curve[k].temp;
    var ds', dt' := curve[k' + 1].speed - curve[k'].speed, curve[k' + 1].temp - curve[k'].temp;
    SlopeRange(ds, t - curve[k].temp, dt);
    SlopeRange(ds', t' - curve[k'].temp, dt');
    if k == k' {
      SlopeMonotone(ds, t - curve[k].temp, t' - curve[k].temp, dt);
    } else {
      assert k < k';
      assert curve[k + 1].speed <= curve[k'].speed;
    }
    assert curve[0].speed <= curve[k].speed && curve[k' + 1].speed <= curve[|curve| - 1].speed;
  }

  ghost predicate MonotoneInTemp(curve: seq<Point>) {
    forall t: u8, t': u8 :: t <= t' ==> Interpolate(curve, t) <= Interpolate(curve, t')
  }

  /** Rising speeds do not make the result rise with temperature by themselves: a first speed
      above 100 is returned unclamped below the curve and clamped to 100 inside it. The result
      is monotone exactly when that cannot happen. */
  lemma MonotoneInTempExactly(curve: seq<Point>)
    requires curve != [] && Sorted(curve) && NonDecreasing(curve)
    ensures MonotoneInTemp(curve) <==> curve[0].speed <= 100 || curve[|curve| - 1].temp <= curve[0].temp + 1
  {
    var first, last := curve[0], curve[|curve| - 1];
    if first.speed <= 100 || last.temp <= first.temp + 1 {
      forall t: u8, t': u8 | t <= t'
        ensures Interpolate(curve, t) <= Interpolate(curve, t')
      {
        MonotonePair(curve, t, t');
      }
    } else {
      var t: u8 := first.temp + 1;
      InteriorMonotone(curve, t, t);
      assert Interpolate(curve, first.temp) > Interpolate(curve, t);
    }
  }

  lemma MonotonePair(curve: seq<Point>, t: u8, t': u8)
    requires curve != [] && Sorted(curve) && NonDecreasing(curve) && t <= t'
    requires curve[0].speed <= 100 || curve[|curve| - 1].temp <= curve[0].temp + 1
    ensures Interpolate(curve, t) <= Interpolate(curve, t')
  {
    assert curve[0].speed <= curve[|curve| - 1].speed;
    if Interior(curve, t) && Interior(curve, t') {
      InteriorMonotone(curve, t, t');
    } else if Interior(curve, t) {
      InteriorMonotone(curve, t, t);
    } else if Interior(curve, t') {
      InteriorMonotone(curve, t', t');
    }
  }

  /** The unclamped end speed is reachable: here 10 degrees gives 150 and 15 degrees gives 100. */
  lemma NotMonotoneExample()
    ensures var curve := [Point(10, 150), Point(20, 200)];
            Sorted(curve) && NonDecreasing(curve) && Interpolate(curve, 10) == 150 && Interpolate(curve, 15) == 100
  {
    var curve := [Point(10, 150), Point(20, 200)];
    assert Contains(curve[0], curve[1], 15);
    assert Slope(50, 5, 10) == 25;
    assert ScanWindows(curve, 15, 0) == WindowSpeed(curve[0], curve[1], 15);
  }

  // ---- Monotone in the knots, and mirror symmetry -----------------------

  ghost predicate SameTemps(curve: seq<Point>, curve': seq<Point>) {
    |curve| == |curve'| && forall i :: 0 <= i < |curve| ==> curve[i].temp == curve'[i].temp
  }

  /** Raising any knots of a sorted curve never lowers the result at any temperature. */
  lemma RaisingKnotsNeverLowers(curve: seq<Point>, curve': seq<Point>, temp: u8)
    requires curve != [] && Sorted(curve) && SameTemps(curve, curve')
    requires forall i :: 0 <= i < |curve| ==> curve[i].speed <= curve'[i].speed
    ensures Interpolate(curve, temp) <= Interpolate(curve', temp)
  {
    if Interior(curve, temp) {
      var k := InteriorWindow(curve, temp);
      assert Sorted(curve') && Interior(curve', temp);
      var k' := InteriorWindow(curve', temp);
      assert FirstWindow(curve, temp, k') by { SameWindow(curve', curve, temp, k'); }
      assert k' == k;
      SegmentRaise(curve[k].speed, curve[k + 1].speed, curve'[k].speed, curve'[k + 1].speed,
                   temp - curve[k].temp, curve[k + 1].temp - curve[k].temp);
    }
  }

  lemma SameWindow(curve: seq<Point>, curve': seq<Point>, temp: u8, k: nat)
    requires SameTemps(curve, curve') && FirstWindow(curve, temp, k)
    ensures FirstWindow(curve', temp, k)
  {
    forall j | 0 <= j < k
      ensures !Contains(curve'[j], curve'[j + 1], temp)
    {
      assert !Contains(curve[j], curve[j + 1], temp);
    }
  }

  ghost predicate Mirrored(curve: seq<Point>, curve': seq<Point>) {
    SameTemps(curve, curve') && forall i :: 0 <= i < |curve| ==> curve'[i].speed == 100 - curve[i].speed
  }

  /** Turning a curve of valid speeds upside down turns every result upside down: truncation
      favours neither ascending nor descending segments. */
  lemma MirrorSymmetry(curve: seq<Point>, curve': seq<Point>, temp: u8)
    requires curve != [] && CurveOk(curve) && Mirrored(curve, curve')
    ensures Interpolate(curve', temp) == 100 - Interpolate(curve, temp)
  {
    if Interior(curve, temp) {
      var k := InteriorWindow(curve, temp);
      assert Sorted(curve') && Interior(curve', temp);
      var k' := InteriorWindow(curve', temp);
      assert FirstWindow(curve, temp, k') by { SameWindow(curve', curve, temp, k'); }
      assert k' == k;
      var ds, dx, dt := curve[k + 1].speed - curve[k].speed, temp - curve[k].temp, curve[k + 1].temp - curve[k].temp;
      SlopeNegate(ds, dx, dt);
      SlopeRange(ds, dx, dt);
    }
  }

  // ---- PWM and EC scales ------------------------------------------------

  /** The percent-to-PWM table is strictly increasing up to 100% and covers 0 to 255 exactly. */
  lemma PercentToPwmOrder(p: u8, q: u8)
    ensures p <= q ==> PercentToPwm(p) <= PercentToPwm(q)
    ensures p < q <= 100 ==> PercentToPwm(p) < PercentToPwm(q)
    ensures PercentToPwm(0) == 0 && PercentToPwm(60) == 153
    ensures p >= 100 ==> PercentToPwm(p) == 255
  {
  }

  /** The duty is the percentage's share of 255, rounded to the nearest, half upwards. */
  lemma PercentToPwmRounds(p: u8)
    ensures p <= 100 ==> -50 <= 255 * p - 100 * PercentToPwm(p) < 50
    ensures p > 100 ==> PercentToPwm(p) == 255
  {
  }

  /** The duty a config asks for: the larger of the curve's percentage and the minimum, which is a floor,
      as a rounded share of 255. */
  ghost predicate DutyFor(config: FanConfig, temp: u8, duty: u8) {
    exists p: u8 :: LargerOf(p, Interpolate(config.curve, temp), config.minSpeed) && RoundedShare(p, duty)
  }

  predicate LargerOf(p: int, a: int, b: int) {
    (p == a || p == b) && p >= a && p >= b
  }

  predicate RoundedShare(percent: int, duty: int) {
    if percent > 100 then duty == 255 else -50 <= 255 * percent - 100 * duty < 50
  }

  lemma CurvePwmIsDuty(config: FanConfig, temp: u8)
    ensures DutyFor(config, temp, CurvePwm(config, temp))
  {
    var p: u8 := Max(Interpolate(config.curve, temp), config.minSpeed);
    PercentToPwmRounds(p);
    assert LargerOf(p, Interpolate(config.curve, temp), config.minSpeed) && RoundedShare(p, CurvePwm(config, temp));
  }

  lemma DutyIsUnique(config: FanConfig, temp: u8, duty: u8, duty': u8)
    requires DutyFor(config, temp, duty) && DutyFor(config, temp, duty')
    ensures duty == duty'
  {
    var p: u8 :| LargerOf(p, Interpolate(config.curve, temp), config.minSpeed) && RoundedShare(p, duty);
    var q: u8 :| LargerOf(q, Interpolate(config.curve, temp), config.minSpeed) && RoundedShare(q, duty');
    assert p == q;
  }

  /** The PWM asked for is monotone in temperature for every sorted curve of rising speeds,
      also where the percentage is not: the conversion saturates at 100%. */
  lemma CurvePwmMonotone(config: FanConfig, t: u8, t': u8)
    requires Sorted(config.curve) && NonDecreasing(config.curve) && t <= t'
    ensures CurvePwm(config, t) <= CurvePwm(config, t')
  {
    var curve := config.curve;
    if curve != [] {
      assert Min(Interpolate(curve, t), 100) <= Min(Interpolate(curve, t'), 100) by {
        assert curve[0].speed <= curve[|curve| - 1].speed;
        if Interior(curve, t) && Interior(curve, t') {
          InteriorMonotone(curve, t, t');
        } else if Interior(curve, t) {
          InteriorMonotone(curve, t, t);
        } else if Interior(curve, t') {
          InteriorMonotone(curve, t', t');
        }
      }
    }
  }

  /** The EC scale has two steps per percent and 20 as its lowest speed. It never runs below the requested
      percentage exactly for percentages up to 127: from 128 on, the cast to `u8` wraps and a full-speed
      request becomes a slow one. */
  lemma EcSpeedFaithfulExactly(p: u8)
    ensures EcSpeed(p) >= 2 * p <==> p <= 127
    ensures EcSpeed(p) == if p < 10 then 20 else if p <= 127 then 2 * p else if p < 138 then 20 else 2 * p - 256
  {
    assert (p * 200 + 50) / 100 == 2 * p;
  }

  /** Sixteen zones of seven degrees from 0 on, the last one reaching 115, each sampled at its middle,
      rounded down. */
  lemma ZonesTile(i: nat)
    requires i < 16
    ensures ZoneEnd(i) == if i < 15 then 7 * i + 7 else 115
    ensures 0 <= 7 * i + ZoneEnd(i) - 2 * ZoneMid(i) <= 1
  {
  }

  /** A zone of a sorted curve comes out below the speed asked for exactly if the minimum is 128 or more,
      or its middle lies at or beyond an end of the curve whose speed is. */
  lemma ZoneWrapsExactly(curve: seq<Point>, minSpeed: u8, i: nat)
    requires curve != [] && Sorted(curve) && i < 16
    ensures var mid, first, last := ZoneMid(i), curve[0], curve[|curve| - 1];
            var asked := Max(Interpolate(curve, mid), minSpeed);
            EcSpeed(asked) < 2 * asked <==>
              || minSpeed >= 128
              || (mid <= first.temp && first.speed >= 128)
              || (mid > first.temp && mid >= last.temp && last.speed >= 128)
  {
    var mid: u8 := ZoneMid(i);
    EcSpeedFaithfulExactly(Max(Interpolate(curve, mid), minSpeed));
    if Interior(curve, mid) {
      var k := InteriorWindow(curve, mid);
    }
  }

  /** A curve that asks for 128 percent everywhere gives the EC sixteen zones at its slowest speed, and a
      valid curve with a minimum of 200 percent sixteen zones at 144 of 200. */
  method WrappedZonesExample() returns (byCurve: seq<(u8, u8)>, byMinimum: seq<(u8, u8)>)
    ensures |byCurve| == |byMinimum| == 16
    ensures forall i :: 0 <= i < 16 ==> byCurve[i] == (ZoneEnd(i), 20) && byMinimum[i] == (ZoneEnd(i), 144)
  {
    byCurve := CurveToEcZones([Point(0, 128)], 0);
    byMinimum := CurveToEcZones([Point(0, 50)], 200);
    EcSpeedFaithfulExactly(128);
  }

  /** Zones of a valid config tile 0 to 115 degrees without gaps and their speeds rise with the curve. */
  lemma EcZonesRise(curve: seq<Point>, minSpeed: u8, i: nat, j: nat)
    requires curve != [] && CurveOk(curve) && NonDecreasing(curve) && minSpeed <= 100
    requires i < j < 16
    ensures ZoneEnd(i) <= j * 7 && ZoneEnd(15) == 115 && i * 7 <= ZoneMid(i) < ZoneEnd(i)
    ensures 2 * minSpeed <= EcSpeed(Max(Interpolate(curve, ZoneMid(i)), minSpeed))
    ensures EcSpeed(Max(Interpolate(curve, ZoneMid(i)), minSpeed))
            <= EcSpeed(Max(Interpolate(curve, ZoneMid(j)), minSpeed)) <= 200
  {
    var a, b := ZoneMid(i), ZoneMid(j);
    assert a <= b < 256;
    MonotonePair(curve, a, b);
    WithinHundred(curve, a);
    WithinHundred(curve, b);
    EcSpeedFaithfulExactly(Max(Interpolate(curve, a), minSpeed));
    EcSpeedFaithfulExactly(Max(Interpolate(curve, b), minSpeed));
  }

  lemma WithinHundred(curve: seq<Point>, temp: u8)
    requires CurveOk(curve)
    ensures Interpolate(curve, temp) <= 100
  {
    if Interior(curve, temp) {
      var k := InteriorWindow(curve, temp);
    }
  }
}
