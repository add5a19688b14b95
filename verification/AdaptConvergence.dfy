/** What one step of the controller does while drops are above target: how far the
    level and the integral move, whatever the size of the breach. */
module AdaptConvergence {
  import opened Adapt

  /** Grid steps from a level down to the floor, rounded up. */
  function GridSteps(level: real): int { -(20.0 - level * 20.0).Floor }

  predicate IntensityInRange(intensity: int) { -20 <= intensity <= 20 }

  /** The least an integral falls in a breached tick: what accumulates, less what the
      back-calculation at the floor can give back of the proportional term. */
  function Descent(intensity: int, tickSeconds: real, holdBand: real): real {
    (0.99 * KI * tickSeconds - K_BACK * KP * LowerFactor(intensity)) * holdBand
  }

  function Max(x: real, y: real): real { if x < y then y else x }

  /** Multiples of a positive quantity grow with it. */
  lemma Scaled(slope: real, x: real, y: real)
    requires slope >= 0.0 && x <= y
    ensures slope * x <= slope * y
  {}

  lemma LowerFactorRange(intensity: int)
    requires IntensityInRange(intensity)
    ensures 0.8 <= LowerFactor(intensity) <= 1.2
  {}

  /** The products of a tick, with f the lowering factor, t its length and e an error. */
  lemma Products(f: real, t: real, e: real)
    requires 0.8 <= f <= 1.2 && t >= 1.0 && e >= 0.0
    ensures t * e >= e && 0.0 <= 0.8 * e <= f * e <= 1.2 * e
  {
    Scaled(e, 1.0, t);
    Scaled(e, 0.8, f);
    Scaled(e, f, 1.2);
  }

  /** A descent written out. */
  lemma DescentSum(intensity: int, tickSeconds: real, holdBand: real)
    ensures Descent(intensity, tickSeconds, holdBand) ==
            0.00495 * (tickSeconds * holdBand) - 0.0005 * (LowerFactor(intensity) * holdBand)
  {}

  lemma DescentPositive(intensity: int, tickSeconds: real, holdBand: real)
    requires IntensityInRange(intensity) && tickSeconds >= 1.0 && holdBand > 0.0
    ensures Descent(intensity, tickSeconds, holdBand) > 0.0
  {
    LowerFactorRange(intensity);
    Products(LowerFactor(intensity), tickSeconds, holdBand);
    DescentSum(intensity, tickSeconds, holdBand);
    MostlyTick(tickSeconds * holdBand, LowerFactor(intensity) * holdBand, holdBand);
  }

  lemma MostlyTick(a: real, b: real, hold: real)
    requires a >= hold > 0.0 && b <= 1.2 * hold
    ensures 0.00495 * a - 0.0005 * b > 0.0
  {}

  /** Back-calculation at the floor, with p and k the proportional term and the
      accumulated error of the tick. */
  lemma FloorGivesBackLittle(level: real, i: real, p: real, k: real)
    requires level >= 1.0 && level + p + (i + k) < 1.0
    ensures (i + k) + K_BACK * (1.0 - (level + p + (i + k))) <= 0.99 * i + 0.99 * k - 0.01 * p
  {}

  /** Both terms down, the integral sure to lose d or more. */
  predicate TermsDown(p: real, k: real, d: real) {
    p < 0.0 && k < 0.0 && 0.0 <= d <= -k && 0.99 * k - 0.01 * p <= -d
  }

  function DescentOf(x: AdaptInput): real { Descent(x.intensity, TickSeconds(x), HoldBand(x)) }

  /** The two terms of a breached tick. */
  lemma BreachTerms(x: AdaptInput, err: real)
    requires IntensityInRange(x.intensity) && TickSeconds(x) >= 1.0 && err < -HoldBand(x)
    ensures TermsDown(PTerm(x, err), Accumulated(x, err), DescentOf(x))
  {
    LowerFactorRange(x.intensity);
    TermArithmetic(LowerFactor(x.intensity), TickSeconds(x), HoldBand(x), -err);
    DescentSum(x.intensity, TickSeconds(x), HoldBand(x));
    assert PTerm(x, err) == -(0.05 * (LowerFactor(x.intensity) * -err));
    assert Accumulated(x, err) == -(0.005 * (TickSeconds(x) * -err));
  }

  lemma TermArithmetic(f: real, t: real, hold: real, e: real)
    requires 0.8 <= f <= 1.2 && t >= 1.0 && 0.0 < hold < e
    ensures TermsDown(-(0.05 * (f * e)), -(0.005 * (t * e)), 0.00495 * (t * hold) - 0.0005 * (f * hold))
  {
    Products(f, t, hold);
    Products(f, t, e);
    Products(f, t, e - hold);
    assert t * (e - hold) == t * e - t * hold;
    assert f * (e - hold) == f * e - f * hold;
  }

  /** What a breached tick does from level and integral i: an integral above zero falls
      by d or to its clamp, one at zero or below stays there, and falls by as much
      unless the floor is reached; the floor is not left again; and from -0.025 on the
      level goes down a grid step. */
  predicate Descends(level: real, i: real, d: real, m: Move) {
    var lower := Max(-INTEGRAL_MAX, i - d);
    && (i > 0.0 ==> m.integral <= lower)
    && (i <= 0.0 ==> m.integral <= 0.0 && (m.level == LEVEL_FLOOR || m.integral <= lower))
    && (i <= 0.0 && level == LEVEL_FLOOR ==> m.level == LEVEL_FLOOR)
    && (i <= -0.025 ==> m.level == LEVEL_FLOOR || GridSteps(m.level) < GridSteps(level))
  }

  /** A move with both terms down, p and k the proportional term and the accumulated
      error. */
  lemma MoveDown(level: real, ceil: real, i: real, p: real, k: real, d: real)
    requires LEVEL_FLOOR <= level <= ceil && Abs(i) <= INTEGRAL_MAX
    requires TermsDown(p, k, d)
    ensures Descends(level, i, d, PiMove(level, ceil, p, i + k))
  {
    var unclamped := level + p + (i + k);
    if unclamped < LEVEL_FLOOR {
      FloorGivesBackLittle(level, i, p, k);
      assert Quantize(LEVEL_FLOOR) == LEVEL_FLOOR;
    } else {
      var clamped := Clamp(unclamped, LEVEL_FLOOR, ceil);
      if i <= -0.025 {
        StepsDown(level, clamped, ceil);
      }
    }
  }

  /** One breached tick. */
  lemma BreachStep(x: AdaptInput, err: real, ceil: real, level: real)
    requires LEVEL_FLOOR <= level <= ceil && Abs(x.lastIntegral) <= INTEGRAL_MAX
    requires IntensityInRange(x.intensity) && TickSeconds(x) >= 1.0 && err < -HoldBand(x)
    ensures
      var out := PiStep(x, err, ceil, level);
      Descends(level, x.lastIntegral, DescentOf(x), Move(out.newLevel, out.newIntegral))
  {
    BreachTerms(x, err);
    MoveDown(level, ceil, x.lastIntegral, PTerm(x, err), Accumulated(x, err), DescentOf(x));
  }

  /** Moving down by more than half a grid step takes a grid step off. */
  lemma StepsDown(level: real, clamped: real, ceil: real)
    requires LEVEL_FLOOR <= clamped <= ceil && level <= ceil && clamped < level - 0.025
    ensures GridSteps(Clamp(Quantize(clamped), LEVEL_FLOOR, ceil)) < GridSteps(level)
  {
    RoundHalfNearest(clamped * 20.0);
    QuantizeMonotonic(LEVEL_FLOOR, clamped);
    assert Quantize(LEVEL_FLOOR) == LEVEL_FLOOR;
    var n := RoundHalf(clamped * 20.0);
    assert n as real < level * 20.0;
    assert Quantize(clamped) * 20.0 == n as real;
    assert Clamp(Quantize(clamped), LEVEL_FLOOR, ceil) == Quantize(clamped);
    assert GridSteps(Quantize(clamped)) == n - 20;
  }

  /** One over-target tick of the hard limit takes at least three grid steps off. */
  lemma HardStep(x: AdaptInput, target: real, ceil: real, level: real)
    requires LEVEL_FLOOR <= level <= ceil && IntensityInRange(x.intensity) && x.dropPct >= target
    ensures
      var out := HardLimit(x, target, ceil, level);
      out.newLevel == LEVEL_FLOOR || GridSteps(out.newLevel) <= GridSteps(level) - 3
  {
    assert 0.8 <= LowerFactor(x.intensity) <= 1.2;
    var lowered := level - STEP_DOWN_HARD * LowerFactor(x.intensity);
    assert lowered <= level - 0.16;
    if lowered < LEVEL_FLOOR {
      assert Quantize(LEVEL_FLOOR) == LEVEL_FLOOR;
    } else {
      RoundHalfNearest(lowered * 20.0);
      QuantizeMonotonic(LEVEL_FLOOR, lowered);
      assert Quantize(LEVEL_FLOOR) == LEVEL_FLOOR;
      var n := RoundHalf(lowered * 20.0);
      assert Quantize(lowered) * 20.0 == n as real;
      assert GridSteps(Quantize(lowered)) == n - 20;
    }
  }

  lemma GridStepsMonotonic(a: real, b: real)
    requires a <= b
    ensures GridSteps(a) <= GridSteps(b)
    ensures a > LEVEL_FLOOR <==> GridSteps(a) > 0
  {}
}
