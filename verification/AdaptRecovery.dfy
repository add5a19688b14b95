/** What runs of the controller do while drops stay below target: every mode brings the
    level to the maximum, and holds it there. */
module AdaptRecovery {
  import opened Wrappers
  import opened Adapt
  import opened AdaptConvergence
  import opened AdaptExact
  import opened AdaptLoop

  // ------------------------------------------------------------------ the hard limit

  /** Drops below target, without a hold band. */
  predicate AllUnder(cfg: Config, s: State, events: seq<Event>)
    requires TargetsDefined(cfg)
    decreases |events|
  {
    events != [] ==>
      && events[0].Tick? && AdaptLoop.ErrorOf(cfg, s, events[0].gauge, events[0].now) > 0.0
      && AllUnder(cfg, Step(cfg, s, events[0]), events[1..])
  }

  function Lower(x: real, y: real): real { if x < y then x else y }

  lemma UnderTargetTick(cfg: Config, s: State, e: Event)
    requires Loaded(cfg) && cfg.mode == AdaptHard && Warm(cfg, s) && e.Tick?
    requires AdaptLoop.ErrorOf(cfg, s, e.gauge, e.now) > 0.0 && OnGrid(Level(s)) && OnGrid(cfg.maxLevel)
    ensures
      var t := Step(cfg, s, e);
      Warm(cfg, t) && Level(t) == Lower(cfg.maxLevel, Level(s) + 0.05) && OnGrid(Level(t))
  {
    WarmTick(cfg, s, e);
    UnderTargetStep(InputOf(cfg, s, e.gauge, e.now), cfg.adaptiveDropPct, cfg.maxLevel, Level(s));
  }

  /** Recovery of the hard limit: n ticks below the target bring a level on the grid up n
      grid steps, as far as the maximum. */
  lemma {:induction false} UnderTargetRises(cfg: Config, s: State, events: seq<Event>)
    requires Loaded(cfg) && cfg.mode == AdaptHard && Warm(cfg, s) && AllUnder(cfg, s, events)
    requires OnGrid(Level(s)) && OnGrid(cfg.maxLevel)
    ensures
      var t := Run(cfg, s, events);
      t.pace.Some? && Level(t) == Lower(cfg.maxLevel, Level(s) + 0.05 * |events| as real)
    decreases |events|
  {
    if events != [] {
      UnderTargetTick(cfg, s, events[0]);
      UnderTargetRises(cfg, Step(cfg, s, events[0]), events[1..]);
      OneStepMore(Level(s), |events|);
    }
  }

  lemma OneStepMore(level: real, n: nat)
    requires n > 0
    ensures level + 0.05 + 0.05 * (n - 1) as real == level + 0.05 * n as real
  {}

  // -------------------------------------------------------------------- the PI modes

  /** The highest level that quantizing leaves: the maximum itself, or the grid point just
      below it. */
  function Top(ceil: real): real { Lower(ceil, Quantize(ceil)) }

  lemma TopAllowed(ceil: real)
    requires 1.0 <= ceil
    ensures 1.0 <= Top(ceil) <= ceil && Top(ceil) == Clamp(Quantize(ceil), 1.0, ceil)
    ensures OnGrid(ceil) ==> Top(ceil) == ceil
    ensures Quantize(Top(ceil)) == Quantize(ceil)
  {
    QuantizeMonotonic(1.0, ceil);
    assert Quantize(1.0) == 1.0;
    QuantizeNearest(ceil);
  }

  /** Grid points up to a level. */
  function GridAt(level: real): int { (level * 20.0).Floor }

  /** What a tick below the target does from level and integral i: an integral below zero
      rises by d or to its clamp, one at zero or above stays there, and rises by as much
      unless the top is reached; the top is not left again; and from 0.025 on the level
      goes up a grid point. */
  predicate Ascends(ceil: real, level: real, i: real, d: real, m: Move) {
    var upper := Lower(0.5, i + d);
    && (i < 0.0 ==> m.integral >= upper)
    && (i >= 0.0 ==> m.integral >= 0.0 && (m.level == Top(ceil) || m.integral >= upper))
    && (i >= 0.0 && level == Top(ceil) ==> m.level == Top(ceil))
    && (i >= 0.025 ==> m.level == Top(ceil) || GridAt(m.level) > GridAt(level))
  }

  /** Both terms up, the integral sure to gain d or more. */
  predicate TermsUp(p: real, k: real, d: real) {
    p > 0.0 && k > 0.0 && 0.0 <= d <= k && 0.99 * k - 0.01 * p >= d
  }

  lemma CeilingGivesBackLittle(ceil: real, level: real, i: real, p: real, k: real)
    requires level <= ceil && level + p + (i + k) > ceil
    ensures (i + k) + 0.01 * (ceil - (level + p + (i + k))) >= 0.99 * i + 0.99 * k - 0.01 * p
  {}

  /** A move cut off at the maximum. */
  lemma MoveCut(ceil: real, level: real, i: real, p: real, k: real, d: real)
    requires 1.0 <= level <= ceil && Abs(i) <= 0.5 && TermsUp(p, k, d) && level + p + (i + k) > ceil
    ensures Ascends(ceil, level, i, d, PiMove(level, ceil, p, i + k))
  {
    CeilingGivesBackLittle(ceil, level, i, p, k);
    TopAllowed(ceil);
  }

  lemma RoundedAbove(level: real, u: real)
    requires 1.0 <= level && level + 0.025 < u
    ensures GridAt(Quantize(u)) > GridAt(level)
  {
    RoundHalfNearest(u * 20.0);
    var n := RoundHalf(u * 20.0);
    assert n as real > level * 20.0;
    assert Quantize(u) * 20.0 == n as real;
  }

  lemma StepsUp(ceil: real, level: real, u: real)
    requires 1.0 <= level && level + 0.025 < u <= ceil
    ensures
      var after := Clamp(Quantize(u), 1.0, ceil);
      after == Top(ceil) || GridAt(after) > GridAt(level)
  {
    RoundedAbove(level, u);
    QuantizeMonotonic(1.0, u);
    QuantizeMonotonic(u, ceil);
    assert Quantize(1.0) == 1.0;
  }

  lemma TopKept(ceil: real, u: real)
    requires 1.0 <= Top(ceil) < u <= ceil
    ensures Clamp(Quantize(u), 1.0, ceil) == Top(ceil)
  {
    TopAllowed(ceil);
    QuantizeMonotonic(Top(ceil), u);
    QuantizeMonotonic(u, ceil);
  }

  lemma MoveUp(ceil: real, level: real, i: real, p: real, k: real, d: real)
    requires 1.0 <= level <= ceil && Abs(i) <= 0.5 && TermsUp(p, k, d)
    ensures Ascends(ceil, level, i, d, PiMove(level, ceil, p, i + k))
  {
    var u := level + p + (i + k);
    if u > ceil {
      MoveCut(ceil, level, i, p, k, d);
    } else {
      TopAllowed(ceil);
      if i >= 0.0 && level == Top(ceil) {
        TopKept(ceil, u);
      }
      if i >= 0.025 {
        StepsUp(ceil, level, u);
      }
    }
  }

  lemma TermsMirror(p: real, k: real, d: real)
    requires TermsDown(-p, -k, d)
    ensures TermsUp(p, k, d)
  {}

  /** The least an integral rises in a tick above the band: as much as it falls at the
      opposite intensity. */
  function AscentOf(x: AdaptInput): real { Descent(-x.intensity, Adapt.TickSeconds(x), HoldBand(x)) }

  lemma UnderTerms(x: AdaptInput, err: real)
    requires IntensityInRange(x.intensity) && Adapt.TickSeconds(x) >= 1.0 && err > HoldBand(x)
    ensures TermsUp(PTerm(x, err), Accumulated(x, err), AscentOf(x))
  {
    LowerFactorRange(-x.intensity);
    TermArithmetic(LowerFactor(-x.intensity), Adapt.TickSeconds(x), HoldBand(x), err);
    DescentSum(-x.intensity, Adapt.TickSeconds(x), HoldBand(x));
    assert PTerm(x, err) == 0.05 * (LowerFactor(-x.intensity) * err);
    assert Accumulated(x, err) == 0.005 * (Adapt.TickSeconds(x) * err);
    TermsMirror(PTerm(x, err), Accumulated(x, err), AscentOf(x));
  }

  /** One tick below the target by more than the band. */
  lemma UnderStep(x: AdaptInput, err: real, ceil: real, level: real)
    requires 1.0 <= level <= ceil && Abs(x.lastIntegral) <= 0.5
    requires IntensityInRange(x.intensity) && Adapt.TickSeconds(x) >= 1.0 && err > HoldBand(x)
    ensures
      var out := PiStep(x, err, ceil, level);
      Ascends(ceil, level, x.lastIntegral, AscentOf(x), Move(out.newLevel, out.newIntegral))
  {
    UnderTerms(x, err);
    MoveUp(ceil, level, x.lastIntegral, PTerm(x, err), Accumulated(x, err), AscentOf(x));
  }

  // --------------------------------------------------------------------------- runs

  predicate AllBelowBand(cfg: Config, s: State, events: seq<Event>)
    requires TargetsDefined(cfg)
    decreases |events|
  {
    events != [] ==> BelowBand(cfg, s, events[0]) && AllBelowBand(cfg, Step(cfg, s, events[0]), events[1..])
  }

  /** Drops below target by more than the hold band. */
  predicate BelowBand(cfg: Config, s: State, e: Event)
    requires TargetsDefined(cfg)
  {
    e.Tick? && AdaptLoop.ErrorOf(cfg, s, e.gauge, e.now) > cfg.holdBand
  }

  /** At the top, and held there. */
  predicate HeldUp(cfg: Config, s: State) { s.pace.Some? && Level(s) == Top(cfg.maxLevel) && Integral(s) >= 0.0 }

  function AscentPerTick(cfg: Config): real { Descent(-cfg.intensity, cfg.tickSeconds as real, cfg.holdBand) }

  lemma UnderTick(cfg: Config, s: State, e: Event)
    requires Loaded(cfg) && cfg.mode != AdaptHard && Warm(cfg, s) && BelowBand(cfg, s, e)
    ensures Warm(cfg, Step(cfg, s, e))
    ensures Ascends(cfg.maxLevel, Level(s), Integral(s), AscentPerTick(cfg),
                    Move(Level(Step(cfg, s, e)), Integral(Step(cfg, s, e))))
  {
    WarmTick(cfg, s, e);
    var x := InputOf(cfg, s, e.gauge, e.now);
    UnderStep(x, AdaptLoop.ErrorOf(cfg, s, e.gauge, e.now), cfg.maxLevel, Level(s));
  }

  /** Ticks that bring any integral up to 0.025. */
  function RewindTicks(cfg: Config): int
    requires Loaded(cfg)
  {
    DescentPositive(-cfg.intensity, cfg.tickSeconds as real, cfg.holdBand);
    Ceil(0.525 / AscentPerTick(cfg))
  }

  lemma RewindEnough(cfg: Config)
    requires Loaded(cfg)
    ensures RewindTicks(cfg) >= 0 && RewindTicks(cfg) as real * AscentPerTick(cfg) >= 0.525
  {
    var d := AscentPerTick(cfg);
    DescentPositive(-cfg.intensity, cfg.tickSeconds as real, cfg.holdBand);
    var q := 0.525 / d;
    assert q * d == 0.525 && q > 0.0;
    Scaled(d, q, Ceil(q) as real);
  }

  /** Grid points above a level, up to the maximum rounded up. */
  function PointsLeft(ceil: real, level: real): int { Ceil(ceil * 20.0) - GridAt(level) }

  lemma PointsLeftMonotonic(ceil: real, a: real, b: real)
    requires a <= b <= ceil
    ensures 0 <= PointsLeft(ceil, b) <= PointsLeft(ceil, a)
    ensures PointsLeft(ceil, b) == 0 ==> b == ceil && OnGrid(ceil)
  {
    if PointsLeft(ceil, b) == 0 {
      AtGridPoint(ceil, b);
    }
  }

  lemma AtGridPoint(ceil: real, b: real)
    requires b <= ceil && Ceil(ceil * 20.0) == GridAt(b)
    ensures b == ceil && OnGrid(ceil)
  {
    var n := GridAt(b);
    assert ceil * 20.0 <= n as real <= b * 20.0;
    QuantizeInCell(ceil, n);
  }

  /** u bounds the ticks that the integral still needs, g the grid points then left. */
  predicate RiseBudget(ceil: real, d: real, m: Move, u: nat, g: nat) {
    m.integral >= 0.025 - u as real * d && PointsLeft(ceil, if u > 0 then 1.0 else m.level) <= g
  }

  lemma AscentSpends(ceil: real, d: real, m: Move, n: Move, u: nat, g: nat)
    requires d > 0.0 && Ascends(ceil, m.level, m.integral, d, n) && RiseBudget(ceil, d, m, u, g) && u + g > 0
    requires 1.0 <= m.level <= ceil && 1.0 <= n.level <= ceil
    ensures
      || (n.level == Top(ceil) && n.integral >= 0.0)
      || (if u > 0 then RiseBudget(ceil, d, n, u - 1, g) else RiseBudget(ceil, d, n, 0, g - 1))
  {
    PointsLeftMonotonic(ceil, 1.0, n.level);
    if u > 0 {
      assert u as real * d - d == (u - 1) as real * d;
      Scaled(d, 0.0, (u - 1) as real);
    }
  }

  lemma RiseSpent(cfg: Config, s: State)
    requires Loaded(cfg) && Warm(cfg, s) && RiseBudget(cfg.maxLevel, AscentPerTick(cfg), MoveOf(s), 0, 0)
    ensures HeldUp(cfg, s)
  {
    PointsLeftMonotonic(cfg.maxLevel, Level(s), Level(s));
    TopAllowed(cfg.maxLevel);
  }

  lemma RiseFalls(cfg: Config, s: State, e: Event, u: nat, g: nat)
    requires Loaded(cfg) && cfg.mode != AdaptHard && Warm(cfg, s) && BelowBand(cfg, s, e)
    requires RiseBudget(cfg.maxLevel, AscentPerTick(cfg), MoveOf(s), u, g) && u + g > 0
    ensures
      var t := Step(cfg, s, e);
      HeldUp(cfg, t)
      || (t.pace.Some? && if u > 0 then RiseBudget(cfg.maxLevel, AscentPerTick(cfg), MoveOf(t), u - 1, g)
                          else RiseBudget(cfg.maxLevel, AscentPerTick(cfg), MoveOf(t), 0, g - 1))
  {
    UnderTick(cfg, s, e);
    DescentPositive(-cfg.intensity, cfg.tickSeconds as real, cfg.holdBand);
    AscentSpends(cfg.maxLevel, AscentPerTick(cfg), MoveOf(s), MoveOf(Step(cfg, s, e)), u, g);
  }

  lemma {:induction false} RecoveryAscends(cfg: Config, s: State, events: seq<Event>, u: nat, g: nat)
    requires Loaded(cfg) && cfg.mode != AdaptHard && Warm(cfg, s) && AllBelowBand(cfg, s, events)
    requires HeldUp(cfg, s) || (RiseBudget(cfg.maxLevel, AscentPerTick(cfg), MoveOf(s), u, g) && u + g <= |events|)
    ensures HeldUp(cfg, Run(cfg, s, events))
    decreases |events|
  {
    if events == [] {
      if !HeldUp(cfg, s) {
        RiseSpent(cfg, s);
      }
    } else {
      var t := Step(cfg, s, events[0]);
      UnderTick(cfg, s, events[0]);
      if !HeldUp(cfg, s) && u + g == 0 {
        RiseSpent(cfg, s);
      }
      if HeldUp(cfg, s) {
        RecoveryAscends(cfg, t, events[1..], 0, 0);
      } else {
        RiseFalls(cfg, s, events[0], u, g);
        RecoveryAscends(cfg, t, events[1..], if u > 0 then u - 1 else 0, if u > 0 then g else g - 1);
      }
    }
  }

  lemma FullRise(cfg: Config, s: State)
    requires Loaded(cfg) && Warm(cfg, s)
    ensures RewindTicks(cfg) >= 0 && PointsLeft(cfg.maxLevel, 1.0) >= 0
    ensures RiseBudget(cfg.maxLevel, AscentPerTick(cfg), MoveOf(s), RewindTicks(cfg), PointsLeft(cfg.maxLevel, 1.0))
  {
    RewindEnough(cfg);
    PointsLeftMonotonic(cfg.maxLevel, 1.0, Level(s));
  }

  lemma RecoveryHolds(cfg: Config, s: State, events: seq<Event>)
    requires Loaded(cfg) && cfg.mode != AdaptHard && Warm(cfg, s) && AllBelowBand(cfg, s, events)
    requires |events| >= RewindTicks(cfg) + PointsLeft(cfg.maxLevel, 1.0)
    ensures HeldUp(cfg, Run(cfg, s, events)) && Inv(cfg, Run(cfg, s, events))
  {
    FullRise(cfg, s);
    RecoveryAscends(cfg, s, events, RewindTicks(cfg), PointsLeft(cfg.maxLevel, 1.0));
    RunKeepsInv(cfg, s, events);
  }

  /** Recovery of the PI modes: from any warm state, as many ticks below the target by more
      than the hold band as the integral needs to rewind and the grid has points bring the
      level to the top, and it is there after every longer run of them. */
  lemma RecoveryReachesTop(cfg: Config, s: State, events: seq<Event>)
    requires Loaded(cfg) && cfg.mode != AdaptHard && Warm(cfg, s) && AllBelowBand(cfg, s, events)
    requires |events| >= RewindTicks(cfg) + PointsLeft(cfg.maxLevel, 1.0)
    ensures
      var t := Run(cfg, s, events);
      && t.pace.Some? && Level(t) == Top(cfg.maxLevel)
      && (OnGrid(cfg.maxLevel) ==> Level(t) == cfg.maxLevel)
      && (t.dialLevel.Some? ==> t.dialLevel.value == Level(t))
  {
    RecoveryHolds(cfg, s, events);
    TopAllowed(cfg.maxLevel);
  }
}
