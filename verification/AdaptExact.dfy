/** One decision in numbers: the target, each of the three ways a level is decided, and
    the label it gets. */
module AdaptExact {
  import opened Wrappers
  import opened Adapt
  import opened AdaptConvergence

  // ---------------------------------------------------------------------- the target

  /** The configured percentage, but in a tapered shift with both ends: one and a half
      times it before the start, and from there a straight line down to it at the end. */
  lemma TargetExact(mode: DialMethod, dropPct: real, shift: Shift, now: int)
    requires TargetDefined(mode, shift, now)
    ensures
      var target := ResolveTarget(mode, dropPct, shift, now);
      if mode != AdaptTapered || shift.start.None? || shift.end.None? then target == dropPct
      else
        var start, end := shift.start.value, shift.end.value;
        if now < start then target == 1.5 * dropPct
        else if now > end then target == dropPct
        else (target - dropPct) * (end - start) as real == 0.5 * dropPct * (end - now) as real
  {
    if mode == AdaptTapered && shift.start.Some? && shift.end.Some? {
      var start, end := shift.start.value, shift.end.value;
      if start <= now <= end {
        LineDown(dropPct, (now - start) as real, (end - start) as real);
        assert (end - start) as real - (now - start) as real == (end - now) as real;
      }
    }
  }

  lemma LineDown(dropPct: real, gone: real, length: real)
    requires length > 0.0
    ensures (dropPct * (1.5 - 0.5 * (gone / length)) - dropPct) * length == 0.5 * dropPct * (length - gone)
  {
    var p := gone / length;
    assert p * length == gone;
    assert (dropPct * (1.5 - 0.5 * p) - dropPct) * length == 0.5 * dropPct * length - 0.5 * dropPct * (p * length);
  }

  // --------------------------------------------------------------------- intensities

  /** One, and a hundredth for each point of intensity; never below zero. */
  function PerCent(points: int): real { if points <= -100 then 0.0 else (100 + points) as real / 100.0 }

  lemma FactorIsPerCent(points: int)
    ensures Factor(points) == PerCent(points)
  {}

  // -------------------------------------------------------------------------- levels

  /** The highest level allowed: the maximum, and at least 1. */
  function Most(maxLevel: real): real { if maxLevel < 1.0 then 1.0 else maxLevel }

  function Between(v: real, lo: real, hi: real): real { if v < lo then lo else if v > hi then hi else v }

  /** A level allowed, no further than half a grid step from `wanted` brought between the
      bounds. */
  predicate Meets(level: real, wanted: real, most: real) {
    1.0 <= level <= most && Abs(level - Between(wanted, 1.0, most)) <= 0.025
  }

  lemma QuantizedMeets(wanted: real, ceil: real)
    requires 1.0 <= ceil
    ensures Meets(Clamp(Quantize(Clamp(wanted, 1.0, ceil)), 1.0, ceil), wanted, ceil)
  {
    QuantizeNearest(Clamp(wanted, 1.0, ceil));
  }

  /** The label of a move from a level on the grid, and whether it is published. */
  predicate Labelled(out: AdaptOutput, level: real) {
    && (out.action == Raise <==> out.newLevel > level)
    && (out.action == LowerSoft <==> out.newLevel < level)
    && (out.action == Hold <==> out.newLevel == level)
    && (out.needsWrite <==> out.newLevel != level)
  }

  predicate Decides(x: AdaptInput) { InputDefined(x) && !x.warmUp && 1.0 <= x.currentLevel <= Most(x.maxLevel) }

  function ErrorOf(x: AdaptInput): real
    requires InputDefined(x)
  {
    ResolveTarget(x.mode, x.adaptiveDropPct, x.shift, x.now) - x.dropPct
  }

  function BandOf(x: AdaptInput): real { if x.holdBand <= 0.0 then 0.3 else x.holdBand }

  function SecondsOf(x: AdaptInput): real { if x.tickSeconds <= 0.0 then 15.0 else x.tickSeconds }

  /** Inside the hold band the level stays and the integral loses a twentieth. */
  lemma HoldExact(x: AdaptInput)
    requires Decides(x) && x.mode != AdaptHard && Abs(ErrorOf(x)) <= BandOf(x) && Abs(x.lastIntegral) <= 0.5
    ensures Decide(x) == AdaptOutput(x.currentLevel, 0.95 * x.lastIntegral, Hold, false)
  {}

  /** The terms of a decision outside the hold band: five hundredths of the error, more or
      less with the intensity, and five thousandths of it for each second, added up. */
  function Proportional(x: AdaptInput): real
    requires InputDefined(x)
  {
    0.05 * ErrorOf(x) * PerCent(if ErrorOf(x) > 0.0 then x.intensity else -x.intensity)
  }

  function Integrated(x: AdaptInput): real
    requires InputDefined(x)
  {
    x.lastIntegral + 0.005 * ErrorOf(x) * SecondsOf(x)
  }

  lemma TermsExact(x: AdaptInput)
    requires InputDefined(x)
    ensures PTerm(x, ErrorOf(x)) == Proportional(x)
    ensures x.lastIntegral + Accumulated(x, ErrorOf(x)) == Integrated(x)
  {
    FactorIsPerCent(x.intensity);
    FactorIsPerCent(-x.intensity);
  }

  /** Outside it the level moves by both terms, and the integral gives back a hundredth of
      what the bounds cut off. */
  lemma PiExact(x: AdaptInput)
    requires Decides(x) && x.mode != AdaptHard && Abs(ErrorOf(x)) > BandOf(x)
    ensures
      var out, most := Decide(x), Most(x.maxLevel);
      var wanted := x.currentLevel + Proportional(x) + Integrated(x);
      && Meets(out.newLevel, wanted, most)
      && out.newIntegral == Between(Integrated(x) + 0.01 * (Between(wanted, 1.0, most) - wanted), -0.5, 0.5)
      && (OnGrid(x.currentLevel) ==> Labelled(out, x.currentLevel))
  {
    TermsExact(x);
    QuantizedMeets(x.currentLevel + Proportional(x) + Integrated(x), Most(x.maxLevel));
  }

  /** The hard limit: at or above the target down by a fifth, below it up by a twentieth,
      more or less with the intensity; no integral. */
  lemma HardExact(x: AdaptInput)
    requires Decides(x) && x.mode == AdaptHard
    ensures
      var out, over := Decide(x), x.dropPct >= x.adaptiveDropPct;
      && Meets(out.newLevel,
               if over then x.currentLevel - 0.2 * PerCent(-x.intensity) else x.currentLevel + 0.05 * PerCent(x.intensity),
               Most(x.maxLevel))
      && out.action == (if over then LowerHard else Raise)
      && out.newIntegral == 0.0
      && (OnGrid(x.currentLevel) ==> (out.needsWrite <==> out.newLevel != x.currentLevel))
  {
    FactorIsPerCent(x.intensity);
    FactorIsPerCent(-x.intensity);
    HardMeets(x, x.adaptiveDropPct, Most(x.maxLevel), x.currentLevel);
  }

  lemma HardMeets(x: AdaptInput, target: real, ceil: real, level: real)
    requires 1.0 <= level <= ceil
    ensures
      var wanted := if x.dropPct >= target then level - 0.2 * LowerFactor(x.intensity) else level + 0.05 * RaiseFactor(x.intensity);
      Meets(HardLimit(x, target, ceil, level).newLevel, wanted, ceil)
  {
    var wanted := if x.dropPct >= target then level - 0.2 * LowerFactor(x.intensity) else level + 0.05 * RaiseFactor(x.intensity);
    assert LowerFactor(x.intensity) >= 0.0 && RaiseFactor(x.intensity) >= 0.0;
    QuantizedMeets(wanted, ceil);
  }

  /** Held back by the warm-up nothing changes. */
  lemma WarmUpExact(x: AdaptInput)
    requires InputDefined(x) && x.warmUp && 1.0 <= x.currentLevel <= Most(x.maxLevel)
    ensures Decide(x) == AdaptOutput(x.currentLevel, x.lastIntegral, WarmUp, false)
  {}

  // ---------------------------------------------------------- the hard limit, on the grid

  /** The number of a grid point. */
  function GridIndex(level: real): int { RoundHalf(level * 20.0) }

  lemma RoundInCell(y: real, n: int)
    requires n as real - 0.5 < y < n as real + 0.5
    ensures RoundHalf(y) == n
  {
    RoundHalfNearest(y);
    var r := RoundHalf(y);
    assert n as real - 1.0 < r as real < n as real + 1.0;
  }

  lemma QuantizeInCell(x: real, n: int)
    requires n as real - 0.5 < x * 20.0 < n as real + 0.5
    ensures Quantize(x) == n as real / 20.0
  {
    RoundInCell(x * 20.0, n);
  }

  /** Below the target, from a level on the grid, with an intensity in range: up one grid
      step, as far as the maximum. */
  lemma UnderTargetStep(x: AdaptInput, target: real, ceil: real, level: real)
    requires OnGrid(level) && OnGrid(ceil) && 1.0 <= level <= ceil && IntensityInRange(x.intensity) && x.dropPct < target
    ensures
      var out := HardLimit(x, target, ceil, level);
      && out.newLevel == (if level + 0.05 <= ceil then level + 0.05 else ceil)
      && out.action == Raise && OnGrid(out.newLevel)
  {
    assert 0.8 <= RaiseFactor(x.intensity) <= 1.2;
    RaisedOnGrid(level, ceil, GridIndex(level), GridIndex(ceil), 0.05 * RaiseFactor(x.intensity));
  }

  lemma RaisedOnGrid(level: real, ceil: real, n: int, m: int, step: real)
    requires level == n as real / 20.0 && ceil == m as real / 20.0 && 1.0 <= level <= ceil && 0.04 <= step <= 0.06
    ensures
      var raised := if level + step > ceil then ceil else level + step;
      var next := if level + 0.05 <= ceil then level + 0.05 else ceil;
      Clamp(Quantize(raised), 1.0, ceil) == next && OnGrid(next)
  {
    assert 20 <= n <= m;
    if n < m {
      assert level + 0.05 <= ceil && level + 0.05 == (n + 1) as real / 20.0;
      QuantizeInCell(if level + step > ceil then ceil else level + step, n + 1);
      QuantizeInCell(level + 0.05, n + 1);
    } else {
      QuantizeInCell(ceil, m);
    }
  }
}
