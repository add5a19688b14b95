/** Which way the controller answers: to more intensity never with a lower level, to more
    drops never with a higher one. */
module AdaptMonotone {
  import opened Adapt

  lemma Product(k: real, x: real, y: real)
    requires k >= 0.0 && x <= y
    ensures k * x <= k * y && x * k <= y * k
  {
    assert 0.0 <= k * (y - x);
  }

  lemma FactorGrows(a: int, b: int)
    requires a <= b
    ensures 0.0 <= Factor(a) <= Factor(b)
  {}

  lemma SettleMonotonic(x: real, y: real, ceil: real)
    requires x <= y && LEVEL_FLOOR <= ceil
    ensures Clamp(Quantize(Clamp(x, LEVEL_FLOOR, ceil)), LEVEL_FLOOR, ceil)
            <= Clamp(Quantize(Clamp(y, LEVEL_FLOOR, ceil)), LEVEL_FLOOR, ceil)
  {
    QuantizeMonotonic(Clamp(x, LEVEL_FLOOR, ceil), Clamp(y, LEVEL_FLOOR, ceil));
  }

  lemma MoveMonotonic(current: real, ceil: real, p: real, i: real, q: real, j: real)
    requires p <= q && i <= j && LEVEL_FLOOR <= ceil
    ensures PiMove(current, ceil, p, i).level <= PiMove(current, ceil, q, j).level
  {
    SettleMonotonic(current + p + i, current + q + j, ceil);
  }

  // --------------------------------------------------------------------- intensity

  lemma PTermGrowsWithIntensity(x: AdaptInput, y: AdaptInput, err: real)
    requires x.intensity <= y.intensity
    ensures PTerm(x, err) <= PTerm(y, err)
  {
    if err > 0.0 {
      FactorGrows(x.intensity, y.intensity);
      Product(KP * err, RaiseFactor(x.intensity), RaiseFactor(y.intensity));
    } else {
      FactorGrows(-y.intensity, -x.intensity);
      Product(-(KP * err), LowerFactor(y.intensity), LowerFactor(x.intensity));
    }
  }

  lemma PiGrowsWithIntensity(x: AdaptInput, y: AdaptInput, err: real, ceil: real, current: real)
    requires y == x.(intensity := y.intensity) && x.intensity <= y.intensity && LEVEL_FLOOR <= ceil
    ensures PiStep(x, err, ceil, current).newLevel <= PiStep(y, err, ceil, current).newLevel
  {
    var i := x.lastIntegral + Accumulated(x, err);
    PTermGrowsWithIntensity(x, y, err);
    SameAccumulated(x, y, err);
    MoveMonotonic(current, ceil, PTerm(x, err), i, PTerm(y, err), i);
  }

  lemma SameAccumulated(x: AdaptInput, y: AdaptInput, err: real)
    requires y == x.(intensity := y.intensity)
    ensures y.lastIntegral + Accumulated(y, err) == x.lastIntegral + Accumulated(x, err)
  {}

  lemma HardGrowsWithIntensity(x: AdaptInput, y: AdaptInput, target: real, ceil: real, current: real)
    requires y == x.(intensity := y.intensity) && x.intensity <= y.intensity && LEVEL_FLOOR <= current <= ceil
    ensures HardLimit(x, target, ceil, current).newLevel <= HardLimit(y, target, ceil, current).newLevel
  {
    if x.dropPct >= target {
      FactorGrows(-y.intensity, -x.intensity);
      SettleMonotonic(current - STEP_DOWN_HARD * LowerFactor(x.intensity),
                      current - STEP_DOWN_HARD * LowerFactor(y.intensity), ceil);
    } else {
      FactorGrows(x.intensity, y.intensity);
      SettleMonotonic(current + STEP_UP * RaiseFactor(x.intensity),
                      current + STEP_UP * RaiseFactor(y.intensity), ceil);
    }
  }

  /** A higher intensity never decides on a lower level. */
  lemma MoreIntensity(x: AdaptInput, y: AdaptInput)
    requires InputDefined(x) && y == x.(intensity := y.intensity) && x.intensity <= y.intensity
    ensures Decide(x).newLevel <= Decide(y).newLevel
  {
    var ceil := Ceiling(x.maxLevel);
    var current := Clamp(x.currentLevel, LEVEL_FLOOR, ceil);
    var target := ResolveTarget(x.mode, x.adaptiveDropPct, x.shift, x.now);
    if x.mode == AdaptHard {
      HardGrowsWithIntensity(x, y, target, ceil, current);
    } else {
      PiGrowsWithIntensity(x, y, target - x.dropPct, ceil, current);
    }
  }

  // ------------------------------------------------------------------------- drops

  /** A quantity scaled by one factor above zero and by another below. */
  function TwoSlopes(v: real, up: real, down: real): real { v * if v > 0.0 then up else down }

  lemma TwoSlopesMonotonic(v: real, w: real, up: real, down: real)
    requires v <= w && up >= 0.0 && down >= 0.0
    ensures TwoSlopes(v, up, down) <= TwoSlopes(w, up, down)
  {
    if w <= 0.0 {
      Product(down, v, w);
    } else if v > 0.0 {
      Product(up, v, w);
    } else {
      Product(down, v, 0.0);
      Product(up, 0.0, w);
    }
  }

  lemma PTermGrowsWithError(x: AdaptInput, e: real, f: real)
    requires e <= f
    ensures PTerm(x, e) <= PTerm(x, f)
  {
    FactorGrows(x.intensity, x.intensity);
    FactorGrows(-x.intensity, -x.intensity);
    TwoSlopesMonotonic(KP * e, KP * f, RaiseFactor(x.intensity), LowerFactor(x.intensity));
  }

  lemma AccumulatedGrowsWithError(x: AdaptInput, e: real, f: real)
    requires e <= f
    ensures Accumulated(x, e) <= Accumulated(x, f)
  {
    Product(TickSeconds(x), KI * e, KI * f);
  }

  lemma PiFallsWithDrops(x: AdaptInput, y: AdaptInput, e: real, f: real, ceil: real, current: real)
    requires y == x.(dropPct := y.dropPct) && e <= f && LEVEL_FLOOR <= ceil
    ensures PiStep(y, e, ceil, current).newLevel <= PiStep(x, f, ceil, current).newLevel
  {
    PTermGrowsWithError(x, e, f);
    AccumulatedGrowsWithError(x, e, f);
    assert PTerm(y, e) == PTerm(x, e) && Accumulated(y, e) == Accumulated(x, e);
    MoveMonotonic(current, ceil, PTerm(x, e), x.lastIntegral + Accumulated(x, e),
                  PTerm(x, f), x.lastIntegral + Accumulated(x, f));
  }

  /** Outside the deadband. */
  predicate Acts(x: AdaptInput)
    requires InputDefined(x)
  {
    x.mode == AdaptHard
    || Abs(ResolveTarget(x.mode, x.adaptiveDropPct, x.shift, x.now) - x.dropPct) > HoldBand(x)
  }

  lemma HardFallsWithDrops(x: AdaptInput, y: AdaptInput, target: real, ceil: real, current: real)
    requires y == x.(dropPct := y.dropPct) && x.dropPct <= y.dropPct && LEVEL_FLOOR <= current <= ceil
    ensures HardLimit(y, target, ceil, current).newLevel <= HardLimit(x, target, ceil, current).newLevel
  {
    if x.dropPct < target <= y.dropPct {
      FactorGrows(x.intensity, x.intensity);
      FactorGrows(-x.intensity, -x.intensity);
      SettleMonotonic(current - STEP_DOWN_HARD * LowerFactor(x.intensity),
                      current + STEP_UP * RaiseFactor(x.intensity), ceil);
    }
  }

  /** Outside the deadband, more drops never decide on a higher level. */
  lemma MoreDrops(x: AdaptInput, y: AdaptInput)
    requires InputDefined(x) && y == x.(dropPct := y.dropPct) && x.dropPct <= y.dropPct
    requires Acts(x) && Acts(y)
    ensures Decide(y).newLevel <= Decide(x).newLevel
  {
    var ceil := Ceiling(x.maxLevel);
    var current := Clamp(x.currentLevel, LEVEL_FLOOR, ceil);
    var target := ResolveTarget(x.mode, x.adaptiveDropPct, x.shift, x.now);
    if x.mode == AdaptHard {
      HardFallsWithDrops(x, y, target, ceil, current);
    } else {
      PiFallsWithDrops(x, y, target - y.dropPct, target - x.dropPct, ceil, current);
    }
  }

  // ----------------------------------------------------- drops across the deadband

  /** The last point of the grid up to a level, and the first from it on. */
  function GridBelow(level: real): real { (level * 20.0).Floor as real / 20.0 }

  function GridAbove(level: real): real { -GridBelow(-level) }

  lemma QuantizeAgainst(y: real, level: real)
    requires y >= 0.0
    ensures Quantize(y) <= level <==> y < GridBelow(level) + 0.025
    ensures Quantize(y) >= level <==> y >= GridAbove(level) - 0.025
  {
    var n, below, above := RoundHalf(y * 20.0), (level * 20.0).Floor, -(-level * 20.0).Floor;
    RoundHalfNearest(y * 20.0);
    assert Quantize(y) <= level <==> n <= below;
    assert Quantize(y) >= level <==> n >= above;
  }

  /** A settled level against the one before, in terms of the sum that is settled. */
  lemma SettleAgainst(u: real, ceil: real, current: real)
    requires LEVEL_FLOOR <= current <= ceil
    ensures
      var settled := Clamp(Quantize(Clamp(u, LEVEL_FLOOR, ceil)), LEVEL_FLOOR, ceil);
      && (settled <= current <==> current == ceil || ceil < GridBelow(current) + 0.025 || u < GridBelow(current) + 0.025)
      && (settled >= current <==>
            current == LEVEL_FLOOR || (GridAbove(current) - 0.025 <= ceil && u >= GridAbove(current) - 0.025))
  {
    QuantizeAgainst(Clamp(u, LEVEL_FLOOR, ceil), current);
    assert (current * 20.0).Floor >= 20;
    assert current > LEVEL_FLOOR ==> (-current * 20.0).Floor <= -21;
  }

  function CurrentLevel(x: AdaptInput): real { Clamp(x.currentLevel, LEVEL_FLOOR, Ceiling(x.maxLevel)) }

  /** What a tick adds to the level by itself, the stored integral aside. */
  function Push(x: AdaptInput): real
    requires InputDefined(x)
  {
    var err := ResolveTarget(x.mode, x.adaptiveDropPct, x.shift, x.now) - x.dropPct;
    PTerm(x, err) + Accumulated(x, err)
  }

  /** The stored integral does not carry the level up: there is no grid point to go up
      to, or the push and the integral do not reach half way there. */
  predicate NotCarriedUp(x: AdaptInput)
    requires InputDefined(x)
  {
    var current, halfway := CurrentLevel(x), GridBelow(CurrentLevel(x)) + 0.025;
    current == Ceiling(x.maxLevel) || Ceiling(x.maxLevel) < halfway || x.lastIntegral < halfway - current - Push(x)
  }

  /** Nor down. */
  predicate NotCarriedDown(x: AdaptInput)
    requires InputDefined(x)
  {
    var current, halfway := CurrentLevel(x), GridAbove(CurrentLevel(x)) - 0.025;
    current == LEVEL_FLOOR || (halfway <= Ceiling(x.maxLevel) && x.lastIntegral >= halfway - current - Push(x))
  }

  lemma ActedAgainstHeld(x: AdaptInput)
    requires InputDefined(x) && !x.warmUp && x.mode != AdaptHard && Acts(x)
    ensures Decide(x).newLevel <= CurrentLevel(x) <==> NotCarriedUp(x)
    ensures Decide(x).newLevel >= CurrentLevel(x) <==> NotCarriedDown(x)
  {
    SettleAgainst(CurrentLevel(x) + Push(x) + x.lastIntegral, Ceiling(x.maxLevel), CurrentLevel(x));
  }

  /** More drops decide on no higher level exactly when both decisions are inside the
      deadband or both outside it, or the stored integral does not carry the one outside
      past the level that the other holds. */
  lemma MoreDropsExact(x: AdaptInput, y: AdaptInput)
    requires InputDefined(x) && y == x.(dropPct := y.dropPct) && x.dropPct <= y.dropPct
    ensures Decide(y).newLevel <= Decide(x).newLevel <==>
            (x.warmUp || Acts(x) == Acts(y) || (if Acts(y) then NotCarriedUp(y) else NotCarriedDown(x)))
  {
    if Acts(x) && Acts(y) {
      MoreDrops(x, y);
    } else if !x.warmUp && Acts(y) {
      ActedAgainstHeld(y);
    } else if !x.warmUp && Acts(x) {
      ActedAgainstHeld(x);
    }
  }

  lemma ProductSign(v: real, k: real)
    requires k > 0.0
    ensures (v < 0.0 ==> v * k < 0.0) && (v > 0.0 ==> v * k > 0.0)
  {}

  lemma PTermSign(x: AdaptInput, err: real)
    ensures (err <= 0.0 ==> PTerm(x, err) <= 0.0) && (err >= 0.0 ==> PTerm(x, err) >= 0.0)
  {
    if err <= 0.0 {
      PTermGrowsWithError(x, err, 0.0);
    } else {
      PTermGrowsWithError(x, 0.0, err);
    }
  }

  lemma PushSign(x: AdaptInput, err: real)
    ensures err < 0.0 ==> PTerm(x, err) + Accumulated(x, err) < 0.0
    ensures err > 0.0 ==> PTerm(x, err) + Accumulated(x, err) > 0.0
  {
    PTermSign(x, err);
    ProductSign(KI * err, TickSeconds(x));
  }

  lemma FloorOfInteger(v: real, n: int)
    requires v == n as real
    ensures v.Floor == n
  {}

  lemma GridOfStep(n: int, level: real)
    requires level == n as real / 20.0
    ensures GridBelow(level) == level == GridAbove(level)
  {
    FloorOfInteger(level * 20.0, n);
    FloorOfInteger(-level * 20.0, -n);
  }

  lemma OnGridBelow(level: real)
    requires OnGrid(level)
    ensures GridBelow(level) == level == GridAbove(level)
  {
    GridOfStep(RoundHalf(level * 20.0), level);
  }

  /** An error of the decision that acts beside one that holds. */
  lemma ActsBeyond(x: AdaptInput, y: AdaptInput)
    requires InputDefined(x) && y == x.(dropPct := y.dropPct) && x.dropPct <= y.dropPct
    ensures
      var target := ResolveTarget(x.mode, x.adaptiveDropPct, x.shift, x.now);
      && (Acts(y) && !Acts(x) ==> target < y.dropPct)
      && (Acts(x) && !Acts(y) ==> x.dropPct < target)
  {}

  /** From a level on the grid an integral of at most half a grid step either way never
      matters. */
  lemma MoreDropsSmallIntegral(x: AdaptInput, y: AdaptInput)
    requires InputDefined(x) && y == x.(dropPct := y.dropPct) && x.dropPct <= y.dropPct
    requires OnGrid(CurrentLevel(x)) && Abs(x.lastIntegral) <= 0.025
    ensures Decide(y).newLevel <= Decide(x).newLevel
  {
    MoreDropsExact(x, y);
    OnGridBelow(CurrentLevel(x));
    ActsBeyond(x, y);
    var target := ResolveTarget(x.mode, x.adaptiveDropPct, x.shift, x.now);
    if Acts(y) && !Acts(x) {
      PushSign(y, target - y.dropPct);
    } else if Acts(x) && !Acts(y) {
      PushSign(x, target - x.dropPct);
    }
  }

  /** A stored integral of 0.5, the most there is: 1.00 percent of drops holds the level
      at 1.0, and 1.31 percent, over the target, raises it to 1.45. */
  lemma MoreDropsRaisesLevel(x: AdaptInput)
    requires x.mode == AdaptAvg && !x.warmUp && x.adaptiveDropPct == 1.0 && x.dropPct == 1.0
    requires x.currentLevel == 1.0 && x.maxLevel == 3.0 && x.intensity == 0 && x.lastIntegral == 0.5
    requires x.holdBand == 0.3 && x.tickSeconds == 15.0
    ensures Decide(x).newLevel == 1.0 && Decide(x.(dropPct := 1.31)).newLevel == 1.45
  {
    var y := x.(dropPct := 1.31);
    var err := 1.0 - 1.31;
    assert PTerm(y, err) == -0.0155 && Accumulated(y, err) == -0.02325;
    var u := 1.0 - 0.0155 + (0.5 - 0.02325);
    assert (u * 20.0).Floor == 29;
    assert Quantize(u) == 1.45;
  }
}
