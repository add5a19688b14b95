/** The adaptive dial-level controller: one decision, as a function of its input. */
module Adapt {
  import opened Wrappers

  // ------------------------------------------------------------------- constants

  const KP := 0.05
  const KI := 0.005
  const INTEGRAL_MAX := 0.5
  const K_BACK := 0.01
  const INTEGRAL_BLEED := 0.95
  const STEP_UP := 0.05
  const STEP_DOWN_HARD := 0.20
  const LEVEL_FLOOR := 1.0

  // ------------------------------------------------------------------ arithmetic

  function Abs(x: real): real { if x < 0.0 then -x else x }

  function Clamp(x: real, lo: real, hi: real): real {
    if x < lo then lo else if x > hi then hi else x
  }

  function ClampIntegral(i: real): real { Clamp(i, -INTEGRAL_MAX, INTEGRAL_MAX) }

  /** The nearest integer; a half goes away from zero. */
  function RoundHalf(x: real): int
    decreases x < 0.0
  {
    if x < 0.0 then -RoundHalf(-x)
    else if x - x.Floor as real >= 0.5 then x.Floor + 1
    else x.Floor
  }

  /** The nearest multiple of 0.05. */
  function Quantize(x: real): real { RoundHalf(x * 20.0) as real / 20.0 }

  function Factor(percent: int): real {
    if percent < -100 then 0.0 else 1.0 + percent as real / 100.0
  }

  function RaiseFactor(intensity: int): real { Factor(intensity) }

  function LowerFactor(intensity: int): real { Factor(-intensity) }

  // -------------------------------------------------------------------- decisions

  datatype DialMethod = AdaptHard | AdaptAvg | AdaptTapered | OtherMethod

  /** A shift as two instants, each None when unset. */
  datatype Shift = Shift(start: Option<int>, end: Option<int>)

  /** A shift that ends the instant it starts has no taper at that instant: the code
      divides zero by zero. */
  predicate TargetDefined(mode: DialMethod, shift: Shift, now: int) {
    mode == AdaptTapered && shift.start.Some? && shift.start == shift.end ==> now != shift.start.value
  }

  datatype AdaptInput = AdaptInput(
    mode: DialMethod,
    dropPct: real,
    adaptiveDropPct: real,
    currentLevel: real,
    maxLevel: real,
    intensity: int,
    holdBand: real,
    lastIntegral: real,
    now: int,
    tickSeconds: real,
    warmUp: bool,
    shift: Shift)

  datatype Action = Raise | LowerSoft | LowerHard | Hold | WarmUp | FastCut

  datatype AdaptOutput = AdaptOutput(newLevel: real, newIntegral: real, action: Action, needsWrite: bool)

  function ResolveTarget(mode: DialMethod, dropPct: real, shift: Shift, now: int): real
    requires TargetDefined(mode, shift, now)
  {
    if mode != AdaptTapered || shift.start.None? || shift.end.None? then dropPct
    else
      var start, end := shift.start.value, shift.end.value;
      if now < start then dropPct * 1.5
      else if now > end then dropPct
      else
        var progress := (now - start) as real / (end - start) as real;
        dropPct * (1.5 - 0.5 * progress)
  }

  function TickSeconds(x: AdaptInput): real { if x.tickSeconds <= 0.0 then 15.0 else x.tickSeconds }

  function HoldBand(x: AdaptInput): real { if x.holdBand <= 0.0 then 0.30 else x.holdBand }

  datatype Move = Move(level: real, integral: real)

  /** The level moved by both terms, clamped and quantized, and the integral with what
      the clamp cut off fed back. */
  function PiMove(current: real, ceil: real, pTerm: real, iTerm: real): Move {
    var unclamped := current + pTerm + iTerm;
    var clamped := Clamp(unclamped, LEVEL_FLOOR, ceil);
    Move(Clamp(Quantize(clamped), LEVEL_FLOOR, ceil), ClampIntegral(iTerm + K_BACK * (clamped - unclamped)))
  }

  function PTerm(x: AdaptInput, err: real): real {
    KP * err * (if err > 0.0 then RaiseFactor(x.intensity) else LowerFactor(x.intensity))
  }

  function Accumulated(x: AdaptInput, err: real): real { KI * err * TickSeconds(x) }

  /** The clamped proportional-integral step from the level `current`. */
  function PiStep(x: AdaptInput, err: real, ceil: real, current: real): AdaptOutput {
    var moved := PiMove(current, ceil, PTerm(x, err), x.lastIntegral + Accumulated(x, err));
    var action :=
      if moved.level > Quantize(current) then Raise
      else if moved.level < Quantize(current) then LowerSoft
      else Hold;
    AdaptOutput(moved.level, moved.integral, action, moved.level != Quantize(current))
  }

  function AverageWithDeadband(x: AdaptInput, target: real, ceil: real, current: real): AdaptOutput {
    var err := target - x.dropPct;
    if Abs(err) <= HoldBand(x)
    then AdaptOutput(current, ClampIntegral(x.lastIntegral * INTEGRAL_BLEED), Hold, false)
    else PiStep(x, err, ceil, current)
  }

  function HardLimit(x: AdaptInput, target: real, ceil: real, current: real): AdaptOutput {
    var over := x.dropPct >= target;
    var stepped :=
      if over then
        var lowered := current - STEP_DOWN_HARD * LowerFactor(x.intensity);
        if lowered < LEVEL_FLOOR then LEVEL_FLOOR else lowered
      else
        var raised := current + STEP_UP * RaiseFactor(x.intensity);
        if raised > ceil then ceil else raised;
    var newLevel := Clamp(Quantize(stepped), LEVEL_FLOOR, ceil);
    AdaptOutput(newLevel, 0.0, if over then LowerHard else Raise, newLevel != Quantize(current))
  }

  function Ceiling(maxLevel: real): real { if maxLevel < LEVEL_FLOOR then LEVEL_FLOOR else maxLevel }

  predicate InputDefined(x: AdaptInput) { TargetDefined(x.mode, x.shift, x.now) }

  function Decide(x: AdaptInput): AdaptOutput
    requires InputDefined(x)
  {
    var ceil := Ceiling(x.maxLevel);
    var current := Clamp(x.currentLevel, LEVEL_FLOOR, ceil);
    if x.warmUp then AdaptOutput(current, x.lastIntegral, WarmUp, false)
    else
      var target := ResolveTarget(x.mode, x.adaptiveDropPct, x.shift, x.now);
      if x.mode == AdaptHard then HardLimit(x, target, ceil, current)
      else AverageWithDeadband(x, target, ceil, current)
  }

  // ------------------------------------------------------- rounding and the grid

  predicate OnGrid(level: real) { Quantize(level) == level }

  lemma RoundHalfNearest(x: real)
    ensures x >= 0.0 ==> x - 0.5 < RoundHalf(x) as real <= x + 0.5
    ensures x < 0.0 ==> x - 0.5 <= RoundHalf(x) as real < x + 0.5
  {}

  lemma {:induction false} RoundHalfOfInteger(n: int)
    ensures RoundHalf(n as real) == n
  {
    RoundHalfNearest(n as real);
  }

  /** Quantizing gives a multiple of 0.05, the nearest one - half way the one further from
      zero - and changes no multiple. */
  lemma QuantizeNearest(x: real)
    ensures OnGrid(Quantize(x)) && Quantize(x) * 20.0 == (Quantize(x) * 20.0).Floor as real
    ensures Abs(Quantize(x) - x) <= 0.025
    ensures x >= 0.0 ==> x - 0.025 < Quantize(x)
    ensures x < 0.0 ==> Quantize(x) < x + 0.025
  {
    RoundHalfNearest(x * 20.0);
    var n := RoundHalf(x * 20.0);
    assert Quantize(x) * 20.0 == n as real;
    RoundHalfOfInteger(n);
  }

  lemma QuantizeMonotonic(x: real, y: real)
    requires x <= y
    ensures Quantize(x) <= Quantize(y)
  {
    RoundHalfNearest(x * 20.0);
    RoundHalfNearest(y * 20.0);
    if 0.0 <= x {
      assert (x * 20.0).Floor <= (y * 20.0).Floor;
    } else if y < 0.0 {
      assert (-y * 20.0).Floor <= (-x * 20.0).Floor;
    }
    assert RoundHalf(x * 20.0) <= RoundHalf(y * 20.0);
  }

  // --------------------------------------------------------------- one decision

  /** What every decision keeps: the level within its bounds, the integral within its
      clamp, and no unpublished change of a level that is on the grid or capped above
      by a maximum that is off it. */
  predicate Settled(maxLevel: real, level: real) {
    OnGrid(level) || (level == maxLevel && Quantize(maxLevel) > maxLevel)
  }

  lemma ClampedSettled(y: real, ceil: real)
    requires LEVEL_FLOOR <= y <= ceil
    ensures LEVEL_FLOOR <= Clamp(Quantize(y), LEVEL_FLOOR, ceil) <= ceil
    ensures Settled(ceil, Clamp(Quantize(y), LEVEL_FLOOR, ceil))
  {
    QuantizeNearest(y);
    QuantizeMonotonic(LEVEL_FLOOR, y);
    QuantizeMonotonic(y, ceil);
    assert Quantize(LEVEL_FLOOR) == LEVEL_FLOOR;
  }

  lemma DecideBounded(x: AdaptInput)
    requires InputDefined(x)
    ensures
      var out := Decide(x);
      && 1.0 <= out.newLevel <= (if x.maxLevel < 1.0 then 1.0 else x.maxLevel)
      && (Abs(x.lastIntegral) <= 0.5 ==> Abs(out.newIntegral) <= 0.5)
      && (out.needsWrite ==> Settled(Ceiling(x.maxLevel), out.newLevel))
  {
    var ceil := Ceiling(x.maxLevel);
    var current := Clamp(x.currentLevel, LEVEL_FLOOR, ceil);
    if !x.warmUp {
      var target := ResolveTarget(x.mode, x.adaptiveDropPct, x.shift, x.now);
      if x.mode == AdaptHard {
        HardBounded(x, target, ceil, current);
      } else {
        PiBounded(x, target - x.dropPct, ceil, current);
      }
    }
  }

  lemma HardBounded(x: AdaptInput, target: real, ceil: real, current: real)
    requires LEVEL_FLOOR <= current <= ceil
    ensures LEVEL_FLOOR <= HardLimit(x, target, ceil, current).newLevel <= ceil
    ensures HardLimit(x, target, ceil, current).needsWrite ==> Settled(ceil, HardLimit(x, target, ceil, current).newLevel)
  {
  }

  lemma PiBounded(x: AdaptInput, err: real, ceil: real, current: real)
    requires LEVEL_FLOOR <= ceil
    ensures LEVEL_FLOOR <= PiStep(x, err, ceil, current).newLevel <= ceil
    ensures Settled(ceil, PiStep(x, err, ceil, current).newLevel)
  {
    ClampedSettled(Clamp(current + PTerm(x, err) + (x.lastIntegral + Accumulated(x, err)), LEVEL_FLOOR, ceil), ceil);
  }

  // ------------------------------------------------------------------ the target

  function Taper(dropPct: real, progress: real): real { dropPct * (1.5 - 0.5 * progress) }

  lemma TaperFalls(dropPct: real, a: real, b: real)
    requires dropPct >= 0.0 && 0.0 <= a <= b <= 1.0
    ensures dropPct <= Taper(dropPct, b) <= Taper(dropPct, a) <= dropPct * 1.5
  {
    assert dropPct * 0.0 <= dropPct * a <= dropPct * b <= dropPct * 1.0;
  }

  lemma ProgressGrows(a: real, b: real, length: real)
    requires length > 0.0 && 0.0 <= a <= b <= length
    ensures 0.0 <= a / length <= b / length <= 1.0
  {}

  /** How far into the shift an instant is. */
  function Progress(start: int, end: int, now: int): real
    requires start == end ==> now != start
  {
    if now < start then 0.0 else if now > end then 1.0 else (now - start) as real / (end - start) as real
  }

  lemma ProgressBounds(start: int, end: int, earlier: int, later: int)
    requires earlier <= later && (start == end ==> earlier != start && later != start)
    ensures 0.0 <= Progress(start, end, earlier) <= Progress(start, end, later) <= 1.0
  {
    if start < end {
      if start <= earlier <= end {
        ProgressGrows((earlier - start) as real, (earlier - start) as real, (end - start) as real);
      }
      if start <= later <= end {
        ProgressGrows(0.0, (later - start) as real, (end - start) as real);
      }
      if start <= earlier && later <= end {
        ProgressGrows((earlier - start) as real, (later - start) as real, (end - start) as real);
      }
    }
  }

  /** The target lies between the configured percentage and one and a half times it,
      and never rises as time passes. */
  lemma TargetTapers(mode: DialMethod, dropPct: real, shift: Shift, earlier: int, later: int)
    requires TargetDefined(mode, shift, earlier) && TargetDefined(mode, shift, later)
    requires dropPct >= 0.0 && earlier <= later
    ensures
      && dropPct <= ResolveTarget(mode, dropPct, shift, later)
      && ResolveTarget(mode, dropPct, shift, later) <= ResolveTarget(mode, dropPct, shift, earlier)
      && ResolveTarget(mode, dropPct, shift, earlier) <= dropPct * 1.5
  {
    if mode == AdaptTapered && shift.start.Some? && shift.end.Some? {
      var start, end := shift.start.value, shift.end.value;
      ProgressBounds(start, end, earlier, later);
      TaperFalls(dropPct, Progress(start, end, earlier), Progress(start, end, later));
      TargetIsTaper(dropPct, shift, earlier);
      TargetIsTaper(dropPct, shift, later);
    }
  }

  lemma TargetIsTaper(dropPct: real, shift: Shift, now: int)
    requires shift.start.Some? && shift.end.Some? && TargetDefined(AdaptTapered, shift, now)
    ensures ResolveTarget(AdaptTapered, dropPct, shift, now) ==
            Taper(dropPct, Progress(shift.start.value, shift.end.value, now))
  {}
}
