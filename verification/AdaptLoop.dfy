/** The controller's loop: ticks and fast cuts over the published dial level and the
    saved pace state of one campaign. */
module AdaptLoop {
  import opened Wrappers
  import opened Adapt
  import opened AdaptConvergence

  datatype Config = Config(
    mode: DialMethod,
    adaptiveDropPct: real,
    maxLevel: real,
    autoDialLevel: real,
    intensity: int,
    holdBand: real,
    tickSeconds: int,
    warmupMinAnswered: int,
    warmupMinSeconds: int,
    shift: Shift)

  /** Times are in milliseconds. */
  datatype PaceState = PaceState(
    integral: real,
    lastLevel: real,
    lastTick: Option<int>,
    lastDropPct: real,
    lastAction: Option<Action>,
    warmUpCalls: int,
    warmUpStarted: Option<int>,
    clampSince: Option<int>,
    tickCount: nat)

  /** The two keys a campaign's loop reads and writes; None when absent. */
  datatype State = State(dialLevel: Option<real>, pace: Option<PaceState>)

  // --------------------------------------------------------------- configuration

  function Validated(cfg: Config): Config {
    var maxLevel := if cfg.maxLevel < LEVEL_FLOOR then LEVEL_FLOOR else cfg.maxLevel;
    var auto := if cfg.autoDialLevel < LEVEL_FLOOR then LEVEL_FLOOR else cfg.autoDialLevel;
    cfg.(
      maxLevel := maxLevel,
      autoDialLevel := if auto > maxLevel then maxLevel else auto,
      holdBand := if cfg.holdBand <= 0.0 then 0.30 else cfg.holdBand,
      tickSeconds := if cfg.tickSeconds <= 0 then 15 else if cfg.tickSeconds > 60 then 60 else cfg.tickSeconds,
      warmupMinAnswered := if cfg.warmupMinAnswered < 0 then 0 else cfg.warmupMinAnswered,
      warmupMinSeconds := if cfg.warmupMinSeconds < 0 then 0 else cfg.warmupMinSeconds,
      intensity := if cfg.intensity < -20 then -20 else if cfg.intensity > 20 then 20 else cfg.intensity)
  }

  /** The target is defined at every instant: a tapered shift does not end the instant it
      starts. */
  predicate TargetsDefined(cfg: Config) {
    cfg.mode == AdaptTapered && cfg.shift.start.Some? ==> cfg.shift.start != cfg.shift.end
  }

  /** A loaded configuration. */
  predicate Loaded(cfg: Config) { cfg == Validated(cfg) && TargetsDefined(cfg) }

  // --------------------------------------------------------------------- warm-up

  /** Whole seconds, rounded toward zero. */
  function WholeSeconds(ms: int): int { if ms < 0 then -(-ms / 1000) else ms / 1000 }

  predicate WarmUpActive(calls: int, started: Option<int>, minSeconds: int, now: int) {
    calls > 0 && (started.None? || WholeSeconds(now - started.value) < minSeconds)
  }

  // ----------------------------------------------------------------------- steps

  function InitPaceState(cfg: Config, now: int): PaceState {
    PaceState(0.0, Clamp(cfg.autoDialLevel, LEVEL_FLOOR, cfg.maxLevel), None, 0.0, Some(WarmUp),
              cfg.warmupMinAnswered, Some(now), None, 0)
  }

  function PaceAt(cfg: Config, s: State, now: int): PaceState {
    match s.pace
    case None => InitPaceState(cfg, now)
    case Some(ps) => ps
  }

  function CurrentLevel(cfg: Config, s: State, ps: PaceState): real {
    var level := if s.dialLevel.Some? then s.dialLevel.value else ps.lastLevel;
    if level < LEVEL_FLOOR then Clamp(cfg.autoDialLevel, LEVEL_FLOOR, cfg.maxLevel) else level
  }

  /** The drop percentage a tick uses: the gauge, or the last one seen. */
  function DropPct(ps: PaceState, gauge: Option<real>): real {
    if gauge.Some? then gauge.value else ps.lastDropPct
  }

  function InputOf(cfg: Config, s: State, gauge: Option<real>, now: int): AdaptInput {
    var ps := PaceAt(cfg, s, now);
    AdaptInput(cfg.mode, DropPct(ps, gauge), cfg.adaptiveDropPct, CurrentLevel(cfg, s, ps), cfg.maxLevel,
               cfg.intensity, cfg.holdBand, ps.integral, now, cfg.tickSeconds as real,
               WarmUpActive(ps.warmUpCalls, ps.warmUpStarted, cfg.warmupMinSeconds, now), cfg.shift)
  }

  function ClampSince(cfg: Config, level: real, since: Option<int>, now: int): Option<int> {
    if level >= cfg.maxLevel || level <= LEVEL_FLOOR then (if since.None? then Some(now) else since) else None
  }

  /** What a decision writes back. */
  function AfterTick(cfg: Config, s: State, ps: PaceState, dropPct: real, warmUp: bool, out: AdaptOutput, now: int): State {
    State(
      if out.needsWrite then Some(out.newLevel) else s.dialLevel,
      Some(PaceState(out.newIntegral, out.newLevel, Some(now), dropPct, Some(out.action),
                     if warmUp then ps.warmUpCalls else 0, ps.warmUpStarted,
                     ClampSince(cfg, out.newLevel, ps.clampSince, now), ps.tickCount + 1)))
  }

  function TickStep(cfg: Config, s: State, gauge: Option<real>, now: int): State
    requires TargetDefined(cfg.mode, cfg.shift, now)
  {
    var ps, x := PaceAt(cfg, s, now), InputOf(cfg, s, gauge, now);
    AfterTick(cfg, s, ps, x.dropPct, x.warmUp, Decide(x), now)
  }

  /** Fields that were absent read as zero. */
  function CutPace(pace: Option<PaceState>, now: int): PaceState {
    match pace
    case None => PaceState(0.0, LEVEL_FLOOR, Some(now), 0.0, Some(FastCut), 0, None, None, 0)
    case Some(ps) =>
      ps.(integral := 0.0, lastLevel := LEVEL_FLOOR, lastTick := Some(now), lastAction := Some(FastCut))
  }

  function CutStep(s: State, now: int): State {
    if s.dialLevel == Some(LEVEL_FLOOR) then s else State(Some(LEVEL_FLOOR), Some(CutPace(s.pace, now)))
  }

  /** The campaign's keys in the store, and the two writers of them. */
  class CampaignKeys {
    var dialLevel: Option<real>
    var pace: Option<PaceState>

    function Contents(): State
      reads this
    {
      State(dialLevel, pace)
    }

    constructor ()
      ensures Contents() == State(None, None)
    {
      dialLevel, pace := None, None;
    }

    method RunTick(cfg: Config, gauge: Option<real>, now: int)
      requires TargetDefined(cfg.mode, cfg.shift, now)
      modifies this
      ensures Contents() == TickStep(cfg, old(Contents()), gauge, now)
    {
      var ps: PaceState;
      var dropPct := 0.0;
      if gauge.Some? {
        dropPct := gauge.value;
      }
      if pace.None? {
        ps := InitPaceState(cfg, now);
      } else {
        ps := pace.value;
        if gauge.None? {
          dropPct := ps.lastDropPct;
        }
      }
      var currentLevel := if dialLevel.Some? then dialLevel.value else ps.lastLevel;
      if currentLevel < LEVEL_FLOOR {
        currentLevel := Clamp(cfg.autoDialLevel, LEVEL_FLOOR, cfg.maxLevel);
      }
      var warmUp := WarmUpActive(ps.warmUpCalls, ps.warmUpStarted, cfg.warmupMinSeconds, now);
      var x := AdaptInput(cfg.mode, dropPct, cfg.adaptiveDropPct, currentLevel, cfg.maxLevel, cfg.intensity,
                          cfg.holdBand, ps.integral, now, cfg.tickSeconds as real, warmUp, cfg.shift);
      assert x == InputOf(cfg, Contents(), gauge, now);
      WriteBack(cfg, ps, dropPct, warmUp, Decide(x), now);
    }

    method WriteBack(cfg: Config, loaded: PaceState, dropPct: real, warmUp: bool, out: AdaptOutput, now: int)
      modifies this
      ensures Contents() == AfterTick(cfg, old(Contents()), loaded, dropPct, warmUp, out, now)
    {
      if out.needsWrite {
        dialLevel := Some(out.newLevel);
      }
      var ps := loaded.(integral := out.newIntegral, lastLevel := out.newLevel, lastTick := Some(now),
                        lastDropPct := dropPct, lastAction := Some(out.action), tickCount := loaded.tickCount + 1);
      if !warmUp {
        ps := ps.(warmUpCalls := 0);
      }
      if out.newLevel >= cfg.maxLevel || out.newLevel <= LEVEL_FLOOR {
        if ps.clampSince.None? {
          ps := ps.(clampSince := Some(now));
        }
      } else {
        ps := ps.(clampSince := None);
      }
      pace := Some(ps);
    }

    method ApplyFastCut(now: int)
      modifies this
      ensures Contents() == CutStep(old(Contents()), now)
    {
      if dialLevel.Some? && dialLevel.value == LEVEL_FLOOR {
        return;
      }
      dialLevel := Some(LEVEL_FLOOR);
      if pace.Some? {
        pace := Some(pace.value.(integral := 0.0, lastLevel := LEVEL_FLOOR, lastTick := Some(now),
                                 lastAction := Some(FastCut)));
      } else {
        pace := Some(PaceState(0.0, LEVEL_FLOOR, Some(now), 0.0, Some(FastCut), 0, None, None, 0));
      }
    }
  }

  // ------------------------------------------------------------------------- runs

  datatype Event = Tick(gauge: Option<real>, now: int) | Cut(now: int)

  function Step(cfg: Config, s: State, e: Event): State
    requires TargetsDefined(cfg)
  {
    match e
    case Tick(gauge, now) => TickStep(cfg, s, gauge, now)
    case Cut(now) => CutStep(s, now)
  }

  function Run(cfg: Config, s: State, events: seq<Event>): State
    requires TargetsDefined(cfg)
    decreases |events|
  {
    if events == [] then s else Run(cfg, Step(cfg, s, events[0]), events[1..])
  }

  const COLD_START := State(None, None)

  /** What every run keeps: a published level is the saved one, a saved level lies in
      [1, max], and a saved integral within its clamp. */
  predicate Inv(cfg: Config, s: State) {
    && (s.dialLevel.Some? ==>
          s.pace.Some? && s.dialLevel.value == s.pace.value.lastLevel && Settled(cfg.maxLevel, s.dialLevel.value))
    && (s.pace.Some? ==>
          LEVEL_FLOOR <= s.pace.value.lastLevel <= cfg.maxLevel && Abs(s.pace.value.integral) <= INTEGRAL_MAX)
  }

  lemma InvNoRunaway(cfg: Config, s: State)
    requires Inv(cfg, s) && s.pace.Some?
    ensures !Runaway(s.pace.value.integral)
  {}

  predicate Runaway(integral: real) { integral > INTEGRAL_MAX * 1.5 || integral < -INTEGRAL_MAX * 1.5 }

  lemma FloorOnGrid()
    ensures OnGrid(LEVEL_FLOOR)
  {}

  /** In a run the level a tick starts from is the saved one. */
  lemma InvLevel(cfg: Config, s: State, now: int)
    requires Loaded(cfg) && Inv(cfg, s)
    ensures
      var ps := PaceAt(cfg, s, now);
      && LEVEL_FLOOR <= ps.lastLevel <= cfg.maxLevel && Abs(ps.integral) <= INTEGRAL_MAX
      && CurrentLevel(cfg, s, ps) == ps.lastLevel
  {}

  lemma UnwrittenIsPublished(x: AdaptInput)
    requires InputDefined(x) && LEVEL_FLOOR <= x.currentLevel <= x.maxLevel
    requires Settled(x.maxLevel, x.currentLevel) && !Decide(x).needsWrite
    ensures Decide(x).newLevel == x.currentLevel
  {
    DecideBounded(x);
  }

  lemma StepKeepsInv(cfg: Config, s: State, e: Event)
    requires Loaded(cfg) && Inv(cfg, s)
    ensures Inv(cfg, Step(cfg, s, e))
  {
    match e
    case Cut(now) => FloorOnGrid();
    case Tick(gauge, now) =>
      InvLevel(cfg, s, now);
      var x := InputOf(cfg, s, gauge, now);
      DecideBounded(x);
      if !Decide(x).needsWrite && s.dialLevel.Some? {
        UnwrittenIsPublished(x);
      }
  }

  lemma {:induction false} RunKeepsInv(cfg: Config, s: State, events: seq<Event>)
    requires Loaded(cfg) && Inv(cfg, s)
    ensures Inv(cfg, Run(cfg, s, events))
    decreases |events|
  {
    if events != [] {
      StepKeepsInv(cfg, s, events[0]);
      RunKeepsInv(cfg, Step(cfg, s, events[0]), events[1..]);
    }
  }

  /** The run invariant: from a cold start, after any ticks and fast cuts, the published
      level is the saved one, both bounds hold and the runaway check does not fire. */
  lemma ReachableStates(cfg: Config, events: seq<Event>)
    requires Loaded(cfg)
    ensures Inv(cfg, Run(cfg, COLD_START, events))
    ensures
      var s := Run(cfg, COLD_START, events);
      s.pace.Some? ==> !Runaway(s.pace.value.integral)
  {
    RunKeepsInv(cfg, COLD_START, events);
    var s := Run(cfg, COLD_START, events);
    if s.pace.Some? {
      InvNoRunaway(cfg, s);
    }
  }

  // ------------------------------------------------------------- the warm-up gate

  /** Whether every tick comes within the warm-up's seconds of its start. */
  predicate AllWithin(cfg: Config, started: Option<int>, events: seq<Event>) {
    forall i :: 0 <= i < |events| ==> events[i].Tick? ==> Within(cfg, started, events[i].now)
  }

  predicate Within(cfg: Config, started: Option<int>, now: int) {
    started.None? || WholeSeconds(now - started.value) < cfg.warmupMinSeconds
  }

  lemma WarmUpStep(cfg: Config, s: State, e: Event)
    requires TargetsDefined(cfg) && s.pace.Some?
    ensures
      var t, started := Step(cfg, s, e), s.pace.value.warmUpStarted;
      && t.pace.Some? && t.pace.value.warmUpStarted == started
      && (t.pace.value.warmUpCalls > 0 <==>
            s.pace.value.warmUpCalls > 0 && (e.Tick? ==> Within(cfg, started, e.now)))
  {}

  /** A warm-up goes on as long as every tick comes within it; cuts neither end it nor
      bring it back. */
  lemma {:induction false} WarmUpLasts(cfg: Config, s: State, events: seq<Event>)
    requires TargetsDefined(cfg) && s.pace.Some?
    ensures
      var t, started := Run(cfg, s, events), s.pace.value.warmUpStarted;
      && t.pace.Some? && t.pace.value.warmUpStarted == started
      && (t.pace.value.warmUpCalls > 0 <==> s.pace.value.warmUpCalls > 0 && AllWithin(cfg, started, events))
    decreases |events|
  {
    if events != [] {
      WarmUpStep(cfg, s, events[0]);
      WarmUpLasts(cfg, Step(cfg, s, events[0]), events[1..]);
      assert forall i :: 0 < i < |events| ==> events[i] == events[1..][i - 1];
    }
  }

  /** Whether the tick that comes next is held back by the warm-up gate. */
  predicate Inhibited(cfg: Config, s: State, now: int) {
    var ps := PaceAt(cfg, s, now);
    WarmUpActive(ps.warmUpCalls, ps.warmUpStarted, cfg.warmupMinSeconds, now)
  }

  /** When the warm-up gate is honoured.  After any run from a cold start the next tick is
      held back exactly when calls are asked for, the run began with a tick - a cut that
      comes first leaves a state with no calls to wait for - and every tick since, the
      next one included, comes within the configured seconds of that first tick. */
  lemma InhibitedExact(cfg: Config, events: seq<Event>, now: int)
    requires TargetsDefined(cfg)
    ensures Inhibited(cfg, Run(cfg, COLD_START, events), now) <==>
            && cfg.warmupMinAnswered > 0
            && (if events == [] then cfg.warmupMinSeconds > 0
                else && events[0].Tick?
                     && AllWithin(cfg, Some(events[0].now), events) && Within(cfg, Some(events[0].now), now))
  {
    if events != [] {
      var s := Step(cfg, COLD_START, events[0]);
      WarmUpLasts(cfg, s, events[1..]);
      FirstStep(cfg, events[0]);
      assert forall i :: 0 < i < |events| ==> events[i] == events[1..][i - 1];
    }
  }

  lemma FirstStep(cfg: Config, e: Event)
    requires TargetsDefined(cfg)
    ensures
      var s := Step(cfg, COLD_START, e);
      && s.pace.Some?
      && (e.Tick? ==> s.pace.value.warmUpStarted == Some(e.now))
      && (s.pace.value.warmUpCalls > 0 <==>
            e.Tick? && cfg.warmupMinAnswered > 0 && Within(cfg, Some(e.now), e.now))
  {}

  /** A tick that is held back changes neither level nor integral and publishes nothing. */
  lemma InhibitedTickHolds(cfg: Config, s: State, gauge: Option<real>, now: int)
    requires Loaded(cfg) && Inv(cfg, s) && Inhibited(cfg, s, now)
    ensures
      var t, ps := TickStep(cfg, s, gauge, now), PaceAt(cfg, s, now);
      && t.dialLevel == s.dialLevel
      && t.pace.Some? && t.pace.value.lastLevel == ps.lastLevel && t.pace.value.integral == ps.integral
  {
    InvLevel(cfg, s, now);
  }

  // ------------------------------------------------------------- sustained breaches

  /** The error a tick works with. */
  function ErrorOf(cfg: Config, s: State, gauge: Option<real>, now: int): real
    requires TargetsDefined(cfg)
  {
    ResolveTarget(cfg.mode, cfg.adaptiveDropPct, cfg.shift, now) - DropPct(PaceAt(cfg, s, now), gauge)
  }

  /** Drops above target by more than the hold band. */
  predicate Breached(cfg: Config, s: State, e: Event)
    requires TargetsDefined(cfg)
  {
    e.Tick? && ErrorOf(cfg, s, e.gauge, e.now) < -cfg.holdBand
  }

  /** Drops at or above target. */
  predicate OverTarget(cfg: Config, s: State, e: Event)
    requires TargetsDefined(cfg)
  {
    e.Tick? && ErrorOf(cfg, s, e.gauge, e.now) <= 0.0
  }

  predicate AllBreached(cfg: Config, s: State, events: seq<Event>)
    requires TargetsDefined(cfg)
    decreases |events|
  {
    events != [] ==> Breached(cfg, s, events[0]) && AllBreached(cfg, Step(cfg, s, events[0]), events[1..])
  }

  predicate AllOverTarget(cfg: Config, s: State, events: seq<Event>)
    requires TargetsDefined(cfg)
    decreases |events|
  {
    events != [] ==> OverTarget(cfg, s, events[0]) && AllOverTarget(cfg, Step(cfg, s, events[0]), events[1..])
  }

  /** A campaign past its warm-up. */
  predicate Warm(cfg: Config, s: State) { Inv(cfg, s) && s.pace.Some? && s.pace.value.warmUpCalls <= 0 }

  function Level(s: State): real
    requires s.pace.Some?
  {
    s.pace.value.lastLevel
  }

  function Integral(s: State): real
    requires s.pace.Some?
  {
    s.pace.value.integral
  }

  /** At the floor, and held there. */
  predicate Held(s: State) { s.pace.Some? && Level(s) == LEVEL_FLOOR && Integral(s) <= 0.0 }

  function DescentPerTick(cfg: Config): real { Descent(cfg.intensity, cfg.tickSeconds as real, cfg.holdBand) }

  lemma WarmTick(cfg: Config, s: State, e: Event)
    requires Loaded(cfg) && Warm(cfg, s) && e.Tick?
    ensures
      var x, t := InputOf(cfg, s, e.gauge, e.now), Step(cfg, s, e);
      && Warm(cfg, t)
      && !x.warmUp && x.currentLevel == Level(s) && x.lastIntegral == Integral(s)
      && Level(t) == Decide(x).newLevel && Integral(t) == Decide(x).newIntegral
  {
    StepKeepsInv(cfg, s, e);
    InvLevel(cfg, s, e.now);
  }

  lemma BreachedTick(cfg: Config, s: State, e: Event)
    requires Loaded(cfg) && cfg.mode != AdaptHard && Warm(cfg, s) && Breached(cfg, s, e)
    ensures Warm(cfg, Step(cfg, s, e))
    ensures Descends(Level(s), Integral(s), DescentPerTick(cfg),
                     Move(Level(Step(cfg, s, e)), Integral(Step(cfg, s, e))))
  {
    WarmTick(cfg, s, e);
    var x := InputOf(cfg, s, e.gauge, e.now);
    BreachStep(x, ErrorOf(cfg, s, e.gauge, e.now), cfg.maxLevel, Level(s));
  }

  lemma OverTargetTick(cfg: Config, s: State, e: Event)
    requires Loaded(cfg) && cfg.mode == AdaptHard && Warm(cfg, s) && OverTarget(cfg, s, e)
    ensures
      var t := Step(cfg, s, e);
      Warm(cfg, t) && (Level(t) == LEVEL_FLOOR || GridSteps(Level(t)) <= GridSteps(Level(s)) - 3)
  {
    WarmTick(cfg, s, e);
    HardStep(InputOf(cfg, s, e.gauge, e.now), cfg.adaptiveDropPct, cfg.maxLevel, Level(s));
  }

  function Ceil(x: real): int { -(-x).Floor }

  /** Ticks that bring any integral down to -0.025. */
  function UnwindTicks(cfg: Config): int
    requires Loaded(cfg)
  {
    DescentPositive(cfg.intensity, cfg.tickSeconds as real, cfg.holdBand);
    Ceil(0.525 / DescentPerTick(cfg))
  }

  lemma UnwindEnough(cfg: Config)
    requires Loaded(cfg)
    ensures UnwindTicks(cfg) >= 0 && UnwindTicks(cfg) as real * DescentPerTick(cfg) - 0.025 >= INTEGRAL_MAX
  {
    var d := DescentPerTick(cfg);
    DescentPositive(cfg.intensity, cfg.tickSeconds as real, cfg.holdBand);
    var q := 0.525 / d;
    assert q * d == 0.525 && q > 0.0;
    Scaled(d, q, Ceil(q) as real);
  }

  lemma HeldStays(cfg: Config, s: State, e: Event)
    requires Loaded(cfg) && cfg.mode != AdaptHard && Warm(cfg, s) && Breached(cfg, s, e) && Held(s)
    ensures Held(Step(cfg, s, e))
  {
    BreachedTick(cfg, s, e);
  }

  /** u bounds the ticks that the integral still needs, g the grid steps then left. */
  predicate BudgetOf(maxLevel: real, d: real, m: Move, u: nat, g: nat) {
    m.integral <= u as real * d - 0.025 && GridSteps(if u > 0 then maxLevel else m.level) <= g
  }

  function MoveOf(s: State): Move
    requires s.pace.Some?
  {
    Move(Level(s), Integral(s))
  }

  predicate Budget(cfg: Config, s: State, u: nat, g: nat)
    requires s.pace.Some?
  {
    BudgetOf(cfg.maxLevel, DescentPerTick(cfg), MoveOf(s), u, g)
  }

  lemma DescentSpends(maxLevel: real, d: real, m: Move, n: Move, u: nat, g: nat)
    requires d > 0.0 && Descends(m.level, m.integral, d, n) && BudgetOf(maxLevel, d, m, u, g) && u + g > 0
    requires m.level <= maxLevel && LEVEL_FLOOR <= n.level <= maxLevel
    ensures
      || (n.level == LEVEL_FLOOR && n.integral <= 0.0)
      || (if u > 0 then BudgetOf(maxLevel, d, n, u - 1, g) else BudgetOf(maxLevel, d, n, 0, g - 1))
  {
    GridStepsMonotonic(n.level, maxLevel);
    if u > 0 {
      assert u as real * d - d == (u - 1) as real * d;
      Scaled(d, 0.0, (u - 1) as real);
    }
  }

  lemma BudgetFalls(cfg: Config, s: State, e: Event, u: nat, g: nat)
    requires Loaded(cfg) && cfg.mode != AdaptHard && Warm(cfg, s) && Breached(cfg, s, e)
    requires Budget(cfg, s, u, g) && u + g > 0
    ensures
      var t := Step(cfg, s, e);
      Held(t) || (t.pace.Some? && if u > 0 then Budget(cfg, t, u - 1, g) else Budget(cfg, t, 0, g - 1))
  {
    BreachedTick(cfg, s, e);
    DescentPositive(cfg.intensity, cfg.tickSeconds as real, cfg.holdBand);
    DescentSpends(cfg.maxLevel, DescentPerTick(cfg), MoveOf(s), MoveOf(Step(cfg, s, e)), u, g);
  }

  lemma BudgetSpent(cfg: Config, s: State)
    requires Loaded(cfg) && Warm(cfg, s) && Budget(cfg, s, 0, 0)
    ensures Held(s)
  {
    GridStepsMonotonic(Level(s), Level(s));
  }

  lemma {:induction false} BreachDescends(cfg: Config, s: State, events: seq<Event>, u: nat, g: nat)
    requires Loaded(cfg) && cfg.mode != AdaptHard && Warm(cfg, s) && AllBreached(cfg, s, events)
    requires Held(s) || (Budget(cfg, s, u, g) && u + g <= |events|)
    ensures Held(Run(cfg, s, events))
    decreases |events|
  {
    if events == [] {
      if !Held(s) {
        BudgetSpent(cfg, s);
      }
    } else {
      var t := Step(cfg, s, events[0]);
      BreachedTick(cfg, s, events[0]);
      if !Held(s) && u + g == 0 {
        BudgetSpent(cfg, s);
      }
      if Held(s) {
        HeldStays(cfg, s, events[0]);
        BreachDescends(cfg, t, events[1..], 0, 0);
      } else {
        BudgetFalls(cfg, s, events[0], u, g);
        BreachDescends(cfg, t, events[1..], if u > 0 then u - 1 else 0, if u > 0 then g else g - 1);
      }
    }
  }

  lemma FullBudget(cfg: Config, s: State)
    requires Loaded(cfg) && Warm(cfg, s)
    ensures UnwindTicks(cfg) >= 0 && GridSteps(cfg.maxLevel) >= 0
    ensures Budget(cfg, s, UnwindTicks(cfg), GridSteps(cfg.maxLevel))
  {
    UnwindEnough(cfg);
    GridStepsMonotonic(Level(s), cfg.maxLevel);
    GridStepsMonotonic(LEVEL_FLOOR, cfg.maxLevel);
  }

  /** Convergence of the PI modes: from any warm state, a breach that lasts as many
      ticks as the integral needs to unwind and the grid has steps brings the level to
      1.0, and it is there after every longer breach. */
  lemma BreachReachesFloor(cfg: Config, s: State, events: seq<Event>)
    requires Loaded(cfg) && cfg.mode != AdaptHard && Warm(cfg, s) && AllBreached(cfg, s, events)
    requires |events| >= UnwindTicks(cfg) + GridSteps(cfg.maxLevel)
    ensures Run(cfg, s, events).pace.Some? && Level(Run(cfg, s, events)) == 1.0
    ensures var published := Run(cfg, s, events).dialLevel; published.Some? ==> published.value == 1.0
  {
    FullBudget(cfg, s);
    BreachDescends(cfg, s, events, UnwindTicks(cfg), GridSteps(cfg.maxLevel));
    RunKeepsInv(cfg, s, events);
  }

  lemma {:induction false} HardDescends(cfg: Config, s: State, events: seq<Event>)
    requires Loaded(cfg) && cfg.mode == AdaptHard && Warm(cfg, s) && AllOverTarget(cfg, s, events)
    requires GridSteps(Level(s)) <= 3 * |events|
    ensures Run(cfg, s, events).pace.Some? && Level(Run(cfg, s, events)) == LEVEL_FLOOR
    decreases |events|
  {
    GridStepsMonotonic(Level(s), Level(s));
    if events != [] {
      OverTargetTick(cfg, s, events[0]);
      var t := Step(cfg, s, events[0]);
      GridStepsMonotonic(Level(t), Level(t));
      HardDescends(cfg, t, events[1..]);
    }
  }

  lemma StepsInThrees(level: real, n: nat)
    requires n >= Ceil((20.0 * level - 20.0) / 3.0)
    ensures GridSteps(level) <= 3 * n
  {
    assert (20.0 * level - 20.0) / 3.0 <= n as real;
  }

  /** Convergence of the hard limit: a third as many over-target ticks as there are
      grid steps above the floor bring the level to 1.0, and it is there after every
      longer run of them. */
  lemma OverTargetReachesFloor(cfg: Config, s: State, events: seq<Event>)
    requires Loaded(cfg) && cfg.mode == AdaptHard && Warm(cfg, s) && AllOverTarget(cfg, s, events)
    requires |events| >= Ceil((20.0 * Level(s) - 20.0) / 3.0)
    ensures Run(cfg, s, events).pace.Some? && Level(Run(cfg, s, events)) == 1.0
    ensures var published := Run(cfg, s, events).dialLevel; published.Some? ==> published.value == 1.0
  {
    StepsInThrees(Level(s), |events|);
    HardDescends(cfg, s, events);
    RunKeepsInv(cfg, s, events);
  }

  // --------------------------------------------------------------------- quiet runs

  predicate AllInDeadband(cfg: Config, s: State, events: seq<Event>)
    requires TargetsDefined(cfg)
    decreases |events|
  {
    events != [] ==>
      && events[0].Tick? && Abs(ErrorOf(cfg, s, events[0].gauge, events[0].now)) <= cfg.holdBand
      && AllInDeadband(cfg, Step(cfg, s, events[0]), events[1..])
  }

  /** An integral after n ticks of bleeding. */
  function Bled(integral: real, n: nat): real
    decreases n
  {
    if n == 0 then integral else Bled(integral * INTEGRAL_BLEED, n - 1)
  }

  /** While drops stay within the hold band the PI modes leave the level alone and the
      integral decays geometrically. */
  lemma {:induction false} DeadbandHolds(cfg: Config, s: State, events: seq<Event>)
    requires Loaded(cfg) && cfg.mode != AdaptHard && Warm(cfg, s) && AllInDeadband(cfg, s, events)
    ensures
      var t := Run(cfg, s, events);
      && t.pace.Some? && t.dialLevel == s.dialLevel
      && Level(t) == Level(s) && Integral(t) == Bled(Integral(s), |events|)
    decreases |events|
  {
    if events != [] {
      WarmTick(cfg, s, events[0]);
      DeadbandHolds(cfg, Step(cfg, s, events[0]), events[1..]);
    }
  }
}
