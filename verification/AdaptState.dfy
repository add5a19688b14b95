/** What the loop keeps in its two keys: the configuration as it is taken in, what a tick
    reads and writes, when it publishes, and since when the level has stood at a bound. */
module AdaptState {
  import opened Wrappers
  import opened Adapt
  import opened AdaptLoop

  // ------------------------------------------------------------------- configuration

  predicate InRange(cfg: Config) {
    && 1.0 <= cfg.autoDialLevel <= cfg.maxLevel
    && cfg.holdBand > 0.0 && 1 <= cfg.tickSeconds <= 60
    && cfg.warmupMinAnswered >= 0 && cfg.warmupMinSeconds >= 0
    && -20 <= cfg.intensity <= 20
  }

  /** Validation changes exactly the configurations that are out of range and always leaves
      one in range: a field out of range goes to the nearer bound, but for a hold band and a
      tick that are not positive, which take their defaults. */
  lemma ValidatedExact(cfg: Config)
    ensures Validated(cfg) == cfg <==> InRange(cfg)
    ensures InRange(Validated(cfg))
    ensures
      var v := Validated(cfg);
      && v.mode == cfg.mode && v.adaptiveDropPct == cfg.adaptiveDropPct && v.shift == cfg.shift
      && v.maxLevel == (if cfg.maxLevel <= 1.0 then 1.0 else cfg.maxLevel)
      && v.autoDialLevel == (if cfg.autoDialLevel <= 1.0 then 1.0
                             else if cfg.autoDialLevel >= v.maxLevel then v.maxLevel else cfg.autoDialLevel)
      && v.holdBand == (if cfg.holdBand > 0.0 then cfg.holdBand else 0.3)
      && v.tickSeconds == (if cfg.tickSeconds <= 0 then 15 else if cfg.tickSeconds >= 60 then 60 else cfg.tickSeconds)
      && v.warmupMinAnswered == (if cfg.warmupMinAnswered > 0 then cfg.warmupMinAnswered else 0)
      && v.warmupMinSeconds == (if cfg.warmupMinSeconds > 0 then cfg.warmupMinSeconds else 0)
      && v.intensity == (if cfg.intensity <= -20 then -20 else if cfg.intensity >= 20 then 20 else cfg.intensity)
  {}

  // --------------------------------------------------------------------- the warm-up

  /** Within the warm-up: fewer milliseconds have passed than it lasts; without a time only
      a clock that has gone back a whole second counts. */
  lemma WithinExact(cfg: Config, started: int, now: int)
    requires cfg.warmupMinSeconds >= 0
    ensures Within(cfg, Some(started), now) <==>
            if cfg.warmupMinSeconds > 0 then now - started < 1000 * cfg.warmupMinSeconds else now - started <= -1000
  {}

  // -------------------------------------------------------------------- what is read

  /** What a decision is made from: the configuration, the gauge or the percentage of the
      tick before, and the saved state; at the first tick the configured start level. */
  lemma TickReads(cfg: Config, s: State, gauge: Option<real>, now: int)
    requires Loaded(cfg) && Inv(cfg, s)
    ensures
      var x := InputOf(cfg, s, gauge, now);
      && x.mode == cfg.mode && x.adaptiveDropPct == cfg.adaptiveDropPct && x.shift == cfg.shift && x.now == now
      && x.maxLevel == cfg.maxLevel && x.intensity == cfg.intensity && x.holdBand == cfg.holdBand
      && x.tickSeconds == cfg.tickSeconds as real
      && (gauge.Some? ==> x.dropPct == gauge.value)
      && (gauge.None? ==> x.dropPct == if s.pace.Some? then s.pace.value.lastDropPct else 0.0)
      && x.currentLevel == (if s.pace.Some? then s.pace.value.lastLevel else cfg.autoDialLevel)
      && x.lastIntegral == (if s.pace.Some? then s.pace.value.integral else 0.0)
      && (x.warmUp <==> Inhibited(cfg, s, now))
  {
    InvLevel(cfg, s, now);
  }

  /** Whoever published it, the level in the key goes before the saved one; a level below 1
      counts as none, and the configured one is taken. */
  lemma TickReadsPublished(cfg: Config, s: State, gauge: Option<real>, now: int)
    requires Loaded(cfg) && s.dialLevel.Some?
    ensures InputOf(cfg, s, gauge, now).currentLevel ==
            if s.dialLevel.value < 1.0 then cfg.autoDialLevel else s.dialLevel.value
  {}

  // ----------------------------------------------------------------- what is written

  /** What a tick writes: the decision, the percentage, its time and one tick more; the
      level is published when it has changed from one on the grid. */
  lemma TickWrites(cfg: Config, s: State, gauge: Option<real>, now: int)
    requires Loaded(cfg) && Inv(cfg, s)
    ensures
      var x, t := InputOf(cfg, s, gauge, now), TickStep(cfg, s, gauge, now);
      && t.pace.Some?
      && var ps := t.pace.value;
      && ps.lastLevel == Decide(x).newLevel && ps.integral == Decide(x).newIntegral
      && ps.lastAction == Some(Decide(x).action) && ps.lastDropPct == x.dropPct && ps.lastTick == Some(now)
      && ps.tickCount == 1 + (if s.pace.Some? then s.pace.value.tickCount else 0)
      && (OnGrid(x.currentLevel) ==>
            t.dialLevel == if ps.lastLevel != x.currentLevel then Some(ps.lastLevel) else s.dialLevel)
  {
    InvLevel(cfg, s, now);
    if OnGrid(InputOf(cfg, s, gauge, now).currentLevel) {
      PublishedExact(InputOf(cfg, s, gauge, now));
    }
  }

  /** Exactly a changed level is published. */
  lemma PublishedExact(x: AdaptInput)
    requires InputDefined(x) && OnGrid(x.currentLevel) && 1.0 <= x.currentLevel <= Ceiling(x.maxLevel)
    ensures Decide(x).needsWrite <==> Decide(x).newLevel != x.currentLevel
  {}

  /** A fast cut publishes 1.00 and saves it with a zero integral, keeping what else was
      saved; where 1.00 is published it does nothing. */
  lemma CutExact(s: State, now: int)
    ensures
      var t := CutStep(s, now);
      && t.dialLevel == Some(1.0)
      && (s.dialLevel == Some(1.0) ==> t == s)
      && (s.dialLevel != Some(1.0) ==>
            && t.pace.Some? && t.pace.value.lastLevel == 1.0 && t.pace.value.integral == 0.0
            && t.pace.value.lastTick == Some(now) && t.pace.value.lastAction == Some(FastCut)
            && (s.pace.Some? ==>
                  && t.pace.value.tickCount == s.pace.value.tickCount && t.pace.value.clampSince == s.pace.value.clampSince
                  && t.pace.value.lastDropPct == s.pace.value.lastDropPct
                  && t.pace.value.warmUpCalls == s.pace.value.warmUpCalls
                  && t.pace.value.warmUpStarted == s.pace.value.warmUpStarted)
            && (s.pace.None? ==>
                  t.pace.value.warmUpCalls == 0 && t.pace.value.tickCount == 0 && t.pace.value.clampSince == None))
  {}

  // -------------------------------------------------------- how long at a bound

  predicate AtBound(cfg: Config, s: State) {
    s.pace.Some? && (s.pace.value.lastLevel <= 1.0 || s.pace.value.lastLevel >= cfg.maxLevel)
  }

  predicate OnlyTicks(events: seq<Event>) {
    forall i :: 0 <= i < |events| ==> events[i].Tick?
  }

  function After(cfg: Config, s: State, events: seq<Event>, n: nat): State
    requires TargetsDefined(cfg) && n <= |events|
  {
    Run(cfg, s, events[..n])
  }

  lemma {:induction false} RunLast(cfg: Config, s: State, events: seq<Event>)
    requires TargetsDefined(cfg) && events != []
    ensures Run(cfg, s, events) == Step(cfg, Run(cfg, s, events[..|events| - 1]), events[|events| - 1])
    decreases |events|
  {
    if |events| == 1 {
      assert events[1..] == [] && events[..0] == [];
    } else {
      RunLast(cfg, Step(cfg, s, events[0]), events[1..]);
      assert events[1..][..|events| - 2] == events[..|events| - 1][1..];
    }
  }

  /** Tick k is where the level came to a bound that it has not left since. */
  predicate CameAt(cfg: Config, s: State, events: seq<Event>, k: nat)
    requires TargetsDefined(cfg) && k < |events|
  {
    && !AtBound(cfg, After(cfg, s, events, k))
    && forall j :: k < j <= |events| ==> AtBound(cfg, After(cfg, s, events, j))
  }

  predicate Came(cfg: Config, s: State, events: seq<Event>)
    requires TargetsDefined(cfg)
  {
    exists k :: 0 <= k < |events| && CameAt(cfg, s, events, k)
  }

  /** Whether the saved time is right after a run of ticks. */
  predicate SinceRight(cfg: Config, s: State, events: seq<Event>)
    requires TargetsDefined(cfg)
  {
    var t := Run(cfg, s, events);
    t.pace.Some? &&
    if !AtBound(cfg, t) then events != [] ==> t.pace.value.clampSince == None
    else forall k :: 0 <= k < |events| && CameAt(cfg, s, events, k) ==> t.pace.value.clampSince == Some(events[k].now)
  }

  lemma SinceStep(cfg: Config, s: State, e: Event)
    requires Loaded(cfg) && s.pace.Some? && e.Tick?
    ensures
      var t := Step(cfg, s, e);
      && t.pace.Some?
      && t.pace.value.clampSince ==
         if !AtBound(cfg, t) then None
         else if s.pace.value.clampSince.Some? then s.pace.value.clampSince
         else Some(e.now)
  {}

  lemma CameBefore(cfg: Config, s: State, events: seq<Event>, k: nat)
    requires TargetsDefined(cfg) && k < |events| - 1 && CameAt(cfg, s, events, k)
    ensures CameAt(cfg, s, events[..|events| - 1], k)
  {
    var fewer := events[..|events| - 1];
    assert forall j :: 0 <= j < |events| ==> events[..j] == fewer[..j];
    forall j | k < j <= |fewer| ensures AtBound(cfg, After(cfg, s, fewer, j)) {
      assert AtBound(cfg, After(cfg, s, events, j));
    }
  }

  /** Where the level came to its bound, seen from one tick before. */
  lemma CameSeenBefore(cfg: Config, s: State, events: seq<Event>, k: nat)
    requires TargetsDefined(cfg) && k < |events| && CameAt(cfg, s, events, k)
    requires SinceRight(cfg, s, events[..|events| - 1])
    ensures
      var before := Run(cfg, s, events[..|events| - 1]);
      && before.pace.Some?
      && if k == |events| - 1 then !AtBound(cfg, before)
         else AtBound(cfg, before) && before.pace.value.clampSince == Some(events[k].now)
  {
    var m := |events| - 1;
    assert After(cfg, s, events, m) == Run(cfg, s, events[..m]);
    if k < m {
      CameBefore(cfg, s, events, k);
      assert AtBound(cfg, After(cfg, s, events, m));
    }
  }

  /** One tick more, at a bound. */
  lemma SinceAtBound(cfg: Config, s: State, events: seq<Event>)
    requires Loaded(cfg) && s.pace.Some? && events != [] && OnlyTicks(events)
    requires
      var before := Run(cfg, s, events[..|events| - 1]);
      && SinceRight(cfg, s, events[..|events| - 1]) && before.pace.Some?
      && (AtBound(cfg, before) <==> before.pace.value.clampSince.Some?)
    requires AtBound(cfg, Run(cfg, s, events))
    ensures SinceRight(cfg, s, events) && Run(cfg, s, events).pace.value.clampSince.Some?
  {
    var m := |events| - 1;
    RunLast(cfg, s, events);
    SinceStep(cfg, Run(cfg, s, events[..m]), events[m]);
    forall k | 0 <= k < |events| && CameAt(cfg, s, events, k)
      ensures Run(cfg, s, events).pace.value.clampSince == Some(events[k].now)
    {
      CameSeenBefore(cfg, s, events, k);
    }
  }

  /** When the level came to the bound that it is at. */
  lemma SomeTickBrought(cfg: Config, s: State, events: seq<Event>)
    requires TargetsDefined(cfg) && events != [] && AtBound(cfg, Run(cfg, s, events))
    requires AtBound(cfg, Run(cfg, s, events[..|events| - 1])) ==> Came(cfg, s, events[..|events| - 1])
    ensures Came(cfg, s, events)
  {
    var m := |events| - 1;
    assert events[..m + 1] == events;
    if AtBound(cfg, Run(cfg, s, events[..m])) {
      var k :| 0 <= k < m && CameAt(cfg, s, events[..m], k);
      CameStill(cfg, s, events, k);
    } else {
      assert CameAt(cfg, s, events, m);
    }
  }

  /** In a run of ticks from inside the bounds the time saved with the state is none while
      the level is inside, and at a bound that of the tick that brought it there. */
  lemma {:induction false} ClampSinceExact(cfg: Config, s: State, events: seq<Event>)
    requires Loaded(cfg) && s.pace.Some? && s.pace.value.clampSince == None && !AtBound(cfg, s) && OnlyTicks(events)
    ensures SinceRight(cfg, s, events)
    ensures AtBound(cfg, Run(cfg, s, events)) ==> Came(cfg, s, events)
    ensures AtBound(cfg, Run(cfg, s, events)) <==> Run(cfg, s, events).pace.value.clampSince.Some?
    decreases |events|
  {
    if events != [] {
      var m := |events| - 1;
      ClampSinceExact(cfg, s, events[..m]);
      if AtBound(cfg, Run(cfg, s, events)) {
        SinceAtBound(cfg, s, events);
        SomeTickBrought(cfg, s, events);
      } else {
        RunLast(cfg, s, events);
        SinceStep(cfg, Run(cfg, s, events[..m]), events[m]);
      }
    }
  }

  lemma CameStill(cfg: Config, s: State, events: seq<Event>, k: nat)
    requires TargetsDefined(cfg) && k < |events| - 1 && CameAt(cfg, s, events[..|events| - 1], k)
    requires AtBound(cfg, Run(cfg, s, events))
    ensures CameAt(cfg, s, events, k)
  {
    var fewer := events[..|events| - 1];
    assert forall j :: 0 <= j < |events| ==> events[..j] == fewer[..j];
    assert events[..|events|] == events;
    forall j | k < j <= |events| ensures AtBound(cfg, After(cfg, s, events, j)) {
      if j < |events| {
        assert AtBound(cfg, After(cfg, s, fewer, j));
      }
    }
    assert After(cfg, s, events, k) == After(cfg, s, fewer, k);
  }
}
