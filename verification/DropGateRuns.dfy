/** What holds over whole runs of the drop gate. */
module DropGateRuns {
  import opened Wrappers
  import opened DropGate

  datatype Event =
    | Tick(dropPct: real, denominator: int, now: int)
    | ForceRelease(dropPct: real, now: int)
    | Recover(drops: nat, answered: nat, now: int)
    | Reconcile(stream: nat, db: nat, now: int)

  function Step(cfg: Config, w: World, e: Event): World {
    match e
    case Tick(dropPct, denominator, now) => TickWorld(cfg, w, dropPct, denominator, now)
    case ForceRelease(dropPct, now) => ForceWorld(w, dropPct, now)
    case Recover(drops, answered, now) => RecoverWorld(cfg, w, drops, answered, now)
    case Reconcile(stream, db, now) => DriftWorld(w, stream, db)
  }

  function Run(cfg: Config, w: World, events: seq<Event>): World
    decreases |events|
  {
    if events == [] then w
    else Step(cfg, Run(cfg, w, events[..|events| - 1]), events[|events| - 1])
  }

  const FRESH := World(NORMAL, None, false, None, [])

  // ------------------------------------------------------------ engaged means gated

  predicate EngagedIsGated(w: World) { w.state == HARD_BREACH ==> w.gated }

  /** Whatever ticks, force-releases, recoveries and reconciles happen in whatever
      order, an engaged gate has its key set. */
  lemma {:induction false} EngagedIsGatedAlways(cfg: Config, w: World, events: seq<Event>)
    requires EngagedIsGated(w)
    ensures EngagedIsGated(Run(cfg, w, events))
    decreases |events|
  {
    if events != [] {
      EngagedIsGatedAlways(cfg, w, events[..|events| - 1]);
    }
  }

  // -------------------------------------------------------- gated exactly if engaged

  predicate KeyExact(w: World) { w.gated <==> w.state == HARD_BREACH }

  /** Every event but a reconcile. */
  predicate GateEvents(events: seq<Event>) {
    forall i :: 0 <= i < |events| ==> !events[i].Reconcile?
  }

  predicate TicksAndReleases(events: seq<Event>) {
    forall i :: 0 <= i < |events| ==> events[i].Tick? || events[i].ForceRelease?
  }

  /** Entries alternate, engagements first, and the last one is an engagement exactly
      when the gate is engaged. */
  predicate LogExact(w: World) {
    && (forall i :: 0 <= i < |w.log| ==> (w.log[i].transition == Engage <==> i % 2 == 0))
    && (w.state == HARD_BREACH <==> |w.log| % 2 == 1)
  }

  /** The thresholds leave no percentage that releases the gate into a soft breach. */
  predicate ReleasesToNormal(cfg: Config) { ReleaseThreshold(cfg) <= SoftReturn(cfg) }

  /** The same in terms of the settings; the defaults just meet it, the FCC ceiling with
      the default soft cap does not. */
  lemma ReleasesToNormalExact(cfg: Config)
    ensures ReleasesToNormal(cfg) <==> EffectiveMax(cfg) <= 1.10 || EffectiveMax(cfg) <= cfg.targetSoft + 0.50
    ensures ReleasesToNormal(ApplyDefaults(Config(0.0, 0.0, 0.0, 0)))
    ensures !ReleasesToNormal(ApplyDefaults(Config(0.0, FCC_HARD_CEILING, 0.0, 0)))
  {}

  lemma {:induction false} KeyExactKept(cfg: Config, w: World, events: seq<Event>)
    requires ReleasesToNormal(cfg) && KeyExact(w) && GateEvents(events)
    ensures KeyExact(Run(cfg, w, events))
    decreases |events|
  {
    if events != [] {
      KeyExactKept(cfg, w, events[..|events| - 1]);
    }
  }

  lemma LogExactStep(cfg: Config, w: World, e: Event)
    requires ReleasesToNormal(cfg) && LogExact(w) && (e.Tick? || e.ForceRelease?)
    ensures LogExact(Step(cfg, w, e))
  {}

  lemma {:induction false} LogExactKept(cfg: Config, w: World, events: seq<Event>)
    requires ReleasesToNormal(cfg) && LogExact(w) && TicksAndReleases(events)
    ensures LogExact(Run(cfg, w, events))
    decreases |events|
  {
    if events != [] {
      LogExactKept(cfg, w, events[..|events| - 1]);
      LogExactStep(cfg, Run(cfg, w, events[..|events| - 1]), events[|events| - 1]);
    }
  }

  /** Two ticks: the gate engages, and a dwell later is released into a soft breach. */
  function SoftRelease(cfg: Config): seq<Event> {
    [Tick(EffectiveMax(cfg), WARMUP_DENOMINATOR, 0),
     Tick(SoftReturn(cfg), WARMUP_DENOMINATOR, cfg.recoverSeconds * 1000)]
  }

  lemma RunMore(cfg: Config, w: World, events: seq<Event>, e: Event)
    ensures Run(cfg, w, events + [e]) == Step(cfg, Run(cfg, w, events), e)
  {
    assert (events + [e])[..|events|] == events;
  }

  lemma RunTwo(cfg: Config, w: World, a: Event, b: Event)
    ensures Run(cfg, w, [a, b]) == Step(cfg, Step(cfg, w, a), b)
  {
    var none: seq<Event> := [];
    RunMore(cfg, w, none, a);
    RunMore(cfg, w, none + [a], b);
    assert none + [a] + [b] == [a, b];
  }

  lemma SoftReleaseBreaksKey(cfg: Config)
    requires Valid(cfg) && !ReleasesToNormal(cfg)
    ensures TicksAndReleases(SoftRelease(cfg))
    ensures !KeyExact(Run(cfg, FRESH, SoftRelease(cfg))) && !LogExact(Run(cfg, FRESH, SoftRelease(cfg)))
  {
    var a, b := SoftRelease(cfg)[0], SoftRelease(cfg)[1];
    RunTwo(cfg, FRESH, a, b);
    assert Step(cfg, FRESH, a) == ToHard(FRESH, EffectiveMax(cfg), 0);
    assert Step(cfg, Step(cfg, FRESH, a), b) == ToSoft(ToHard(FRESH, EffectiveMax(cfg), 0));
  }

  /** The key says whether the gate is engaged, in every run without reconciles, exactly
      when the release threshold does not exceed the soft-return threshold. */
  lemma KeyExactness(cfg: Config)
    requires Valid(cfg)
    ensures ReleasesToNormal(cfg) <==>
            forall events :: GateEvents(events) ==> KeyExact(Run(cfg, FRESH, events))
  {
    if ReleasesToNormal(cfg) {
      forall events | GateEvents(events) ensures KeyExact(Run(cfg, FRESH, events)) {
        KeyExactKept(cfg, FRESH, events);
      }
    } else {
      SoftReleaseBreaksKey(cfg);
      assert GateEvents(SoftRelease(cfg));
    }
  }

  /** The log alternates engage and release, ending in engage exactly when the gate is
      engaged, in every run of ticks and force-releases, under the same condition. */
  lemma LogExactness(cfg: Config)
    requires Valid(cfg)
    ensures ReleasesToNormal(cfg) <==>
            forall events :: TicksAndReleases(events) ==> LogExact(Run(cfg, FRESH, events))
  {
    if ReleasesToNormal(cfg) {
      forall events | TicksAndReleases(events) ensures LogExact(Run(cfg, FRESH, events)) {
        LogExactKept(cfg, FRESH, events);
      }
    } else {
      SoftReleaseBreaksKey(cfg);
    }
  }

  /** Whatever the store holds, a recovery makes the key say whether the gate is
      engaged. */
  lemma RecoverMakesKeyExact(cfg: Config, w: World, numerator: nat, denominator: nat, now: int)
    ensures KeyExact(RecoverWorld(cfg, w, numerator, denominator, now))
    ensures w.gated ==> RecoverWorld(cfg, w, numerator, denominator, now).state == HARD_BREACH
  {}

  // -------------------------------------------------------------------- stale keys

  /** No event that can engage the gate or rebuild it. */
  predicate Quiet(cfg: Config, e: Event) {
    match e
    case Tick(dropPct, denominator, _) => denominator < WARMUP_DENOMINATOR || dropPct < EffectiveMax(cfg)
    case ForceRelease(_, _) => true
    case Recover(_, _, _) => false
    case Reconcile(_, _, _) => true
  }

  predicate AllQuiet(cfg: Config, events: seq<Event>) {
    forall i :: 0 <= i < |events| ==> Quiet(cfg, events[i])
  }

  /** A key set while the gate is not engaged - left by a release into a soft breach, or
      set by the reconciler - stays until a new engagement or a recovery: no tick below
      the maximum and no operator removes it. */
  lemma {:induction false} StaleKeyStays(cfg: Config, w: World, events: seq<Event>)
    requires w.state != HARD_BREACH && w.gated && AllQuiet(cfg, events)
    ensures Run(cfg, w, events).state != HARD_BREACH && Run(cfg, w, events).gated
    decreases |events|
  {
    if events != [] {
      StaleKeyStays(cfg, w, events[..|events| - 1]);
      assert Quiet(cfg, events[|events| - 1]);
    }
  }

  // ------------------------------------------------------------------------ safety

  /** A counted tick at or above the maximum leaves the gate engaged. */
  predicate Safe(cfg: Config, w: World, dropPct: real, denominator: int, now: int) {
    denominator >= WARMUP_DENOMINATOR && dropPct >= EffectiveMax(cfg) ==>
      var after := TickWorld(cfg, w, dropPct, denominator, now);
      after.state == HARD_BREACH && after.gated
  }

  lemma SafeStep(cfg: Config, w: World, dropPct: real, denominator: int, now: int)
    requires EffectiveMax(cfg) >= LEAST_THRESHOLD && EngagedIsGated(w)
    ensures Safe(cfg, w, dropPct, denominator, now)
  {}

  ghost predicate SafeAfter(cfg: Config, events: seq<Event>) {
    forall dropPct, denominator, now :: Safe(cfg, Run(cfg, FRESH, events), dropPct, denominator, now)
  }

  /** The gate is safe in every reachable state exactly when the effective maximum is
      not below the least release threshold. */
  lemma SafetyExact(cfg: Config)
    requires Valid(cfg)
    ensures EffectiveMax(cfg) >= LEAST_THRESHOLD <==> forall events :: SafeAfter(cfg, events)
  {
    if EffectiveMax(cfg) >= LEAST_THRESHOLD {
      forall events ensures SafeAfter(cfg, events) {
        EngagedIsGatedAlways(cfg, FRESH, events);
        forall dropPct, denominator, now ensures Safe(cfg, Run(cfg, FRESH, events), dropPct, denominator, now) {
          SafeStep(cfg, Run(cfg, FRESH, events), dropPct, denominator, now);
        }
      }
    } else {
      var pct, e := EffectiveMax(cfg), Tick(EffectiveMax(cfg), WARMUP_DENOMINATOR, 0);
      assert [e][..0] == [];
      assert Run(cfg, FRESH, [e]) == ToHard(FRESH, pct, 0);
      assert !Safe(cfg, Run(cfg, FRESH, [e]), pct, WARMUP_DENOMINATOR, cfg.recoverSeconds * 1000);
      assert !SafeAfter(cfg, [e]);
    }
  }

  // ------------------------------------------------------------------------- dwell

  function After(cfg: Config, w: World, events: seq<Event>, n: nat): World
    requires n <= |events|
  {
    Run(cfg, w, events[..n])
  }

  lemma AfterStep(cfg: Config, w: World, events: seq<Event>, n: nat)
    requires n < |events|
    ensures After(cfg, w, events, n + 1) == Step(cfg, After(cfg, w, events, n), events[n])
  {
    assert events[..n + 1] == events[..n] + [events[n]];
    RunMore(cfg, w, events[..n], events[n]);
  }

  /** Event m engages the gate, which stays engaged until event n. */
  predicate EngagedFrom(cfg: Config, w: World, events: seq<Event>, m: nat, n: nat)
    requires m < n <= |events|
  {
    && After(cfg, w, events, m).state != HARD_BREACH
    && forall k :: m < k <= n ==> After(cfg, w, events, k).state == HARD_BREACH
  }

  /** No event rebuilds the gate's memory. */
  predicate NoRecoveries(events: seq<Event>) {
    forall i :: 0 <= i < |events| ==> !events[i].Recover?
  }

  lemma {:induction false} EngagementRemembered(cfg: Config, w: World, events: seq<Event>, m: nat, n: nat)
    requires m < n <= |events| && NoRecoveries(events) && EngagedFrom(cfg, w, events, m, n)
    ensures events[m].Tick? && After(cfg, w, events, n).engagedAt == Some(events[m].now)
    decreases n
  {
    AfterStep(cfg, w, events, n - 1);
    assert After(cfg, w, events, n).state == HARD_BREACH;
    if m < n - 1 {
      EngagementRemembered(cfg, w, events, m, n - 1);
      assert After(cfg, w, events, n - 1).state == HARD_BREACH;
    }
  }

  /** What an event that takes an engaged gate out of its engagement is. */
  predicate Releases(cfg: Config, e: Event, engagedAt: Option<int>, after: GateState) {
    || (e.ForceRelease? && after == NORMAL)
    || (&& e.Tick? && e.denominator >= WARMUP_DENOMINATOR && e.dropPct < ReleaseThreshold(cfg)
        && Dwelt(cfg, engagedAt, e.now)
        && after == if e.dropPct < SoftReturn(cfg) then NORMAL else SOFT_BREACH)
  }

  /** In any run, from any state, an engagement ends by a force-release, or by a counted
      tick below the release threshold and after the dwell, into NORMAL below the
      soft-return threshold and into a soft breach otherwise. */
  lemma ReleasesJustified(cfg: Config, w: World, events: seq<Event>, n: nat)
    requires n < |events|
    requires After(cfg, w, events, n).state == HARD_BREACH && After(cfg, w, events, n + 1).state != HARD_BREACH
    ensures
      || Releases(cfg, events[n], After(cfg, w, events, n).engagedAt, After(cfg, w, events, n + 1).state)
      || (events[n].Recover? && !After(cfg, w, events, n).gated)
  {
    AfterStep(cfg, w, events, n);
  }

  /** For an engagement made in the run the dwell counts from the tick that made it. */
  lemma EngagementEnds(cfg: Config, w: World, events: seq<Event>, m: nat, n: nat)
    requires m < n < |events| && NoRecoveries(events) && EngagedFrom(cfg, w, events, m, n)
    requires After(cfg, w, events, n + 1).state != HARD_BREACH
    ensures Releases(cfg, events[n], Some(events[m].now), After(cfg, w, events, n + 1).state)
  {
    EngagementRemembered(cfg, w, events, m, n);
    assert After(cfg, w, events, n).state == HARD_BREACH;
    ReleasesJustified(cfg, w, events, n);
  }

  /** What each entry of the log was made at. */
  predicate EntryJustified(cfg: Config, e: Entry) {
    match e.transition
    case Engage => e.dropPct >= EffectiveMax(cfg)
    case Release => e.source == Auto ==> e.dropPct < ReleaseThreshold(cfg) && e.dropPct < SoftReturn(cfg)
  }

  predicate LogJustified(cfg: Config, log: seq<Entry>) {
    forall i :: 0 <= i < |log| ==> EntryJustified(cfg, log[i])
  }

  /** In any run, engagements are logged at or above the maximum and automatic releases
      below both thresholds. */
  lemma {:induction false} LogJustifiedAlways(cfg: Config, w: World, events: seq<Event>)
    requires LogJustified(cfg, w.log)
    ensures LogJustified(cfg, Run(cfg, w, events).log)
    decreases |events|
  {
    if events != [] {
      LogJustifiedAlways(cfg, w, events[..|events| - 1]);
    }
  }

  predicate Before(events: seq<Event>, deadline: int) {
    forall i :: 0 <= i < |events| ==> events[i].now < deadline
  }

  predicate OnlyTicks(events: seq<Event>) {
    forall i :: 0 <= i < |events| ==> events[i].Tick?
  }

  /** An engagement lasts through every tick of its dwell, whatever the percentages. */
  lemma {:induction false} DwellHolds(cfg: Config, w: World, events: seq<Event>)
    requires w.state == HARD_BREACH && w.engagedAt.Some? && OnlyTicks(events)
    requires Before(events, w.engagedAt.value + cfg.recoverSeconds * 1000)
    ensures Run(cfg, w, events) == w
    decreases |events|
  {
    if events != [] {
      DwellHolds(cfg, w, events[..|events| - 1]);
      assert events[|events| - 1].Tick?;
    }
  }

  // ------------------------------------------------------------- engagement bound

  predicate Monotone(events: seq<Event>, start: int) {
    && (forall i :: 0 <= i < |events| ==> start <= events[i].now)
    && (forall i, j :: 0 <= i < j < |events| ==> events[i].now <= events[j].now)
  }

  function LastTime(events: seq<Event>, start: int): int {
    if events == [] then start else events[|events| - 1].now
  }

  /** Ticks of a run that engage the gate. */
  function Engagements(cfg: Config, w: World, events: seq<Event>): nat
    decreases |events|
  {
    if events == [] then 0
    else
      var before := Run(cfg, w, events[..|events| - 1]);
      Engagements(cfg, w, events[..|events| - 1])
      + if before.state != HARD_BREACH && Step(cfg, before, events[|events| - 1]).state == HARD_BREACH then 1 else 0
  }

  /** Force-releases of a run that release the gate. */
  function Forced(cfg: Config, w: World, events: seq<Event>): nat
    decreases |events|
  {
    if events == [] then 0
    else
      var before := Run(cfg, w, events[..|events| - 1]);
      Forced(cfg, w, events[..|events| - 1])
      + if before.state == HARD_BREACH && events[|events| - 1].ForceRelease? then 1 else 0
  }

  function DwellMs(cfg: Config): int { cfg.recoverSeconds * 1000 }

  /** With n the engagements less the force-releases so far: an engagement made in the
      run began late enough for n - 1 dwells, and otherwise n dwells have passed. */
  predicate Spent(cfg: Config, w: World, engagements: nat, n: int, start: int, now: int) {
    if w.state == HARD_BREACH && engagements > 0
    then w.engagedAt.Some? && w.engagedAt.value <= now && (n - 1) * DwellMs(cfg) <= w.engagedAt.value - start
    else n * DwellMs(cfg) <= now - start
  }

  lemma SpentStep(cfg: Config, w: World, e: Event, engagements: nat, n: int, start: int, now: int)
    requires Valid(cfg) && (e.Tick? || e.ForceRelease?) && start <= now <= e.now
    requires Spent(cfg, w, engagements, n, start, now)
    ensures
      var after := Step(cfg, w, e);
      var engaged := w.state != HARD_BREACH && after.state == HARD_BREACH;
      var forced := w.state == HARD_BREACH && e.ForceRelease?;
      Spent(cfg, after, if engaged then engagements + 1 else engagements,
            if engaged then n + 1 else if forced then n - 1 else n, start, e.now)
  {
    assert n * DwellMs(cfg) - DwellMs(cfg) == (n - 1) * DwellMs(cfg);
  }

  lemma {:induction false} EngagementsSpent(cfg: Config, w: World, events: seq<Event>, start: int)
    requires Valid(cfg) && TicksAndReleases(events) && Monotone(events, start)
    ensures Spent(cfg, Run(cfg, w, events), Engagements(cfg, w, events),
                  Engagements(cfg, w, events) - Forced(cfg, w, events), start, LastTime(events, start))
    ensures start <= LastTime(events, start)
    decreases |events|
  {
    if events != [] {
      var m := |events| - 1;
      EngagementsSpent(cfg, w, events[..m], start);
      SpentStep(cfg, Run(cfg, w, events[..m]), events[m], Engagements(cfg, w, events[..m]),
                Engagements(cfg, w, events[..m]) - Forced(cfg, w, events[..m]), start, LastTime(events[..m], start));
    }
  }

  /** The engagement bound: in any run of ticks and force-releases under a clock that
      does not go back, from any state, each engagement but the first and the ones
      that follow a force-release has taken a full dwell. */
  lemma EngagementBound(cfg: Config, w: World, events: seq<Event>, start: int)
    requires Valid(cfg) && TicksAndReleases(events) && Monotone(events, start)
    ensures
      (Engagements(cfg, w, events) - 1 - Forced(cfg, w, events)) * (cfg.recoverSeconds * 1000)
        <= LastTime(events, start) - start
  {
    EngagementsSpent(cfg, w, events, start);
    var n := Engagements(cfg, w, events) - Forced(cfg, w, events);
    assert n * DwellMs(cfg) - DwellMs(cfg) == (n - 1) * DwellMs(cfg);
  }
}
