/** What the gate does, in percentages, counts and times: each threshold, each change of
    state, what is written with it, what a recovery rebuilds and when the reconciler sets
    the key. */
module DropGateExact {
  import opened Wrappers
  import opened DropGate
  import opened DropGateRuns

  // --------------------------------------------------------------------- thresholds

  /** Settings left at zero take the defaults; the others stay. */
  lemma DefaultsExact(cfg: Config)
    ensures ApplyDefaults(Config(0.0, 0.0, 0.0, 0)) == Config(1.0, 1.5, 0.0, 300)
    ensures cfg.targetSoft != 0.0 && cfg.targetMax != 0.0 && cfg.recoverSeconds != 0 ==> ApplyDefaults(cfg) == cfg
    ensures ApplyDefaults(cfg.(targetSoft := 0.0)).targetMax == ApplyDefaults(cfg).targetMax
  {}

  /** Valid settings: the soft cap up to the maximum, both above zero and up to three
      percent, an override that only lowers the maximum, and a dwell of a minute or more.
      Under them the effective maximum is the override where there is one. */
  lemma ValidExact(cfg: Config)
    ensures Valid(cfg) <==>
            && 0.0 < cfg.targetSoft <= cfg.targetMax <= 3.0
            && (cfg.maxOverride == 0.0 || cfg.maxOverride <= cfg.targetMax)
            && cfg.recoverSeconds >= 60
    ensures Valid(cfg) ==> 0.0 < EffectiveMax(cfg) <= 3.0
    ensures Valid(cfg) ==> EffectiveMax(cfg) == if cfg.maxOverride > 0.0 then cfg.maxOverride else cfg.targetMax
  {}

  /** The gate lets go a whole percent below the maximum, a soft breach ends half a
      percent below the soft cap, and neither threshold is below a tenth. */
  lemma ThresholdsExact(cfg: Config)
    ensures EffectiveMax(cfg) >= 1.10 ==> ReleaseThreshold(cfg) == EffectiveMax(cfg) - 1.00
    ensures EffectiveMax(cfg) <= 1.10 ==> ReleaseThreshold(cfg) == 0.10
    ensures cfg.targetSoft >= 0.60 ==> SoftReturn(cfg) == cfg.targetSoft - 0.50
    ensures cfg.targetSoft <= 0.60 ==> SoftReturn(cfg) == 0.10
  {}

  // ------------------------------------------------------------------ state changes

  /** Where a tick leads: nowhere under a hundred answered calls. */
  lemma TickExact(cfg: Config, w: World, dropPct: real, denominator: int, now: int)
    ensures
      var after := TickWorld(cfg, w, dropPct, denominator, now).state;
      if denominator < 100 then after == w.state
      else if w.state == HARD_BREACH then
        && (after == HARD_BREACH <==>
              dropPct >= ReleaseThreshold(cfg) ||
              (w.engagedAt.Some? && now < w.engagedAt.value + 1000 * cfg.recoverSeconds))
        && (after == NORMAL ==> dropPct < SoftReturn(cfg))
        && (after == SOFT_BREACH ==> dropPct >= SoftReturn(cfg))
      else
        && (after == HARD_BREACH <==> dropPct >= EffectiveMax(cfg))
        && (after == SOFT_BREACH <==>
              dropPct < EffectiveMax(cfg) &&
              if w.state == NORMAL then dropPct >= cfg.targetSoft else dropPct >= SoftReturn(cfg))
  {}

  /** Counted ticks, all below the maximum. */
  predicate SoftTicks(cfg: Config, events: seq<Event>) {
    forall i :: 0 <= i < |events| ==>
      events[i].Tick? && events[i].denominator >= 100 && events[i].dropPct < EffectiveMax(cfg)
  }

  /** Drops have reached the soft cap and since then not fallen below the return threshold. */
  predicate Lingers(cfg: Config, events: seq<Event>)
    requires SoftTicks(cfg, events)
  {
    exists i :: 0 <= i < |events| && events[i].dropPct >= cfg.targetSoft && StaysUp(cfg, events, i)
  }

  predicate StaysUp(cfg: Config, events: seq<Event>, i: nat)
    requires SoftTicks(cfg, events)
  {
    forall j :: i < j < |events| ==> events[j].dropPct >= SoftReturn(cfg)
  }

  predicate SoftAsExpected(cfg: Config, events: seq<Event>) {
    SoftTicks(cfg, events) ==>
      Run(cfg, FRESH, events).state == if Lingers(cfg, events) then SOFT_BREACH else NORMAL
  }

  lemma LingersMore(cfg: Config, events: seq<Event>)
    requires events != [] && SoftTicks(cfg, events) && SoftReturn(cfg) <= cfg.targetSoft
    ensures
      var m := |events| - 1;
      SoftTicks(cfg, events[..m]) &&
      (Lingers(cfg, events) <==>
         events[m].dropPct >= cfg.targetSoft || (Lingers(cfg, events[..m]) && events[m].dropPct >= SoftReturn(cfg)))
  {
    var m := |events| - 1;
    if events[m].dropPct >= cfg.targetSoft {
      assert StaysUp(cfg, events, m);
    }
    if i :| 0 <= i < m && events[..m][i].dropPct >= cfg.targetSoft && StaysUp(cfg, events[..m], i) {
      if events[m].dropPct >= SoftReturn(cfg) {
        assert StaysUp(cfg, events, i);
      }
    }
    if i :| 0 <= i < |events| && events[i].dropPct >= cfg.targetSoft && StaysUp(cfg, events, i) {
      if i < m {
        assert events[..m][i] == events[i];
        assert StaysUp(cfg, events[..m], i);
      }
    }
  }

  lemma {:induction false} SoftKept(cfg: Config, events: seq<Event>)
    requires SoftTicks(cfg, events) && SoftReturn(cfg) <= cfg.targetSoft
    ensures Run(cfg, FRESH, events).state == if Lingers(cfg, events) then SOFT_BREACH else NORMAL
    decreases |events|
  {
    if events != [] {
      var m := |events| - 1;
      LingersMore(cfg, events);
      SoftKept(cfg, events[..m]);
      TickExact(cfg, Run(cfg, FRESH, events[..m]), events[m].dropPct, events[m].denominator, events[m].now);
    }
  }

  /** Two ticks at the soft cap. */
  function TwoAtCap(cfg: Config): seq<Event> { [Tick(cfg.targetSoft, 100, 0), Tick(cfg.targetSoft, 100, 15000)] }

  lemma SoftFlaps(cfg: Config)
    requires Valid(cfg) && cfg.targetSoft < EffectiveMax(cfg) && cfg.targetSoft < 0.10
    ensures !SoftAsExpected(cfg, TwoAtCap(cfg))
  {
    var e := TwoAtCap(cfg);
    RunTwo(cfg, FRESH, e[0], e[1]);
    TickExact(cfg, FRESH, cfg.targetSoft, 100, 0);
    TickExact(cfg, Step(cfg, FRESH, e[0]), cfg.targetSoft, 100, 15000);
    assert e[1].dropPct >= cfg.targetSoft && StaysUp(cfg, e, 1);
  }

  /** The soft hysteresis.  In every run of ticks below the maximum the gate is in a soft
      breach when drops have reached the soft cap and not fallen below the return threshold
      since - exactly when the soft cap is a tenth of a percent or more, or is the maximum,
      which such ticks never reach; below a tenth the gate flips back and forth. */
  lemma SoftHysteresisExact(cfg: Config)
    requires Valid(cfg)
    ensures (forall events :: SoftAsExpected(cfg, events)) <==>
            cfg.targetSoft >= 0.10 || cfg.targetSoft >= EffectiveMax(cfg)
  {
    if cfg.targetSoft >= 0.10 {
      forall events ensures SoftAsExpected(cfg, events) {
        if SoftTicks(cfg, events) {
          SoftKept(cfg, events);
        }
      }
    } else if cfg.targetSoft >= EffectiveMax(cfg) {
      forall events ensures SoftAsExpected(cfg, events) {
        if SoftTicks(cfg, events) {
          NeverAtCap(cfg, events);
        }
      }
    } else {
      SoftFlaps(cfg);
    }
  }

  lemma {:induction false} NeverAtCap(cfg: Config, events: seq<Event>)
    requires SoftTicks(cfg, events) && cfg.targetSoft >= EffectiveMax(cfg)
    ensures Run(cfg, FRESH, events).state == NORMAL && !Lingers(cfg, events)
    decreases |events|
  {
    if events != [] {
      var m := |events| - 1;
      NeverAtCap(cfg, events[..m]);
      TickExact(cfg, Run(cfg, FRESH, events[..m]), events[m].dropPct, events[m].denominator, events[m].now);
    }
  }

  // ------------------------------------------------------------- what is written when

  /** A time cut to the second. */
  predicate CutToSecond(t: int, ms: int) { t <= ms < t + 1000 && t % 1000 == 0 }

  /** One entry more in the log. */
  predicate Logged(before: World, after: World, transition: Transition, dropPct: real, source: Source, now: int) {
    && |after.log| == |before.log| + 1 && after.log[..|before.log|] == before.log
    && var e := after.log[|before.log|];
    && e.transition == transition && e.dropPct == dropPct && e.source == source
    && e.at.Some? && CutToSecond(e.at.value, now)
  }

  predicate KeysKept(before: World, after: World) {
    after.gated == before.gated && after.engagedKey == before.engagedKey && after.log == before.log
  }

  /** What a tick or a force-release writes: on engaging the key, the time and an entry; on
      a release to NORMAL it removes both keys and makes an entry that names who released;
      otherwise nothing, a release into a soft breach included. */
  lemma WritesExact(cfg: Config, w: World, e: Event)
    requires e.Tick? || e.ForceRelease?
    ensures
      var t := Step(cfg, w, e);
      if w.state != HARD_BREACH && t.state == HARD_BREACH then
        && t.gated && t.engagedAt == Some(e.now) && t.engagedKey.Some? && CutToSecond(t.engagedKey.value, e.now)
        && Logged(w, t, Engage, e.dropPct, Auto, e.now)
      else if w.state == HARD_BREACH && t.state == NORMAL then
        && !t.gated && t.engagedAt == None && t.engagedKey == None
        && Logged(w, t, Release, e.dropPct, if e.Tick? then Auto else Operator, e.now)
      else
        && KeysKept(w, t)
        && t.engagedAt == if t.state == w.state then w.engagedAt else None
  {}

  /** A force-release answers only an engaged gate. */
  lemma ForceExact(w: World, dropPct: real, now: int)
    ensures ForceWorld(w, dropPct, now).state == if w.state == HARD_BREACH then NORMAL else w.state
    ensures w.state != HARD_BREACH ==> ForceWorld(w, dropPct, now) == w
  {}

  // ------------------------------------------------------------------------ recovery

  lemma PercentAgainst(numerator: nat, denominator: nat, x: real)
    requires denominator > 0
    ensures 100.0 * numerator as real / denominator as real >= x <==> 100.0 * numerator as real >= x * denominator as real
  {
    var q, d := 100.0 * numerator as real / denominator as real, denominator as real;
    assert q * d == 100.0 * numerator as real;
    if q >= x {
      assert (q - x) * d >= 0.0;
    } else {
      assert (x - q) * d > 0.0;
    }
  }

  /** At least a hundred answered and drops at or above x percent of them. */
  predicate AtLeast(numerator: nat, denominator: nat, x: real) {
    denominator >= 100 && 100.0 * numerator as real >= x * denominator as real
  }

  lemma RecoveredAgainst(numerator: nat, denominator: nat, x: real)
    requires x > 0.0
    ensures RecoveredPct(numerator, denominator) >= x <==> AtLeast(numerator, denominator, x)
  {
    if denominator >= 100 {
      PercentAgainst(numerator, denominator, x);
    }
  }

  /** The recovered state, in the counts of the database and the key of the store: engaged
      exactly when the key is set or drops are at the maximum, in a soft breach exactly when
      they are otherwise at the soft cap.  Of the store only the key may change. */
  lemma RecoverExact(cfg: Config, w: World, numerator: nat, denominator: nat, now: int)
    requires Valid(cfg)
    ensures
      var t := RecoverWorld(cfg, w, numerator, denominator, now);
      && (t.state == HARD_BREACH <==> w.gated || AtLeast(numerator, denominator, EffectiveMax(cfg)))
      && (t.state == SOFT_BREACH <==>
            !w.gated && AtLeast(numerator, denominator, cfg.targetSoft)
            && !AtLeast(numerator, denominator, EffectiveMax(cfg)))
      && t.gated == (t.state == HARD_BREACH)
      && t.engagedKey == w.engagedKey && t.log == w.log
  {
    RecoveredAgainst(numerator, denominator, EffectiveMax(cfg));
    RecoveredAgainst(numerator, denominator, cfg.targetSoft);
  }

  /** An engagement whose time can be read. */
  predicate Readable(e: Entry) { e.transition == Engage && e.at.Some? }

  /** Entry i is the latest readable engagement. */
  predicate Latest(log: seq<Entry>, i: nat)
    requires i < |log|
  {
    Readable(log[i]) && forall k :: i < k < |log| ==> !Readable(log[k])
  }

  lemma {:induction false} LastEngagedExact(log: seq<Entry>, n: nat)
    ensures
      && (LastEngaged(log, n).None? <==> forall i :: 0 <= i < |log| && |log| - n <= i ==> !Readable(log[i]))
      && forall i :: 0 <= i < |log| && |log| - n <= i && Latest(log, i) ==> LastEngaged(log, n) == log[i].at
  {
    if log != [] && n > 0 {
      LastEngagedExact(log[..|log| - 1], n - 1);
      assert forall i :: 0 <= i < |log| - 1 ==> log[..|log| - 1][i] == log[i];
      assert forall i :: 0 <= i < |log| - 1 && Latest(log, i) ==> Latest(log[..|log| - 1], i);
    }
  }

  /** The recovered engagement time: none without the key; else the time key, else that of
      the latest readable engagement among the last twenty entries, else the present. */
  lemma RecoveredTimeExact(cfg: Config, w: World, numerator: nat, denominator: nat, now: int)
    ensures
      var at := RecoverWorld(cfg, w, numerator, denominator, now).engagedAt;
      && (at.None? <==> !w.gated)
      && (w.gated && w.engagedKey.Some? ==> at == w.engagedKey)
      && (w.gated && w.engagedKey.None? ==>
            && (forall i :: 0 <= i < |w.log| && |w.log| - 20 <= i && Latest(w.log, i) ==> at == w.log[i].at)
            && ((forall i :: 0 <= i < |w.log| && |w.log| - 20 <= i ==> !Readable(w.log[i])) ==> at == Some(now)))
  {
    LastEngagedExact(w.log, 20);
  }

  /** A restart right after an engagement: whatever the counts, the gate is engaged again,
      with the time it engaged at cut to the second. */
  lemma RestartKeepsEngagement(cfg: Config, w: World, e: Event, lost: World, numerator: nat, denominator: nat, now: int)
    requires e.Tick? && w.state != HARD_BREACH && Step(cfg, w, e).state == HARD_BREACH
    requires lost == Step(cfg, w, e).(state := NORMAL, engagedAt := None)
    ensures
      var t := RecoverWorld(cfg, lost, numerator, denominator, now);
      t.state == HARD_BREACH && t.engagedAt.Some? && CutToSecond(t.engagedAt.value, e.now)
  {
    WritesExact(cfg, w, e);
  }

  // ---------------------------------------------------------------------- reconciler

  /** Thirty days. */
  function MonthMs(): int { 30 * 24 * 60 * 60 * 1000 }

  /** The messages that count: drops with a readable time in the last thirty days. */
  function Counted(stream: seq<Message>, now: int): set<nat> {
    set i | 0 <= i < |stream| && stream[i].dropped && stream[i].at.Some? && now - stream[i].at.value <= MonthMs()
  }

  lemma {:induction false} DropsExact(stream: seq<Message>, now: int)
    ensures Drops(stream, now) == |Counted(stream, now)|
  {
    if stream == [] {
      assert Counted(stream, now) == {};
    } else {
      var m := |stream| - 1;
      DropsExact(stream[..m], now);
      assert forall i :: 0 <= i < m ==> stream[..m][i] == stream[i];
      var rest := Counted(stream[..m], now);
      assert Counted(stream, now) ==
             if stream[m].dropped && stream[m].at.Some? && now - stream[m].at.value <= MonthMs() then rest + {m} else rest;
    }
  }

  /** A reconcile sets the key exactly when stream and database differ by more than one
      percent of the database's count; it changes nothing else. */
  lemma ReconcileExact(w: World, stream: nat, db: nat)
    ensures
      var t := DriftWorld(w, stream, db);
      && (t.gated <==> w.gated || 100 * (if stream < db then db - stream else stream - db) > db)
      && t == w.(gated := t.gated)
  {
    SevereExact(stream, db);
  }
}
