/** The drop gate: a three-state machine with hysteresis and dwell, the keys it writes,
    its recovery after a restart, and the reconciler that also writes its key. */
module DropGate {
  import opened Wrappers

  // ---------------------------------------------------------------- configuration

  const FCC_HARD_CEILING := 3.00
  const DEFAULT_TARGET_SOFT := 1.00
  const DEFAULT_TARGET_MAX := 1.50
  const DEFAULT_RECOVER_SECONDS := 300
  const MIN_RECOVER_SECONDS := 60
  const HYSTERESIS := 1.00
  const LEAST_THRESHOLD := 0.10
  const WARMUP_DENOMINATOR := 100

  datatype Config = Config(targetSoft: real, targetMax: real, maxOverride: real, recoverSeconds: int)

  function ApplyDefaults(cfg: Config): Config {
    cfg.(
      targetMax := if cfg.targetMax == 0.0 then DEFAULT_TARGET_MAX else cfg.targetMax,
      targetSoft := if cfg.targetSoft == 0.0 then DEFAULT_TARGET_SOFT else cfg.targetSoft,
      recoverSeconds := if cfg.recoverSeconds == 0 then DEFAULT_RECOVER_SECONDS else cfg.recoverSeconds)
  }

  predicate Valid(cfg: Config) {
    && 0.0 < cfg.targetMax <= FCC_HARD_CEILING
    && 0.0 < cfg.targetSoft <= cfg.targetMax
    && (cfg.maxOverride != 0.0 ==> cfg.maxOverride <= cfg.targetMax)
    && cfg.recoverSeconds >= MIN_RECOVER_SECONDS
  }

  function Min(x: real, y: real): real { if x < y then x else y }

  function EffectiveMax(cfg: Config): real {
    if cfg.maxOverride > 0.0 then Min(cfg.targetMax, cfg.maxOverride) else cfg.targetMax
  }

  function AtLeastThreshold(x: real): real { if x < LEAST_THRESHOLD then LEAST_THRESHOLD else x }

  function ReleaseThreshold(cfg: Config): real { AtLeastThreshold(EffectiveMax(cfg) - HYSTERESIS) }

  function SoftReturn(cfg: Config): real { AtLeastThreshold(cfg.targetSoft - 0.50) }

  // ------------------------------------------------------------------------ states

  datatype GateState = NORMAL | SOFT_BREACH | HARD_BREACH

  datatype Source = Auto | Operator

  datatype Transition = Engage | Release

  /** A stream entry; its time is None when it does not parse. */
  datatype Entry = Entry(transition: Transition, dropPct: real, source: Source, at: Option<int>)

  /** The gate in memory and the three keys it keeps in the store.  Times are in
      milliseconds; an engagement time that is absent or does not parse is None. */
  datatype World = World(
    state: GateState,
    engagedAt: Option<int>,
    gated: bool,
    engagedKey: Option<int>,
    log: seq<Entry>)

  /** A time as it is written in a key: to the second. */
  function ToSecond(ms: int): int { ms / 1000 * 1000 }

  function ToHard(w: World, dropPct: real, now: int): World {
    World(HARD_BREACH, Some(now), true, Some(ToSecond(now)), w.log + [Entry(Engage, dropPct, Auto, Some(ToSecond(now)))])
  }

  /** The keys are left as they are. */
  function ToSoft(w: World): World { w.(state := SOFT_BREACH, engagedAt := None) }

  function ToNormal(w: World, dropPct: real, source: Source, now: int): World {
    if w.state == HARD_BREACH
    then World(NORMAL, None, false, None, w.log + [Entry(Release, dropPct, source, Some(ToSecond(now)))])
    else w.(state := NORMAL, engagedAt := None)
  }

  /** An unset engagement time counts as long past. */
  predicate Dwelt(cfg: Config, engagedAt: Option<int>, now: int) {
    engagedAt.Some? ==> now - engagedAt.value >= cfg.recoverSeconds * 1000
  }

  function TickWorld(cfg: Config, w: World, dropPct: real, denominator: int, now: int): World {
    if denominator < WARMUP_DENOMINATOR then w
    else
      match w.state
      case NORMAL =>
        if dropPct >= EffectiveMax(cfg) then ToHard(w, dropPct, now)
        else if dropPct >= cfg.targetSoft then ToSoft(w)
        else w
      case SOFT_BREACH =>
        if dropPct >= EffectiveMax(cfg) then ToHard(w, dropPct, now)
        else if dropPct < SoftReturn(cfg) then ToNormal(w, dropPct, Auto, now)
        else w
      case HARD_BREACH =>
        if dropPct < ReleaseThreshold(cfg) && Dwelt(cfg, w.engagedAt, now) then
          if dropPct < SoftReturn(cfg) then ToNormal(w, dropPct, Auto, now) else ToSoft(w)
        else w
  }

  /** Refused unless the gate is engaged. */
  function ForceWorld(w: World, dropPct: real, now: int): World {
    if w.state != HARD_BREACH then w else ToNormal(w, dropPct, Operator, now)
  }

  // ---------------------------------------------------------------------- recovery

  const SCAN_LIMIT := 20

  /** The time of the latest readable engagement among the last n entries. */
  function LastEngaged(log: seq<Entry>, n: nat): Option<int> {
    if log == [] || n == 0 then None
    else
      var last := log[|log| - 1];
      if last.transition == Engage && last.at.Some? then last.at else LastEngaged(log[..|log| - 1], n - 1)
  }

  function RecoveredPct(numerator: nat, denominator: nat): real {
    if denominator >= WARMUP_DENOMINATOR then 100.0 * numerator as real / denominator as real else 0.0
  }

  function RecoveredAt(w: World, now: int): Option<int> {
    if !w.gated then None
    else if w.engagedKey.Some? then w.engagedKey
    else if LastEngaged(w.log, SCAN_LIMIT).Some? then LastEngaged(w.log, SCAN_LIMIT)
    else Some(now)
  }

  function RecoverWorld(cfg: Config, w: World, numerator: nat, denominator: nat, now: int): World {
    var dropPct := RecoveredPct(numerator, denominator);
    var engagedAt := RecoveredAt(w, now);
    if dropPct >= EffectiveMax(cfg) || w.gated then w.(state := HARD_BREACH, engagedAt := engagedAt, gated := true)
    else if dropPct >= cfg.targetSoft then w.(state := SOFT_BREACH, engagedAt := engagedAt)
    else w.(state := NORMAL, engagedAt := engagedAt)
  }

  // -------------------------------------------------------------------- reconciler

  const WINDOW_MS := 2592000000

  const DRIFT_PAGE := 0.01

  /** A message of the drop stream; its time is None when the id does not parse. */
  datatype Message = Message(dropped: bool, at: Option<int>)

  predicate CountsAsDrop(m: Message, now: int) {
    m.dropped && m.at.Some? && m.at.value >= now - WINDOW_MS
  }

  function Drops(stream: seq<Message>, now: int): nat {
    if stream == [] then 0
    else Drops(stream[..|stream| - 1], now) + if CountsAsDrop(stream[|stream| - 1], now) then 1 else 0
  }

  function Drift(stream: nat, db: nat): real {
    if db > 0 then (if stream < db then db - stream else stream - db) as real / db as real
    else if stream > 0 then 1.0
    else 0.0
  }

  predicate Severe(stream: nat, db: nat) { Drift(stream, db) > DRIFT_PAGE }

  lemma RatioAbove(ratio: real, gap: real, db: real)
    requires db > 0.0 && ratio * db == gap
    ensures ratio > DRIFT_PAGE <==> gap > DRIFT_PAGE * db
  {
    if ratio > DRIFT_PAGE {
      assert (ratio - DRIFT_PAGE) * db > 0.0;
    } else {
      assert (DRIFT_PAGE - ratio) * db >= 0.0;
    }
  }

  /** A relative drift above one percent, with none to divide by counted as severe. */
  lemma SevereExact(stream: nat, db: nat)
    ensures Severe(stream, db) <==> 100 * (if stream < db then db - stream else stream - db) > db
  {
    if db > 0 {
      var gap := if stream < db then db - stream else stream - db;
      RatioAbove(gap as real / db as real, gap as real, db as real);
    }
  }

  function DriftWorld(w: World, stream: nat, db: nat): World {
    if Severe(stream, db) then w.(gated := true) else w
  }

  // ------------------------------------------------------------- the gate in memory

  /** The keys of one campaign. */
  class Valkey {
    var gated: bool
    var engagedKey: Option<int>
    var log: seq<Entry>

    constructor (gated: bool, engagedKey: Option<int>, log: seq<Entry>)
      ensures this.gated == gated && this.engagedKey == engagedKey && this.log == log
    {
      this.gated, this.engagedKey, this.log := gated, engagedKey, log;
    }
  }

  class Gate {
    const cfg: Config
    const store: Valkey
    var state: GateState
    var engagedAt: Option<int>

    constructor (cfg: Config, store: Valkey)
      ensures this.cfg == cfg && this.store == store
      ensures Contents() == World(NORMAL, None, store.gated, store.engagedKey, store.log)
    {
      this.cfg, this.store := cfg, store;
      state, engagedAt := NORMAL, None;
    }

    function Contents(): World
      reads this, store
    {
      World(state, engagedAt, store.gated, store.engagedKey, store.log)
    }

    method TransitionToHardBreach(dropPct: real, now: int)
      modifies this, store
      ensures Contents() == ToHard(old(Contents()), dropPct, now)
    {
      state := HARD_BREACH;
      engagedAt := Some(now);
      store.gated := true;
      store.engagedKey := Some(ToSecond(now));
      store.log := store.log + [Entry(Engage, dropPct, Auto, Some(ToSecond(now)))];
    }

    method TransitionToSoftBreach()
      modifies this
      ensures Contents() == ToSoft(old(Contents()))
    {
      state := SOFT_BREACH;
      engagedAt := None;
    }

    method TransitionToNormal(dropPct: real, source: Source, now: int)
      modifies this, store
      ensures Contents() == ToNormal(old(Contents()), dropPct, source, now)
    {
      var prevState := state;
      state := NORMAL;
      engagedAt := None;
      if prevState == HARD_BREACH {
        store.gated := false;
        store.engagedKey := None;
        store.log := store.log + [Entry(Release, dropPct, source, Some(ToSecond(now)))];
      }
    }

    method Tick(dropPct: real, denominator: int, now: int) returns (after: GateState)
      modifies this, store
      ensures Contents() == TickWorld(cfg, old(Contents()), dropPct, denominator, now)
      ensures after == state
    {
      if denominator < WARMUP_DENOMINATOR {
        return state;
      }
      match state {
        case NORMAL =>
          if dropPct >= EffectiveMax(cfg) {
            TransitionToHardBreach(dropPct, now);
          } else if dropPct >= cfg.targetSoft {
            TransitionToSoftBreach();
          }
        case SOFT_BREACH =>
          if dropPct >= EffectiveMax(cfg) {
            TransitionToHardBreach(dropPct, now);
          } else if dropPct < SoftReturn(cfg) {
            TransitionToNormal(dropPct, Auto, now);
          }
        case HARD_BREACH =>
          if dropPct < ReleaseThreshold(cfg) && Dwelt(cfg, engagedAt, now) {
            if dropPct < SoftReturn(cfg) {
              TransitionToNormal(dropPct, Auto, now);
            } else {
              TransitionToSoftBreach();
            }
          }
      }
      after := state;
    }

    method ForceRelease(dropPct: real, now: int) returns (released: bool)
      modifies this, store
      ensures Contents() == ForceWorld(old(Contents()), dropPct, now)
      ensures released == (old(state) == HARD_BREACH)
    {
      if state != HARD_BREACH {
        return false;
      }
      TransitionToNormal(dropPct, Operator, now);
      released := true;
    }

    method ReadEngagedAtFromStream() returns (at: Option<int>)
      ensures at == LastEngaged(store.log, SCAN_LIMIT)
    {
      var i := |store.log|;
      var left := SCAN_LIMIT;
      assert store.log[..i] == store.log;
      while i > 0 && left > 0
        invariant 0 <= i <= |store.log| && 0 <= left
        invariant LastEngaged(store.log, SCAN_LIMIT) == LastEngaged(store.log[..i], left)
      {
        i := i - 1;
        left := left - 1;
        assert store.log[..i + 1][..i] == store.log[..i];
        if store.log[i].transition == Engage && store.log[i].at.Some? {
          return store.log[i].at;
        }
      }
      at := None;
    }

    /** With the counts of the database; reads and writes succeed. */
    method Recover(numerator: nat, denominator: nat, now: int)
      modifies this, store
      ensures Contents() == RecoverWorld(cfg, old(Contents()), numerator, denominator, now)
    {
      var dropPct := 0.0;
      if denominator >= WARMUP_DENOMINATOR {
        dropPct := 100.0 * numerator as real / denominator as real;
      }
      var gated := store.gated;
      var at: Option<int> := None;
      if gated {
        at := store.engagedKey;
        if at.None? {
          at := ReadEngagedAtFromStream();
        }
        if at.None? {
          at := Some(now);
        }
      }
      if dropPct >= EffectiveMax(cfg) || gated {
        if !gated {
          store.gated := true;
        }
        state := HARD_BREACH;
      } else if dropPct >= cfg.targetSoft {
        state := SOFT_BREACH;
      } else {
        state := NORMAL;
      }
      engagedAt := at;
    }
  }

  /** The second writer of the key; it does not touch the gate's memory. */
  class Reconciler {
    const gate: Gate

    constructor (gate: Gate)
      ensures this.gate == gate
    {
      this.gate := gate;
    }

    method CountStreamDrops(stream: seq<Message>, now: int) returns (count: nat)
      ensures count == Drops(stream, now)
    {
      count := 0;
      for i := 0 to |stream|
        invariant count == Drops(stream[..i], now)
      {
        assert stream[..i + 1][..i] == stream[..i];
        if stream[i].dropped && stream[i].at.Some? && stream[i].at.value >= now - WINDOW_MS {
          count := count + 1;
        }
      }
      assert stream[..|stream|] == stream;
    }

    method Reconcile(stream: seq<Message>, db: nat, now: int)
      modifies gate.store
      ensures gate.Contents() == DriftWorld(old(gate.Contents()), Drops(stream, now), db)
    {
      var streamDropped := CountStreamDrops(stream, now);
      var drift := 0.0;
      if db > 0 {
        drift := (if streamDropped < db then db - streamDropped else streamDropped - db) as real / db as real;
      } else if streamDropped > 0 {
        drift := 1.0;
      }
      if drift > DRIFT_PAGE {
        gate.store.gated := true;
      }
    }
  }
}
