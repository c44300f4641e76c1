/**
 * The time synchronisation service as a state machine over whole runs
 * (internal/timesync/store.go, clock.go and service.go).
 *
 * Clock readings are parameters.  Durations are measured on a monotonic clock that advances with
 * true time; the wall clock is that clock plus a skew, and true time is that clock plus an unknown
 * constant `base`.  Whether the operating system accepts an adjustment is a parameter too.
 */
module TimeService {
  import opened TimeMean
  import opened TimeSelection

  datatype Config = Config(
    enabled: bool,
    requireSigned: bool,
    hasKeyManager: bool,
    minSources: int,
    maxSpread: int,
    maxStale: int,
    clock: ClockConfig)

  datatype ClockConfig = ClockConfig(stepThreshold: int, slewThreshold: int, allowStepBackward: bool)

  /** The ranges that configuration validation enforces. */
  predicate Validated(cfg: Config) {
    cfg.minSources >= 1 && cfg.maxSpread >= 1_000_000 && cfg.maxStale >= 1_000_000_000
  }

  datatype Method = NoAdjustment | Slew | Step

  datatype ClockAdjustment = ClockAdjustment(kind: Method, offset: int, absolute: int)

  const NANOS_PER_SECOND: real := 1000000000.0

  function CalculateAdjustment(offsetSeconds: real, cfg: ClockConfig, now: int): ClockAdjustment {
    var offset := Trunc(offsetSeconds * NANOS_PER_SECOND);
    var absOffset := if offset < 0 then -offset else offset;
    if absOffset < cfg.slewThreshold then ClockAdjustment(NoAdjustment, offset, 0)
    else if offset < 0 && !cfg.allowStepBackward then ClockAdjustment(NoAdjustment, offset, 0)
    else if absOffset >= cfg.stepThreshold then ClockAdjustment(Step, offset, now + offset)
    else ClockAdjustment(Slew, offset, 0)
  }

  /** An offset in nanoseconds survives the trip through seconds. */
  lemma OffsetRoundTrip(n: int, cfg: ClockConfig, now: int)
    ensures CalculateAdjustment(n as real / NANOS_PER_SECOND, cfg, now).offset == n
  {
    assert n as real / NANOS_PER_SECOND * NANOS_PER_SECOND == n as real;
  }

  datatype TimeMessage = TimeMessage(
    sourceId: string, timestamp: int64, stratum: int, dispersion: real, hasSignature: bool)

  datatype Error = NoError | SelectionFailed(reason: Outcome) | ApplyFailed

  datatype SyncStatus = SyncStatus(synced: bool, sourceCount: int, lastOffset: real, lastError: Error)

  /** Instants of one evaluation on the monotonic clock: the store snapshot, the wall clock reading
      in the selection and the one in the adjustment.  `anyTime` is what the selection yields where Go
      leaves the time undefined. */
  datatype Reading = Reading(snapshot: int, select: int, adjust: int, skew: int, anyTime: int)

  predicate InOrder(r: Reading) {
    r.snapshot <= r.select <= r.adjust
  }

  /** An adjustment handed to the operating system, and whether it was accepted. */
  datatype Applied = Applied(adj: ClockAdjustment, at: Reading, ok: bool)

  datatype State = State(sources: map<string, Source>, status: SyncStatus, applied: seq<Applied>)

  const INITIAL := State(map[], SyncStatus(false, 0, 0.0, NoError), [])

  datatype Event =
    | Receive(msg: TimeMessage, at: int)
    | Poll(r: Reading, applyOk: bool)
    | Force(allowBackward: bool, r: Reading, applyOk: bool)

  predicate Accepts(cfg: Config, msg: TimeMessage) {
    cfg.enabled && !(cfg.requireSigned && !msg.hasSignature && cfg.hasKeyManager)
  }

  function ForceClock(allowBackward: bool): ClockConfig {
    ClockConfig(1_000_000, 1_000, allowBackward)
  }

  // ----- the source store -----

  predicate ValidSources(m: map<string, Source>) {
    forall k :: k in m ==> m[k].id == k
  }

  predicate IsFresh(s: Source, now: int, maxStale: int) {
    now - s.receivedAt <= maxStale
  }

  function Fresh(m: map<string, Source>, now: int, maxStale: int): map<string, Source> {
    map k | k in m && IsFresh(m[k], now, maxStale) :: m[k]
  }

  /** `ss` lists the entries of `m`, each once, in some order. */
  ghost predicate Lists(ss: seq<Source>, m: map<string, Source>) {
    && (forall s :: s in ss ==> s.id in m && m[s.id] == s)
    && (forall k :: k in m ==> m[k] in ss)
    && (forall i, j :: 0 <= i < j < |ss| ==> ss[i].id != ss[j].id)
  }

  ghost function Listing(m: map<string, Source>): (ss: seq<Source>)
    requires ValidSources(m)
    ensures Lists(ss, m)
  {
    if m == map[] then []
    else
      var k :| k in m;
      ListsAppend(Listing(m - {k}), m - {k}, m[k]);
      assert (m - {k})[k := m[k]] == m;
      Listing(m - {k}) + [m[k]]
  }

  lemma ListsAppend(ss: seq<Source>, m: map<string, Source>, x: Source)
    requires Lists(ss, m) && x.id !in m
    ensures Lists(ss + [x], m[x.id := x])
  {
    var m' := m[x.id := x];
    forall k | k in m'
      ensures m'[k] in ss + [x]
    {
      if k != x.id {
        assert m[k] in ss;
      }
    }
    forall i, j | 0 <= i < j < |ss + [x]|
      ensures (ss + [x])[i].id != (ss + [x])[j].id
    {
      assert ss[i] in ss;
    }
  }

  lemma {:induction false} CountInListing(ss: seq<Source>, x: Source)
    requires forall i, j :: 0 <= i < j < |ss| ==> ss[i].id != ss[j].id
    ensures multiset(ss)[x] == if x in ss then 1 else 0
  {
    if ss != [] {
      var front, last := ss[..|ss| - 1], ss[|ss| - 1];
      assert ss == front + [last];
      CountInListing(front, x);
      assert last !in front;
    }
  }

  /** Two listings of one map differ only in order, so the selection cannot tell them apart. */
  lemma ListingsAgree(a: seq<Source>, b: seq<Source>, m: map<string, Source>, minSources: int, maxSpread: int)
    requires Lists(a, m) && Lists(b, m) && minSources >= 1
    ensures Select(a, minSources, maxSpread) == Select(b, minSources, maxSpread)
  {
    forall x
      ensures multiset(a)[x] == multiset(b)[x]
    {
      CountInListing(a, x);
      CountInListing(b, x);
    }
    SelectDependsOnMultisetOnly(a, b, minSources, maxSpread);
  }

  ghost function SelectFresh(cfg: Config, m: map<string, Source>, now: int): Outcome
    requires Validated(cfg) && ValidSources(m)
  {
    Select(Listing(Fresh(m, now, cfg.maxStale)), cfg.minSources, cfg.maxSpread)
  }

  // ----- one step of the service -----

  /** The selection with the undefined times filled in. */
  function Resolved(o: Outcome, anyTime: int): Outcome {
    if o.Unspecified? then Selected(o.sourceCount, anyTime) else o
  }

  function Adjusted(st: State, clock: ClockConfig, o: Outcome, r: Reading, applyOk: bool): State
    requires o.Selected?
  {
    var offset := (o.bestTime - (r.select + r.skew)) as real / NANOS_PER_SECOND;
    var adj := CalculateAdjustment(offset, clock, r.adjust + r.skew);
    var handedOver := adj.kind != NoAdjustment;
    State(
      st.sources,
      SyncStatus(true, o.sourceCount, offset, if handedOver && !applyOk then ApplyFailed else NoError),
      if handedOver then st.applied + [Applied(adj, r, applyOk)] else st.applied)
  }

  ghost function Next(cfg: Config, st: State, e: Event): (st': State)
    requires Validated(cfg) && ValidSources(st.sources)
    ensures ValidSources(st'.sources)
  {
    match e
    case Receive(msg, at) =>
      if Accepts(cfg, msg)
      then st.(sources := st.sources[msg.sourceId :=
                 Source(msg.sourceId, msg.timestamp, at, msg.stratum, msg.dispersion)])
      else st
    case Poll(r, applyOk) =>
      var o := Resolved(SelectFresh(cfg, st.sources, r.snapshot), r.anyTime);
      if o.Selected? then Adjusted(st, cfg.clock, o, r, applyOk)
      else st.(status := st.status.(synced := false, lastError := SelectionFailed(o)))
    case Force(allowBackward, r, applyOk) =>
      var o := Resolved(SelectFresh(cfg, st.sources, r.snapshot), r.anyTime);
      if o.Selected? then Adjusted(st, ForceClock(allowBackward), o, r, applyOk) else st
  }

  // ----- the service -----

  class TimeSyncService {
    const config: Config
    var sources: map<string, Source>
    var status: SyncStatus
    /** Every adjustment handed to the operating system so far. */
    ghost var applied: seq<Applied>

    ghost predicate Valid()
      reads this
    {
      Validated(config) && ValidSources(sources)
    }

    ghost function Abs(): State
      reads this
    {
      State(sources, status, applied)
    }

    constructor (config: Config)
      requires Validated(config)
      ensures this.config == config && Valid() && Abs() == INITIAL
    {
      this.config := config;
      sources := map[];
      status := SyncStatus(false, 0, 0.0, NoError);
      applied := [];
    }

    method ProcessMessage(msg: TimeMessage, at: int)
      requires Valid()
      modifies this
      ensures Valid() && Abs() == Next(config, old(Abs()), Receive(msg, at))
    {
      if !config.enabled {
        return;
      }
      if config.requireSigned && !msg.hasSignature && config.hasKeyManager {
        return;
      }
      sources := sources[msg.sourceId := Source(msg.sourceId, msg.timestamp, at, msg.stratum, msg.dispersion)];
    }

    /** The fresh sources, in whatever order the map yields them. */
    method GetValidSources(now: int) returns (valid: seq<Source>)
      requires Valid()
      ensures Lists(valid, Fresh(sources, now, config.maxStale))
    {
      valid := [];
      var todo := sources.Keys;
      while todo != {}
        invariant todo <= sources.Keys
        invariant Lists(valid, Fresh(sources - todo, now, config.maxStale))
        decreases todo
      {
        var k :| k in todo;
        ghost var before := Fresh(sources - todo, now, config.maxStale);
        todo := todo - {k};
        if now - sources[k].receivedAt <= config.maxStale {
          ListsAppend(valid, before, sources[k]);
          assert Fresh(sources - todo, now, config.maxStale) == before[k := sources[k]];
          valid := valid + [sources[k]];
        } else {
          assert Fresh(sources - todo, now, config.maxStale) == before;
        }
      }
      assert sources - {} == sources;
    }

    method EvaluateAndAdjust(r: Reading, applyOk: bool)
      requires Valid()
      modifies this
      ensures Valid() && Abs() == Next(config, old(Abs()), Poll(r, applyOk))
    {
      var valid := GetValidSources(r.snapshot);
      var o := SelectBestTime(valid, config.minSources, config.maxSpread);
      ListingsAgree(valid, Listing(Fresh(sources, r.snapshot, config.maxStale)),
                    Fresh(sources, r.snapshot, config.maxStale), config.minSources, config.maxSpread);
      o := Resolved(o, r.anyTime);
      if !o.Selected? {
        status := status.(synced := false, lastError := SelectionFailed(o));
        return;
      }
      Adjust(config.clock, o, r, applyOk);
    }

    /** Returns the source count when the update succeeded, and -1 when it failed. */
    method ForceUpdate(allowBackward: bool, r: Reading, applyOk: bool) returns (sourceCount: int)
      requires Valid()
      modifies this
      ensures Valid() && Abs() == Next(config, old(Abs()), Force(allowBackward, r, applyOk))
      ensures sourceCount >= 0 ==> status.synced && status.sourceCount == sourceCount && status.lastError == NoError
      ensures var o := SelectFresh(config, old(sources), r.snapshot);
              if o.Selected? || o.Unspecified?
              then status.synced && sourceCount == if status.lastError == NoError then o.sourceCount else -1
              else sourceCount == -1
    {
      var valid := GetValidSources(r.snapshot);
      var o := SelectBestTime(valid, config.minSources, config.maxSpread);
      ListingsAgree(valid, Listing(Fresh(sources, r.snapshot, config.maxStale)),
                    Fresh(sources, r.snapshot, config.maxStale), config.minSources, config.maxSpread);
      o := Resolved(o, r.anyTime);
      if !o.Selected? {
        return -1;
      }
      Adjust(ForceClock(allowBackward), o, r, applyOk);
      sourceCount := if status.lastError == NoError then o.sourceCount else -1;
    }

    /** The common tail of `evaluateAndAdjust` and `ForceUpdate`. */
    method Adjust(clock: ClockConfig, o: Outcome, r: Reading, applyOk: bool)
      requires Valid() && o.Selected?
      modifies this
      ensures Abs() == Adjusted(old(Abs()), clock, o, r, applyOk)
    {
      var offset := (o.bestTime - (r.select + r.skew)) as real / NANOS_PER_SECOND;
      var adj := CalculateAdjustment(offset, clock, r.adjust + r.skew);
      status := SyncStatus(true, o.sourceCount, offset, NoError);
      if adj.kind == NoAdjustment {
        return;
      }
      applied := applied + [Applied(adj, r, applyOk)];
      if !applyOk {
        status := status.(lastError := ApplyFailed);
      }
    }
  }
}
