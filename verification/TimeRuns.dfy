/**
 * Whole runs of the time synchronisation service: what it reports, which adjustments it asks for, and how
 * far from true time these can be.
 */
module TimeRuns {
  import opened Common
  import opened TimeMean
  import opened TimeSelection
  import opened TimeTolerance
  import opened TimeService

  // ----- runs -----

  ghost function Run(cfg: Config, events: seq<Event>): (st: State)
    requires Validated(cfg)
    ensures ValidSources(st.sources)
  {
    if events == [] then INITIAL
    else Next(cfg, Run(cfg, events[..|events| - 1]), events[|events| - 1])
  }

  lemma SelectedCount(cfg: Config, m: map<string, Source>, now: int)
    requires Validated(cfg) && ValidSources(m)
    ensures var o := SelectFresh(cfg, m, now);
            o.Selected? || o.Unspecified? ==> o.sourceCount >= cfg.minSources
  {
    QuorumCounted(Listing(Fresh(m, now, cfg.maxStale)), cfg.minSources, cfg.maxSpread);
  }

  predicate BackwardAllowed(cfg: Config, e: Event) {
    match e
    case Receive(_, _) => false
    case Poll(_, _) => cfg.clock.allowStepBackward
    case Force(allowBackward, _, _) => allowBackward
  }

  lemma AdjustmentNotBackward(st: State, clock: ClockConfig, o: Outcome, r: Reading, applyOk: bool)
    requires o.Selected? && !clock.allowStepBackward
    ensures forall a :: a in Adjusted(st, clock, o, r, applyOk).applied ==> a in st.applied || NotBackward(a)
  {
  }

  /** The adjustment does not ask for an earlier time than the clock shows. */
  predicate NotBackward(a: Applied) {
    a.adj.offset >= 0 && (a.adj.kind == Step ==> a.adj.absolute >= a.at.adjust + a.at.skew)
  }

  /** A service that reports being synchronised has heard from enough sources, whatever they sent. */
  lemma {:induction false} SyncedHasQuorum(cfg: Config, events: seq<Event>)
    requires Validated(cfg)
    ensures Run(cfg, events).status.synced ==> Run(cfg, events).status.sourceCount >= cfg.minSources
  {
    if events != [] {
      var front, e := events[..|events| - 1], events[|events| - 1];
      SyncedHasQuorum(cfg, front);
      if e.Poll? || e.Force? {
        SelectedCount(cfg, Run(cfg, front).sources, e.r.snapshot);
      }
    }
  }

  /** Without permission to go backward, no run ever asks for a backward adjustment, whatever the
      sources sent. */
  lemma {:induction false} NeverBackward(cfg: Config, events: seq<Event>)
    requires Validated(cfg)
    requires forall e :: e in events ==> !BackwardAllowed(cfg, e)
    ensures forall a :: a in Run(cfg, events).applied ==> NotBackward(a)
  {
    if events != [] {
      var front, e := events[..|events| - 1], events[|events| - 1];
      NeverBackward(cfg, front);
      var st := Run(cfg, front);
      assert e in events;
      if e.Poll? || e.Force? {
        var o := Resolved(SelectFresh(cfg, st.sources, e.r.snapshot), e.r.anyTime);
        if o.Selected? {
          AdjustmentNotBackward(st, if e.Poll? then cfg.clock else ForceClock(e.allowBackward), o, e.r, e.applyOk);
        }
      }
    }
  }

  // ----- what one evaluation does -----

  /** The sources an evaluation selects from are exactly the stored ones whose report is at most the stale
      age old, in any order. */
  lemma SelectsFromFresh(cfg: Config, m: map<string, Source>, now: int, ss: seq<Source>)
    requires Validated(cfg) && ValidSources(m)
    requires forall i, j :: 0 <= i < j < |ss| ==> ss[i].id != ss[j].id
    requires forall s :: s in ss <==> s.id in m && m[s.id] == s && now - s.receivedAt <= cfg.maxStale
    ensures SelectFresh(cfg, m, now) == Select(ss, cfg.minSources, cfg.maxSpread)
  {
    var live := Fresh(m, now, cfg.maxStale);
    ListingsAgree(ss, Listing(live), live, cfg.minSources, cfg.maxSpread);
  }

  /** What is handed to the operating system when the selected time is `d` ahead of the clock: nothing below
      the slew threshold or backward without permission, otherwise one step or slew by exactly `d`. */
  predicate HandsOver(before: seq<Applied>, after: seq<Applied>, d: int, slew: int, step: int, backward: bool,
                      r: Reading, ok: bool) {
    var size := if d < 0 then -d else d;
    if size < slew || (d < 0 && !backward) then after == before
    else
      && |after| == |before| + 1 && after[..|before|] == before
      && var a := after[|before|];
         && a.at == r && a.ok == ok && a.adj.offset == d
         && (if size >= step then a.adj.kind == Step && a.adj.absolute == r.adjust + r.skew + d else a.adj.kind == Slew)
  }

  /** How far the selected time is ahead of the wall clock. */
  function Ahead(o: Outcome, r: Reading): int
    requires Succeeds(o)
  {
    (if o.Selected? then o.bestTime else r.anyTime) - (r.select + r.skew)
  }

  lemma AdjustedExactly(st: State, clock: ClockConfig, o: Outcome, r: Reading, ok: bool)
    requires Succeeds(o)
    ensures var st' := Adjusted(st, clock, Resolved(o, r.anyTime), r, ok);
            var d := Ahead(o, r);
            && HandsOver(st.applied, st'.applied, d, clock.slewThreshold, clock.stepThreshold,
                         clock.allowStepBackward, r, ok)
            && st'.status.synced && st'.status.sourceCount == o.sourceCount
            && st'.status.lastOffset == d as real / 1000000000.0
            && st'.status.lastError == (if ok || st'.applied == st.applied then NoError else ApplyFailed)
            && st'.sources == st.sources
  {
    OffsetRoundTrip(Ahead(o, r), clock, r.adjust + r.skew);
  }

  /** A poll: synced exactly when selection succeeds, with its count and offset, and the adjustment handed
      over under the configured thresholds; on failure only the flag and the error change. */
  lemma PollExactly(cfg: Config, st: State, r: Reading, ok: bool)
    requires Validated(cfg) && ValidSources(st.sources)
    ensures var st', o := Next(cfg, st, Poll(r, ok)), SelectFresh(cfg, st.sources, r.snapshot);
            && st'.sources == st.sources
            && (st'.status.synced <==> Succeeds(o))
            && (Succeeds(o) ==>
                  && HandsOver(st.applied, st'.applied, Ahead(o, r), cfg.clock.slewThreshold, cfg.clock.stepThreshold,
                               cfg.clock.allowStepBackward, r, ok)
                  && st'.status.sourceCount == o.sourceCount
                  && st'.status.lastOffset == Ahead(o, r) as real / 1000000000.0
                  && st'.status.lastError == (if ok || st'.applied == st.applied then NoError else ApplyFailed))
            && (!Succeeds(o) ==>
                  && st'.applied == st.applied && st'.status.sourceCount == st.status.sourceCount
                  && st'.status.lastOffset == st.status.lastOffset && st'.status.lastError == SelectionFailed(o))
  {
    var o := SelectFresh(cfg, st.sources, r.snapshot);
    if Succeeds(o) {
      AdjustedExactly(st, cfg.clock, o, r, ok);
    }
  }

  /** A forced update: the same from one microsecond to slew and one millisecond to step on; a failed
      selection changes nothing. */
  lemma ForceExactly(cfg: Config, st: State, backward: bool, r: Reading, ok: bool)
    requires Validated(cfg) && ValidSources(st.sources)
    ensures var st', o := Next(cfg, st, Force(backward, r, ok)), SelectFresh(cfg, st.sources, r.snapshot);
            && (Succeeds(o) ==>
                  && HandsOver(st.applied, st'.applied, Ahead(o, r), 1_000, 1_000_000, backward, r, ok)
                  && st'.status.synced && st'.status.sourceCount == o.sourceCount
                  && st'.status.lastOffset == Ahead(o, r) as real / 1000000000.0
                  && st'.status.lastError == (if ok || st'.applied == st.applied then NoError else ApplyFailed)
                  && st'.sources == st.sources)
            && (!Succeeds(o) ==> st' == st)
  {
    var o := SelectFresh(cfg, st.sources, r.snapshot);
    if Succeeds(o) {
      AdjustedExactly(st, ForceClock(backward), o, r, ok);
    }
  }

  // ----- the stored reports -----

  /** A report the service takes: it is enabled and, if it requires and can check signatures, the message
      carries one. */
  predicate Taken(cfg: Config, e: Event, k: string) {
    && e.Receive? && e.msg.sourceId == k
    && cfg.enabled && (cfg.requireSigned && cfg.hasKeyManager ==> e.msg.hasSignature)
  }

  predicate LastTaken(cfg: Config, events: seq<Event>, k: string, i: nat) {
    i < |events| && Taken(cfg, events[i], k) && forall j :: i < j < |events| ==> !Taken(cfg, events[j], k)
  }

  ghost predicate SourceMatches(cfg: Config, events: seq<Event>, sources: map<string, Source>, k: string) {
    && (k in sources <==> exists i: nat :: LastTaken(cfg, events, k, i))
    && forall i: nat :: LastTaken(cfg, events, k, i) ==>
         && k in sources
         && var msg := events[i].msg;
            sources[k] == Source(k, msg.timestamp, events[i].at, msg.stratum, msg.dispersion)
  }

  lemma LastTakenSnoc(cfg: Config, events: seq<Event>, e: Event, k: string, i: nat)
    requires i < |events|
    ensures LastTaken(cfg, events + [e], k, i) <==> LastTaken(cfg, events, k, i) && !Taken(cfg, e, k)
  {
    var all := events + [e];
    assert all[|events|] == e && forall j :: 0 <= j < |events| ==> all[j] == events[j];
  }

  lemma LastTakenLast(cfg: Config, events: seq<Event>, e: Event, k: string)
    ensures LastTaken(cfg, events + [e], k, |events|) <==> Taken(cfg, e, k)
  {
    assert (events + [e])[|events|] == e;
  }

  lemma NextSource(cfg: Config, st: State, e: Event, k: string)
    requires Validated(cfg) && ValidSources(st.sources)
    ensures var after := Next(cfg, st, e).sources;
            if Taken(cfg, e, k)
            then k in after && after[k] == Source(k, e.msg.timestamp, e.at, e.msg.stratum, e.msg.dispersion)
            else (k in after <==> k in st.sources) && (k in after ==> after[k] == st.sources[k])
  {
  }

  lemma SourceMatchesNext(cfg: Config, events: seq<Event>, e: Event, st: State, k: string)
    requires Validated(cfg) && ValidSources(st.sources) && SourceMatches(cfg, events, st.sources, k)
    ensures SourceMatches(cfg, events + [e], Next(cfg, st, e).sources, k)
  {
    var all, after := events + [e], Next(cfg, st, e).sources;
    NextSource(cfg, st, e, k);
    LastTakenLast(cfg, events, e, k);
    forall i: nat | i < |events|
      ensures LastTaken(cfg, all, k, i) <==> LastTaken(cfg, events, k, i) && !Taken(cfg, e, k)
      ensures all[i] == events[i]
    {
      LastTakenSnoc(cfg, events, e, k, i);
    }
    assert all[|events|] == e;
    if k in after && !Taken(cfg, e, k) {
      var i: nat :| LastTaken(cfg, events, k, i);
      assert LastTaken(cfg, all, k, i);
    }
  }

  /** After any run the store holds, for each source, its last report that was taken, and nothing else. */
  lemma {:induction false} SourcesAreLastReports(cfg: Config, events: seq<Event>, k: string)
    requires Validated(cfg)
    ensures SourceMatches(cfg, events, Run(cfg, events).sources, k)
  {
    if events != [] {
      var front, e := events[..|events| - 1], events[|events| - 1];
      assert events == front + [e];
      SourcesAreLastReports(cfg, front, k);
      SourceMatchesNext(cfg, front, e, Run(cfg, front), k);
    }
  }

  // ----- distance of a step target from true time -----

  /** The report was within `err` of true time when it was received. */
  predicate Honest(s: Source, base: int, err: int) {
    -err <= s.timestamp - (s.receivedAt + base) <= err
  }

  lemma {:induction false} DistinctIdsFit(c: seq<Source>, ids: set<string>)
    requires forall x :: multiset(c)[x] <= 1
    requires forall x, y :: x in c && y in c && x.id == y.id ==> x == y
    requires forall x :: x in c ==> x.id in ids
    ensures |c| <= |ids|
  {
    if c != [] {
      var front, last := c[..|c| - 1], c[|c| - 1];
      assert c == front + [last];
      assert last !in front by {
        assert multiset(c)[last] == multiset(front)[last] + 1;
        assert last in front ==> last in multiset(front);
      }
      forall x
        ensures multiset(front)[x] <= 1
      {
        assert multiset(c)[x] >= multiset(front)[x];
      }
      DistinctIdsFit(front, ids - {last.id});
    }
  }

  /** With fewer faulty sources than the quorum, some chosen source is not faulty. */
  lemma SomeChosenIsHonest(ss: seq<Source>, m: map<string, Source>, c: seq<Source>, faulty: set<string>)
      returns (x: Source)
    requires Lists(ss, m) && multiset(c) <= multiset(ss)
    requires |c| > |faulty * m.Keys|
    ensures x in c && x.id in m && m[x.id] == x && x.id !in faulty
  {
    forall y
      ensures multiset(c)[y] <= 1
      ensures y in c ==> y.id in m && m[y.id] == y
    {
      CountInListing(ss, y);
      assert y in c ==> y in multiset(c);
    }
    if forall y :: y in c ==> y.id in faulty {
      DistinctIdsFit(c, faulty * m.Keys);
      assert false;
    }
    x :| x in c && x.id !in faulty;
  }

  lemma UsablesSub(ss: seq<Source>)
    ensures multiset(Usables(ss)) <= multiset(ss)
  {
    forall x { UsablesCount(ss, x); }
  }

  /** No two usable reports are 2^63 ns (292 years) apart; `ChosenAgreeExactly` shows that this is
      exactly when the sources that take part agree. */
  predicate SpreadsFit(m: map<string, Source>) {
    forall j, k :: j in m && k in m && Usable(m[j]) && Usable(m[k]) ==> m[j].timestamp - m[k].timestamp < TWO_63
  }

  lemma {:induction false} UsablesUsable(ss: seq<Source>)
    ensures forall s :: s in Usables(ss) ==> Usable(s) && s in ss
  {
    if ss != [] {
      UsablesUsable(ss[..|ss| - 1]);
    }
  }

  lemma ListedSpreadFits(ss: seq<Source>, m: map<string, Source>)
    requires Lists(ss, m) && SpreadsFit(m) && Usables(ss) != []
    ensures SpreadFits(Usables(ss))
  {
    UsablesUsable(ss);
    var us := Usables(ss);
    var lo, hi := Earliest(us), Latest(us);
    var first :| first in us && first.timestamp == lo;
    var last :| last in us && last.timestamp == hi;
    assert m[first.id] == first && m[last.id] == last;
  }

  /** What the store holds at instant `now` when non-faulty sources report within `err` of true time. */
  predicate HonestStore(m: map<string, Source>, now: int, faulty: set<string>, base: int, err: int) {
    && (forall k :: k in m && k !in faulty ==> Honest(m[k], base, err))
    && (forall k :: k in m ==> m[k].receivedAt <= now)
  }

  /** Dispersions that give positive weights; `HullExactly` shows what happens without. */
  predicate WeightsPositive(m: map<string, Source>) {
    forall k :: k in m && Usable(m[k]) ==> Denominator(m[k]) > 0.0
  }

  /** Fewer of the fresh sources are faulty than the quorum, and the usable ones have positive weights
      and a spread that fits. */
  predicate FaultsContained(cfg: Config, m: map<string, Source>, now: int, faulty: set<string>) {
    var live := Fresh(m, now, cfg.maxStale);
    |faulty * live.Keys| < cfg.minSources && SpreadsFit(live) && WeightsPositive(live)
  }

  predicate Trustworthy(cfg: Config, m: map<string, Source>, now: int, faulty: set<string>, base: int, err: int) {
    HonestStore(m, now, faulty, base, err) && FaultsContained(cfg, m, now, faulty)
  }

  lemma ListedWeightsPositive(ss: seq<Source>, m: map<string, Source>)
    requires Lists(ss, m) && WeightsPositive(m)
    ensures PositiveWeights(Usables(ss))
  {
    UsablesUsable(ss);
  }

  /** If the selection succeeds at all, it is on enough sources and its time is defined. */
  lemma SelectionDefined(ss: seq<Source>, minSources: int, maxSpread: int)
    requires minSources >= 1 && maxSpread >= 0 && PositiveWeights(Usables(ss))
    requires Select(ss, minSources, maxSpread).Selected? || Select(ss, minSources, maxSpread).Unspecified?
    ensures var us := Usables(ss);
            us != [] && |Chosen(us, maxSpread)| >= minSources
            && Select(ss, minSources, maxSpread) == MeanOutcome(Chosen(us, maxSpread))
            && Select(ss, minSources, maxSpread).Selected?
  {
    EnoughChosen(ss, minSources, maxSpread);
  }

  /** Some chosen source is honest, fresh and within the permitted spread of the selected time. */
  lemma HonestNearSelected(ss: seq<Source>, m: map<string, Source>, minSources: int, maxSpread: int,
                           faulty: set<string>)
      returns (x: Source)
    requires Lists(ss, m) && SpreadsFit(m) && WeightsPositive(m) && |faulty * m.Keys| < minSources
    requires minSources >= 1 && maxSpread >= 0
    requires Select(ss, minSources, maxSpread).Selected? || Select(ss, minSources, maxSpread).Unspecified?
    ensures x.id in m && m[x.id] == x && x.id !in faulty
    ensures var o := Select(ss, minSources, maxSpread);
            o.Selected? && x.timestamp - maxSpread <= o.bestTime <= x.timestamp + maxSpread
  {
    ListedWeightsPositive(ss, m);
    SelectionDefined(ss, minSources, maxSpread);
    var us := Usables(ss);
    var c := Chosen(us, maxSpread);
    UsablesSub(ss);
    ChosenFacts(us, maxSpread);
    ListedSpreadFits(ss, m);
    x := SomeChosenIsHonest(ss, m, c, faulty);
    BestTimeNearChosen(c, maxSpread, x);
  }

  /** A selection that does not fail yields a time within the stated distance of true time. */
  lemma SelectedNearTrueTime(cfg: Config, m: map<string, Source>, now: int, faulty: set<string>, base: int, err: int)
    requires Validated(cfg) && ValidSources(m) && Trustworthy(cfg, m, now, faulty, base, err)
    requires SelectFresh(cfg, m, now).Selected? || SelectFresh(cfg, m, now).Unspecified?
    ensures var o := SelectFresh(cfg, m, now);
            o.Selected? &&
            now + base - cfg.maxStale - cfg.maxSpread - err <= o.bestTime <= now + base + cfg.maxSpread + err
  {
    var live := Fresh(m, now, cfg.maxStale);
    var x := HonestNearSelected(Listing(live), live, cfg.minSources, cfg.maxSpread, faulty);
    assert Honest(m[x.id], base, err);
  }

  function Instant(e: Event): int {
    match e
    case Receive(_, at) => at
    case Poll(r, _) => r.snapshot
    case Force(_, r, _) => r.snapshot
  }

  /** Every report of a non-faulty source was within `err` of true time when received. */
  predicate HonestReports(events: seq<Event>, faulty: set<string>, base: int, err: int) {
    forall e :: e in events && e.Receive? && e.msg.sourceId !in faulty ==>
      -err <= e.msg.timestamp - (e.at + base) <= err
  }

  ghost predicate TrustworthyRun(cfg: Config, events: seq<Event>, faulty: set<string>, base: int, err: int)
    requires Validated(cfg)
  {
    && (forall e :: e in events && !e.Receive? ==> InOrder(e.r))
    && HonestReports(events, faulty, base, err)
    && (forall i, j :: 0 <= i < j < |events| ==> Instant(events[i]) <= Instant(events[j]))
    && (forall i :: 0 <= i < |events| && !events[i].Receive? ==> FaultsContainedAt(cfg, events, i, faulty))
  }

  /** When event `i` evaluates the sources, the faults are contained. */
  ghost predicate FaultsContainedAt(cfg: Config, events: seq<Event>, i: nat, faulty: set<string>)
    requires Validated(cfg) && i < |events|
  {
    FaultsContained(cfg, Run(cfg, events[..i]).sources, Instant(events[i]), faulty)
  }

  lemma TrustworthyPrefix(cfg: Config, events: seq<Event>, faulty: set<string>, base: int, err: int)
    requires Validated(cfg) && events != [] && TrustworthyRun(cfg, events, faulty, base, err)
    ensures TrustworthyRun(cfg, events[..|events| - 1], faulty, base, err)
  {
    var front := events[..|events| - 1];
    forall i | 0 <= i < |front| && !front[i].Receive?
      ensures FaultsContainedAt(cfg, front, i, faulty)
    {
      assert front[i] == events[i] && front[..i] == events[..i];
      assert FaultsContainedAt(cfg, events, i, faulty);
    }
  }

  lemma HonestStoreStep(cfg: Config, st: State, e: Event, faulty: set<string>, base: int, err: int, now: int)
    requires Validated(cfg) && ValidSources(st.sources)
    requires HonestStore(st.sources, Instant(e), faulty, base, err) && HonestReports([e], faulty, base, err)
    requires Instant(e) <= now
    ensures HonestStore(Next(cfg, st, e).sources, now, faulty, base, err)
  {
    assert e in [e];
  }

  lemma {:induction false} StoredReportsHonest(cfg: Config, events: seq<Event>, faulty: set<string>, base: int,
                                               err: int,
                                               now: int)
    requires Validated(cfg) && TrustworthyRun(cfg, events, faulty, base, err)
    requires events != [] ==> Instant(events[|events| - 1]) <= now
    ensures HonestStore(Run(cfg, events).sources, now, faulty, base, err)
  {
    if events != [] {
      var front, e := events[..|events| - 1], events[|events| - 1];
      TrustworthyPrefix(cfg, events, faulty, base, err);
      StoredReportsHonest(cfg, front, faulty, base, err, Instant(e));
      assert e in events;
      HonestStoreStep(cfg, Run(cfg, front), e, faulty, base, err, now);
    }
  }

  /** The step asks for a time within the stated distance of true time at that moment. */
  predicate NearTrueTime(cfg: Config, a: Applied, base: int, err: int) {
    a.adj.kind == Step ==>
      -(cfg.maxStale + cfg.maxSpread + err + (a.at.select - a.at.snapshot))
      <= a.adj.absolute - (a.at.adjust + base)
      <= cfg.maxSpread + err
  }

  lemma AdjustedNearTrueTime(cfg: Config, st: State, clock: ClockConfig, o: Outcome, r: Reading, applyOk: bool,
                             base: int, err: int)
    requires o.Selected? && InOrder(r)
    requires r.snapshot + base - cfg.maxStale - cfg.maxSpread - err <= o.bestTime
    requires o.bestTime <= r.snapshot + base + cfg.maxSpread + err
    ensures forall a :: a in Adjusted(st, clock, o, r, applyOk).applied ==>
              a in st.applied || NearTrueTime(cfg, a, base, err)
  {
    OffsetRoundTrip(o.bestTime - (r.select + r.skew), clock, r.adjust + r.skew);
  }

  lemma EvaluationNearTrueTime(cfg: Config, st: State, e: Event, faulty: set<string>, base: int, err: int)
    requires Validated(cfg) && ValidSources(st.sources) && !e.Receive? && InOrder(e.r)
    requires Trustworthy(cfg, st.sources, Instant(e), faulty, base, err)
    ensures forall a :: a in Next(cfg, st, e).applied ==> a in st.applied || NearTrueTime(cfg, a, base, err)
  {
    var o := SelectFresh(cfg, st.sources, e.r.snapshot);
    if o.Selected? || o.Unspecified? {
      SelectedNearTrueTime(cfg, st.sources, e.r.snapshot, faulty, base, err);
      var clock := if e.Poll? then cfg.clock else ForceClock(e.allowBackward);
      AdjustedNearTrueTime(cfg, st, clock, o, e.r, e.applyOk, base, err);
    }
  }

  /** End-to-end bound over every run, for any number of sources: each step the service asks for
      targets a time at most `maxSpread + err` ahead of true time, and at most
      `maxStale + maxSpread + err` (plus the time the evaluation itself took) behind it. */
  lemma {:induction false} StepTargetsNearTrueTime(cfg: Config, events: seq<Event>, faulty: set<string>,
                                                   base: int, err: int)
    requires Validated(cfg) && TrustworthyRun(cfg, events, faulty, base, err)
    ensures forall a :: a in Run(cfg, events).applied ==> NearTrueTime(cfg, a, base, err)
  {
    if events != [] {
      var front, e := events[..|events| - 1], events[|events| - 1];
      TrustworthyPrefix(cfg, events, faulty, base, err);
      StepTargetsNearTrueTime(cfg, front, faulty, base, err);
      var st := Run(cfg, front);
      assert e in events;
      if !e.Receive? {
        StoredReportsHonest(cfg, front, faulty, base, err, Instant(e));
        assert FaultsContainedAt(cfg, events, |events| - 1, faulty);
        EvaluationNearTrueTime(cfg, st, e, faulty, base, err);
      }
    }
  }
}
