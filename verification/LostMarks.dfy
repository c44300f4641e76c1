/**
 * Marking a host lost (MarkLost in internal/daemon/store.go).  Every lookup and the sweep recompute the
 * status from the record's age, so a mark has no effect at all.
 */
module LostMarks {
  import opened Common
  import opened Records
  import opened StoreRuns
  import opened SweepTransparency

  // ----- the next sweep -----

  /** The next sweep removes a marked host if and only if it would have removed it anyway. */
  lemma SweepOfMarkedExactly(cfg: Config, st: Store, h: string, now: int)
    requires h in st.records && !st.records[h].isStatic
    ensures h !in Sweep(cfg, MarkLost(st, h), now).records <==> Age(st.records[h], now) >= cfg.expireAfter
  {
  }

  /** Announce a host, mark it lost, sweep. */
  function MarkedRun(r: Record, at: int): seq<Timed> {
    [Timed(Announce(r), at), Timed(MarkHostLost(r.hostname), at), Timed(SweepExpired, at)]
  }

  lemma RunOfThree(cfg: Config, a: Timed, b: Timed, c: Timed)
    ensures Run(cfg, [a, b, c]) == Next(cfg, Next(cfg, Next(cfg, Initial(cfg), a), b), c)
  {
    var es := [a, b, c];
    assert es[..2] == [a, b] && [a, b][..1] == [a] && [a][..0] == [];
    assert Run(cfg, [a]) == Next(cfg, Initial(cfg), a);
    assert Run(cfg, [a, b]) == Next(cfg, Run(cfg, [a]), b);
  }

  /** With any expiry of at least a second, every announced host outlives its mark and the next sweep,
      and is still found by name. */
  lemma MarkedHostSurvives(cfg: Config, r: Record, at: int)
    requires cfg.expireAfter >= SECOND && r.hostname !in cfg.staticHosts
    ensures r.hostname in Run(cfg, MarkedRun(r, at)).records
    ensures Get(cfg, Run(cfg, MarkedRun(r, at)), r.hostname, at).Some?
  {
    var es := MarkedRun(r, at);
    RunOfThree(cfg, es[0], es[1], es[2]);
    var st := Next(cfg, Initial(cfg), es[0]);
    assert Age(st.records[r.hostname], at) < SECOND;
    SweepOfMarkedExactly(cfg, st, r.hostname, at);
  }

  // ----- whole runs -----

  /** The stores differ at most in cached statuses. */
  predicate SameButStatus(s1: Store, s2: Store) {
    && s1.aliasIndex == s2.aliasIndex
    && s1.records.Keys == s2.records.Keys
    && forall h :: h in s1.records ==> s1.records[h].(status := Lost) == s2.records[h].(status := Lost)
  }

  lemma MarkOnlyStatus(st: Store, h: string)
    ensures SameButStatus(MarkLost(st, h), st)
  {
  }

  lemma NextSameButStatus(cfg: Config, s1: Store, s2: Store, e: Timed)
    requires SameButStatus(s1, s2)
    ensures SameButStatus(Next(cfg, s1, e), Next(cfg, s2, e))
  {
    match e.event
    case Announce(r) =>
    case ForgetHost(h) =>
    case MarkHostLost(h) =>
    case RefreshStatuses =>
    case SweepExpired => SweepSameButStatus(cfg, s1, s2, e.at);
  }

  lemma SweepSameButStatus(cfg: Config, s1: Store, s2: Store, now: int)
    requires SameButStatus(s1, s2)
    ensures SameButStatus(Sweep(cfg, s1, now), Sweep(cfg, s2, now))
  {
    assert forall h :: Expired(cfg, s1, h, now) <==> Expired(cfg, s2, h, now);
  }

  function WithoutMarks(es: seq<Timed>): seq<Timed> {
    if es == [] then []
    else
      var rest := WithoutMarks(es[..|es| - 1]);
      if es[|es| - 1].event.MarkHostLost? then rest else rest + [es[|es| - 1]]
  }

  /** A run and the same run without its marks end in the same store but for cached statuses, however
      the clock moves. */
  lemma {:induction false} DroppingMarks(cfg: Config, es: seq<Timed>)
    ensures SameButStatus(Run(cfg, es), Run(cfg, WithoutMarks(es)))
  {
    if es != [] {
      var front, e := es[..|es| - 1], es[|es| - 1];
      var rest := WithoutMarks(front);
      DroppingMarks(cfg, front);
      if e.event.MarkHostLost? {
        MarkOnlyStatus(Run(cfg, front), e.event.hostname);
      } else {
        NextSameButStatus(cfg, Run(cfg, front), Run(cfg, rest), e);
        assert (rest + [e])[..|rest|] == rest;
      }
    }
  }

  lemma SameObserved(cfg: Config, s1: Store, s2: Store, now: int)
    requires SameButStatus(s1, s2)
    ensures Observe(cfg, s1, now) == Observe(cfg, s2, now)
  {
    assert forall h :: Live(cfg, s1, h, now) <==> Live(cfg, s2, h, now);
    assert LiveRecords(cfg, s1.records, now) == LiveRecords(cfg, s2.records, now);
    assert Observe(cfg, s1, now).index == Observe(cfg, s2, now).index;
  }

  lemma SameFound(cfg: Config, s1: Store, s2: Store, name: string, now: int)
    requires SameButStatus(s1, s2)
    ensures FoundView(Get(cfg, s1, name, now)) == FoundView(Get(cfg, s2, name, now))
  {
  }

  /** Runs that differ only in their marks look alike at every instant, and every lookup by name answers
      alike. */
  lemma MarksDoNotShow(cfg: Config, es1: seq<Timed>, es2: seq<Timed>, name: string, now: int)
    requires WithoutMarks(es1) == WithoutMarks(es2)
    ensures Observe(cfg, Run(cfg, es1), now) == Observe(cfg, Run(cfg, es2), now)
    ensures FoundView(Get(cfg, Run(cfg, es1), name, now)) == FoundView(Get(cfg, Run(cfg, es2), name, now))
  {
    var s1, s2, s := Run(cfg, es1), Run(cfg, es2), Run(cfg, WithoutMarks(es1));
    DroppingMarks(cfg, es1);
    DroppingMarks(cfg, es2);
    SameObserved(cfg, s1, s, now);
    SameObserved(cfg, s2, s, now);
    SameFound(cfg, s1, s, name, now);
    SameFound(cfg, s2, s, name, now);
  }

  /** The same hosts stay stored too, so no sweep ever removes a host because it was marked. */
  lemma MarksRemoveNobody(cfg: Config, es1: seq<Timed>, es2: seq<Timed>)
    requires WithoutMarks(es1) == WithoutMarks(es2)
    ensures Run(cfg, es1).records.Keys == Run(cfg, es2).records.Keys
    ensures Run(cfg, es1).aliasIndex == Run(cfg, es2).aliasIndex
  {
    DroppingMarks(cfg, es1);
    DroppingMarks(cfg, es2);
  }
}
