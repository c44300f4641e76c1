/**
 * The alias index against the history of announcements.  The history is described without any state:
 * by which event of the run made a claim, and what happened after it.
 */
module AliasHistory {
  import opened Common
  import opened Records
  import opened StoreRuns

  /** The event is an announcement of `h` that the store takes; static hosts are not announced. */
  predicate Announces(cfg: Config, e: Timed, h: string) {
    e.event.Announce? && e.event.record.hostname == h && h !in cfg.staticHosts
  }

  /** The event claims alias `a` for whichever host announces it. */
  predicate Claims(cfg: Config, e: Timed, a: string) {
    e.event.Announce? && Announces(cfg, e, e.event.record.hostname) && a in e.event.record.aliases
  }

  /** The event removes host `h` if `h` was last announced at instant `announcedAt`. */
  predicate Removes(cfg: Config, e: Timed, h: string, announcedAt: int) {
    || e.event == ForgetHost(h)
    || (e.event.SweepExpired? && e.at - Unix(announcedAt) * SECOND >= cfg.expireAfter)
  }

  /** Event `i` is the announcement that host `h` now stands on: `h` was not announced again and has
      not been removed since. */
  ghost predicate StandsOn(cfg: Config, es: seq<Timed>, h: string, i: nat) {
    && i < |es| && Announces(cfg, es[i], h)
    && (forall j :: i < j < |es| ==> !Announces(cfg, es[j], h) && !Removes(cfg, es[j], h, es[i].at))
  }

  /** Event `i` is the standing claim of `h` on alias `a`: `h` stands on it, it lists `a`, and no host
      has claimed `a` since. */
  ghost predicate StandingClaim(cfg: Config, es: seq<Timed>, a: string, h: string, i: nat) {
    && StandsOn(cfg, es, h, i)
    && a in es[i].event.record.aliases
    && (forall j :: i < j < |es| ==> !Claims(cfg, es[j], a))
  }

  lemma StandsOnSnoc(cfg: Config, es: seq<Timed>, e: Timed, h: string, i: nat)
    requires i < |es|
    ensures StandsOn(cfg, es + [e], h, i) <==>
            StandsOn(cfg, es, h, i) && !Announces(cfg, e, h) && !Removes(cfg, e, h, es[i].at)
  {
    var all := es + [e];
    assert all[|es|] == e;
    assert forall j :: 0 <= j < |es| ==> all[j] == es[j];
  }

  lemma StandsOnLast(cfg: Config, es: seq<Timed>, e: Timed, h: string)
    ensures StandsOn(cfg, es + [e], h, |es|) <==> Announces(cfg, e, h)
  {
    assert (es + [e])[|es|] == e;
  }

  lemma StandsOnUnique(cfg: Config, es: seq<Timed>, h: string, i: nat, j: nat)
    requires StandsOn(cfg, es, h, i) && StandsOn(cfg, es, h, j)
    ensures i == j
  {
  }

  /** What the store keeps of the announcement a host stands on. */
  predicate Reflects(cfg: Config, r: Record, e: Timed) {
    && e.event.Announce?
    && r.hostname == e.event.record.hostname
    && r.machineId == e.event.record.machineId
    && r.aliases == e.event.record.aliases
    && r.addresses == e.event.record.addresses
    && r.services == e.event.record.services
    && r.timestamp == Unix(e.at)
    && r.ttl == (if e.event.record.ttl == 0 then cfg.ttl / SECOND else e.event.record.ttl)
    && !r.isStatic
  }

  ghost predicate RecordMatches(cfg: Config, es: seq<Timed>, st: Store, h: string) {
    && (h in st.records <==> exists i: nat :: StandsOn(cfg, es, h, i))
    && (forall i: nat :: StandsOn(cfg, es, h, i) ==> h in st.records && Reflects(cfg, st.records[h], es[i]))
  }

  /** The stored non-static records are exactly those with a standing announcement, and reflect it. */
  ghost predicate RecordsMatch(cfg: Config, es: seq<Timed>, st: Store) {
    forall h :: h !in cfg.staticHosts ==> RecordMatches(cfg, es, st, h)
  }

  predicate MapsTo(st: Store, a: string, h: string) {
    a in st.aliasIndex && st.aliasIndex[a] == h
  }

  ghost predicate HasStandingClaim(cfg: Config, es: seq<Timed>, a: string, h: string) {
    exists i: nat :: StandingClaim(cfg, es, a, h, i)
  }

  /** The index holds exactly the standing claims. */
  ghost predicate IndexMatches(cfg: Config, es: seq<Timed>, st: Store) {
    forall a, h :: MapsTo(st, a, h) <==> HasStandingClaim(cfg, es, a, h)
  }

  // ----- records -----

  /** How one event changes whether a non-static host is stored, and what is stored of it. */
  lemma NextRecord(cfg: Config, st: Store, e: Timed, h: string)
    requires ValidStore(cfg, st) && h !in cfg.staticHosts
    ensures var st' := Next(cfg, st, e);
            && (Announces(cfg, e, h) ==> h in st'.records && Reflects(cfg, st'.records[h], e))
            && (!Announces(cfg, e, h) && h !in st.records ==> h !in st'.records)
            && (forall at :: !Announces(cfg, e, h) && h in st.records && st.records[h].timestamp == Unix(at) ==>
                  (h in st'.records <==> !Removes(cfg, e, h, at)))
            && (!Announces(cfg, e, h) && h in st.records && h in st'.records ==>
                  st'.records[h] == st.records[h].(status := st'.records[h].status))
  {
  }

  lemma RecordsMatchNext(cfg: Config, es: seq<Timed>, e: Timed, st: Store, h: string)
    requires ValidStore(cfg, st) && RecordsMatch(cfg, es, st) && h !in cfg.staticHosts
    ensures RecordMatches(cfg, es + [e], Next(cfg, st, e), h)
  {
    assert RecordMatches(cfg, es, st, h);
    var st', all := Next(cfg, st, e), es + [e];
    NextRecord(cfg, st, e, h);
    StandsOnLast(cfg, es, e, h);
    forall i: nat | StandsOn(cfg, all, h, i)
      ensures h in st'.records && Reflects(cfg, st'.records[h], all[i])
    {
      if i < |es| {
        StandsOnSnoc(cfg, es, e, h, i);
        assert Reflects(cfg, st.records[h], es[i]);
      }
    }
    if h in st'.records {
      if Announces(cfg, e, h) {
        assert StandsOn(cfg, all, h, |es|);
      } else {
        var i: nat :| StandsOn(cfg, es, h, i);
        StandsOnSnoc(cfg, es, e, h, i);
      }
    }
  }

  lemma {:induction false} RecordsRefineHistory(cfg: Config, es: seq<Timed>)
    ensures RecordsMatch(cfg, es, Run(cfg, es))
  {
    if es != [] {
      var front, e := es[..|es| - 1], es[|es| - 1];
      assert es == front + [e];
      RecordsRefineHistory(cfg, front);
      RunValid(cfg, front);
      forall h | h !in cfg.staticHosts
        ensures RecordMatches(cfg, es, Run(cfg, es), h)
      {
        RecordsMatchNext(cfg, front, e, Run(cfg, front), h);
      }
    }
  }

  // ----- index -----

  lemma StandingClaimSnoc(cfg: Config, es: seq<Timed>, e: Timed, a: string, h: string, i: nat)
    requires i < |es|
    ensures StandingClaim(cfg, es + [e], a, h, i) <==>
            && StandingClaim(cfg, es, a, h, i)
            && !Announces(cfg, e, h) && !Removes(cfg, e, h, es[i].at) && !Claims(cfg, e, a)
  {
    StandsOnSnoc(cfg, es, e, h, i);
    var all := es + [e];
    assert all[|es|] == e;
    assert forall j :: 0 <= j < |es| ==> all[j] == es[j];
  }

  lemma StandingClaimLast(cfg: Config, es: seq<Timed>, e: Timed, a: string, h: string)
    ensures StandingClaim(cfg, es + [e], a, h, |es|) <==> Announces(cfg, e, h) && Claims(cfg, e, a)
  {
    StandsOnLast(cfg, es, e, h);
    assert (es + [e])[|es|] == e;
  }

  /** How one event changes an index entry. */
  lemma NextIndex(cfg: Config, st: Store, e: Timed, a: string, h: string, at: int)
    requires ValidStore(cfg, st)
    requires MapsTo(st, a, h) ==> h !in cfg.staticHosts && st.records[h].timestamp == Unix(at)
    ensures MapsTo(Next(cfg, st, e), a, h) <==>
              || (Announces(cfg, e, h) && Claims(cfg, e, a))
              || (&& MapsTo(st, a, h)
                  && !Announces(cfg, e, h) && !Removes(cfg, e, h, at) && !Claims(cfg, e, a))
  {
  }

  lemma IndexMatchesNext(cfg: Config, es: seq<Timed>, e: Timed, st: Store, a: string, h: string)
    requires ValidStore(cfg, st) && RecordsMatch(cfg, es, st)
    requires MapsTo(st, a, h) <==> HasStandingClaim(cfg, es, a, h)
    ensures MapsTo(Next(cfg, st, e), a, h) <==> HasStandingClaim(cfg, es + [e], a, h)
  {
    StandingClaimLast(cfg, es, e, a, h);
    if MapsTo(st, a, h) {
      var i: nat :| StandingClaim(cfg, es, a, h, i);
      assert RecordMatches(cfg, es, st, h);
      assert StandsOn(cfg, es, h, i) && Reflects(cfg, st.records[h], es[i]);
      NextIndex(cfg, st, e, a, h, es[i].at);
      StandingClaimSnoc(cfg, es, e, a, h, i);
      OtherClaims(cfg, es, e, a, h, i);
    } else {
      NextIndex(cfg, st, e, a, h, 0);
      NoEarlierClaim(cfg, es, e, a, h);
    }
  }

  lemma OtherClaims(cfg: Config, es: seq<Timed>, e: Timed, a: string, h: string, i: nat)
    requires StandingClaim(cfg, es, a, h, i)
    ensures forall k: nat :: StandingClaim(cfg, es + [e], a, h, k) ==> k == i || k == |es|
  {
    forall k: nat | StandingClaim(cfg, es + [e], a, h, k) && k < |es|
      ensures k == i
    {
      StandingClaimSnoc(cfg, es, e, a, h, k);
      StandsOnUnique(cfg, es, h, i, k);
    }
  }

  lemma NoEarlierClaim(cfg: Config, es: seq<Timed>, e: Timed, a: string, h: string)
    requires !HasStandingClaim(cfg, es, a, h)
    ensures forall k: nat :: StandingClaim(cfg, es + [e], a, h, k) ==> k == |es|
  {
    forall k: nat | StandingClaim(cfg, es + [e], a, h, k) && k < |es|
      ensures false
    {
      StandingClaimSnoc(cfg, es, e, a, h, k);
      assert HasStandingClaim(cfg, es, a, h);
    }
  }

  /** After any run, alias `a` maps to host `h` exactly when `h` made the most recent claim of `a` and
      has since been neither removed nor announced without it. */
  lemma {:induction false} IndexRefinesHistory(cfg: Config, es: seq<Timed>)
    ensures IndexMatches(cfg, es, Run(cfg, es))
  {
    if es != [] {
      var front, e := es[..|es| - 1], es[|es| - 1];
      assert es == front + [e];
      IndexRefinesHistory(cfg, front);
      RecordsRefineHistory(cfg, front);
      RunValid(cfg, front);
      forall a, h
        ensures MapsTo(Run(cfg, es), a, h) <==> HasStandingClaim(cfg, es, a, h)
      {
        IndexMatchesNext(cfg, front, e, Run(cfg, front), a, h);
      }
    }
  }
}
