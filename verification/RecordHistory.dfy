/**
 * What the record store keeps over whole runs besides the latest announcement: when a host was first seen,
 * the static hosts, and the status by age (internal/daemon/store.go and health.go).
 */
module RecordHistory {
  import opened Common
  import opened Records
  import opened StoreRuns
  import opened AliasHistory

  // ----- first seen -----

  /** Host `h` came into the store with event `j` and has been there ever since. */
  ghost predicate StoredSince(cfg: Config, es: seq<Timed>, h: string, j: nat) {
    && j < |es| && Announces(cfg, es[j], h)
    && h !in Run(cfg, es[..j]).records
    && forall k :: j < k <= |es| ==> h in Run(cfg, es[..k]).records
  }

  lemma NextFirstSeen(cfg: Config, st: Store, e: Timed, h: string)
    requires ValidStore(cfg, st) && h !in cfg.staticHosts && h in Next(cfg, st, e).records
    ensures if h in st.records then Next(cfg, st, e).records[h].firstSeen == st.records[h].firstSeen
            else Announces(cfg, e, h) && Next(cfg, st, e).records[h].firstSeen == Unix(e.at)
  {
  }

  lemma StoredSinceSnoc(cfg: Config, es: seq<Timed>, e: Timed, h: string, j: nat)
    requires j < |es|
    ensures StoredSince(cfg, es + [e], h, j) <==>
            StoredSince(cfg, es, h, j) && h in Run(cfg, es + [e]).records
  {
    var all := es + [e];
    assert all[..|all|] == all && es[..|es|] == es;
    assert forall k :: 0 <= k <= |es| ==> all[..k] == es[..k];
  }

  lemma StoredSinceLast(cfg: Config, es: seq<Timed>, e: Timed, h: string)
    ensures StoredSince(cfg, es + [e], h, |es|) <==>
            Announces(cfg, e, h) && h !in Run(cfg, es).records && h in Run(cfg, es + [e]).records
  {
    var all := es + [e];
    assert all[..|all|] == all && all[..|es|] == es && all[|es|] == e;
  }

  /** After any run a stored host has been there since exactly one announcement, and was first seen then:
      later announcements keep that time, and a host that was removed starts again. */
  lemma {:induction false} FirstSeenExactly(cfg: Config, es: seq<Timed>, h: string)
    requires h !in cfg.staticHosts
    ensures h in Run(cfg, es).records <==> exists j: nat :: StoredSince(cfg, es, h, j)
    ensures forall j: nat :: StoredSince(cfg, es, h, j) ==>
              h in Run(cfg, es).records && Run(cfg, es).records[h].firstSeen == Unix(es[j].at)
  {
    if es != [] {
      var front, e := es[..|es| - 1], es[|es| - 1];
      assert es == front + [e];
      FirstSeenExactly(cfg, front, h);
      RunValid(cfg, front);
      StoredSinceLast(cfg, front, e, h);
      forall j: nat | j < |front|
        ensures StoredSince(cfg, es, h, j) <==> StoredSince(cfg, front, h, j) && h in Run(cfg, es).records
      {
        StoredSinceSnoc(cfg, front, e, h, j);
      }
      if h in Run(cfg, es).records {
        NextFirstSeen(cfg, Run(cfg, front), e, h);
        if h in Run(cfg, front).records {
          var j: nat :| StoredSince(cfg, front, h, j);
          assert StoredSince(cfg, es, h, j);
        } else {
          assert StoredSince(cfg, es, h, |front|);
        }
      }
    }
  }

  // ----- static hosts -----

  lemma NextStatic(cfg: Config, st: Store, e: Timed, h: string)
    requires ValidStore(cfg, st) && h in cfg.staticHosts
    ensures h in Next(cfg, st, e).records
    ensures Next(cfg, st, e).records[h] == st.records[h].(status := Next(cfg, st, e).records[h].status)
  {
  }

  /** Nothing that happens changes a static host: its addresses and services are the configured ones, it has
      no aliases, and it is found by name at every instant. */
  lemma {:induction false} StaticHostStays(cfg: Config, es: seq<Timed>, h: string, now: int)
    requires h in cfg.staticHosts
    ensures h in Run(cfg, es).records
    ensures var r := Run(cfg, es).records[h];
            && r.hostname == h && r.addresses == cfg.staticHosts[h].addresses && r.aliases == [] && r.isStatic
            && r.services == StaticServices(cfg.staticHosts[h].services)
            && Get(cfg, Run(cfg, es), h, now) == Some(r)
  {
    if es != [] {
      var front, e := es[..|es| - 1], es[|es| - 1];
      StaticHostStays(cfg, front, h, now);
      RunValid(cfg, front);
      NextStatic(cfg, Run(cfg, front), e, h);
    }
  }

  /** A static host's service is the last configured one of that name, over TCP unless it says otherwise. */
  lemma {:induction false} StaticServicesExactly(svcs: seq<StaticService>, i: nat)
    requires i < |svcs| && forall j :: i < j < |svcs| ==> svcs[j].name != svcs[i].name
    ensures svcs[i].name in StaticServices(svcs)
    ensures StaticServices(svcs)[svcs[i].name] == if svcs[i].protocol == "" then "tcp" else svcs[i].protocol
  {
    if i < |svcs| - 1 {
      assert svcs[..|svcs| - 1][i] == svcs[i];
      StaticServicesExactly(svcs[..|svcs| - 1], i);
    }
  }

  // ----- status -----

  /** The status a record has by age: healthy within the grace period, stale until it expires, then lost. */
  predicate StatusByAge(cfg: Config, r: Record, now: int) {
    var age := now - r.timestamp * 1_000_000_000;
    if r.isStatic then r.status == Static
    else
      && (r.status == Healthy <==> age < cfg.gracePeriod)
      && (r.status == Stale <==> cfg.gracePeriod <= age < cfg.expireAfter)
      && (r.status == Lost <==> age >= cfg.gracePeriod && age >= cfg.expireAfter)
  }

  /** Right after a refresh or a sweep every stored record has the status of its age. */
  lemma RefreshedByAge(cfg: Config, st: Store, now: int)
    ensures forall h :: h in RefreshAll(cfg, st, now).records ==>
              StatusByAge(cfg, RefreshAll(cfg, st, now).records[h], now)
    ensures forall h :: h in Sweep(cfg, st, now).records ==> StatusByAge(cfg, Sweep(cfg, st, now).records[h], now)
  {
  }

  /** And so has a host right after its announcement. */
  lemma AnnouncedByAge(cfg: Config, st: Store, r: Record, now: int)
    requires r.hostname !in cfg.staticHosts
    ensures StatusByAge(cfg, AddOrUpdate(cfg, st, r, now).records[r.hostname], now)
  {
  }
}
