/**
 * The expiry sweep against lookups: what a client can see does not depend on when, or whether, the
 * sweep ran, with one exception that is characterised exactly.
 */
module SweepTransparency {
  import opened Common
  import opened Records
  import opened StoreRuns

  /** What lookups can show of a record: everything but the first-seen time and the cached status. */
  datatype RecordView = RecordView(
    hostname: string,
    machineId: string,
    aliases: seq<string>,
    addresses: seq<string>,
    timestamp: int,
    ttl: int,
    services: map<string, string>,
    isStatic: bool)

  function ViewOf(r: Record): RecordView {
    RecordView(r.hostname, r.machineId, r.aliases, r.addresses, r.timestamp, r.ttl, r.services, r.isStatic)
  }

  predicate ViewExpired(cfg: Config, v: RecordView, now: int) {
    !v.isStatic && now - v.timestamp * SECOND >= cfg.expireAfter
  }

  /** The observable part of a store at an instant: records that have not expired and the index
      entries that lead to them. */
  datatype View = View(records: map<string, RecordView>, index: map<string, string>)

  predicate Live(cfg: Config, st: Store, h: string, now: int) {
    h in st.records && !ShouldExpire(cfg, st.records[h], now)
  }

  function LiveRecords(cfg: Config, records: map<string, Record>, now: int): map<string, RecordView> {
    map h | h in records && !ShouldExpire(cfg, records[h], now) :: ViewOf(records[h])
  }

  function Observe(cfg: Config, st: Store, now: int): View {
    View(LiveRecords(cfg, st.records, now),
         map a | a in st.aliasIndex && Live(cfg, st, st.aliasIndex[a], now) :: st.aliasIndex[a])
  }

  // ----- the view evolves on its own -----

  function Later(cfg: Config, v: View, now: int): View {
    View(map h | h in v.records && !ViewExpired(cfg, v.records[h], now) :: v.records[h],
         map a | a in v.index && v.index[a] in v.records && !ViewExpired(cfg, v.records[v.index[a]], now) :: v.index[a])
  }

  lemma ObserveLater(cfg: Config, st: Store, t: int, now: int)
    requires ValidStore(cfg, st) && t <= now
    ensures Observe(cfg, st, now) == Later(cfg, Observe(cfg, st, t), now)
  {
    RecordsLater(cfg, st.records, t, now);
    IndexLater(cfg, st, t, now);
  }

  lemma RecordsLater(cfg: Config, records: map<string, Record>, t: int, now: int)
    requires t <= now
    ensures var seen := LiveRecords(cfg, records, t);
            LiveRecords(cfg, records, now) == map h | h in seen && !ViewExpired(cfg, seen[h], now) :: seen[h]
  {
  }

  lemma IndexLater(cfg: Config, st: Store, t: int, now: int)
    requires ValidStore(cfg, st) && t <= now
    ensures Observe(cfg, st, now).index == Later(cfg, Observe(cfg, st, t), now).index
  {
  }

  lemma SweepInvisible(cfg: Config, st: Store, now: int)
    requires ValidStore(cfg, st)
    ensures Observe(cfg, Sweep(cfg, st, now), now) == Observe(cfg, st, now)
  {
    SweptRecords(cfg, st, now);
    SweptIndex(cfg, st, now);
  }

  lemma SweptRecords(cfg: Config, st: Store, now: int)
    ensures LiveRecords(cfg, Sweep(cfg, st, now).records, now) == LiveRecords(cfg, st.records, now)
  {
  }

  lemma SweptIndex(cfg: Config, st: Store, now: int)
    requires ValidStore(cfg, st)
    ensures Observe(cfg, Sweep(cfg, st, now), now).index == Observe(cfg, st, now).index
  {
  }

  function ViewWithoutHost(v: View, h: string): View {
    View(v.records - {h}, WithoutHost(v.index, h))
  }

  lemma RemoveObserved(cfg: Config, st: Store, h: string, now: int)
    ensures Observe(cfg, Remove(st, h), now) == ViewWithoutHost(Observe(cfg, st, now), h)
  {
    var a, b := Observe(cfg, Remove(st, h), now), ViewWithoutHost(Observe(cfg, st, now), h);
    assert a.records == b.records;
    assert a.index == b.index;
  }

  /** A removal guarded by presence looks the same whether or not the host is still stored. */
  lemma ForgetObserved(cfg: Config, st: Store, h: string, now: int)
    requires ValidStore(cfg, st)
    ensures Observe(cfg, Forget(st, h), now) ==
            if h in cfg.staticHosts then Observe(cfg, st, now) else ViewWithoutHost(Observe(cfg, st, now), h)
  {
    var v := Observe(cfg, st, now);
    if h in st.records {
      RemoveObserved(cfg, st, h, now);
    } else {
      assert WithoutHost(v.index, h) == v.index;
      assert v.records - {h} == v.records;
    }
  }

  function FiledView(cfg: Config, r: Record, now: int): RecordView {
    ViewOf(r.(ttl := if r.ttl == 0 then cfg.ttl / SECOND else r.ttl, timestamp := Unix(now), isStatic := false))
  }

  function ViewAnnounce(cfg: Config, v: View, r: Record, now: int): View {
    var rv := FiledView(cfg, r, now);
    var w := ViewWithoutHost(v, r.hostname);
    if ViewExpired(cfg, rv, now)
    then View(w.records, map a | a in w.index && a !in r.aliases :: w.index[a])
    else View(w.records[r.hostname := rv], WithAliases(w.index, r.aliases, r.hostname))
  }

  /** Whether or not the host is still stored, its old index entries are gone afterwards. */
  lemma AnnouncedIndex(cfg: Config, st: Store, r: Record, now: int)
    requires ValidStore(cfg, st) && r.hostname !in cfg.staticHosts
    ensures AddOrUpdate(cfg, st, r, now).aliasIndex ==
            WithAliases(WithoutHost(st.aliasIndex, r.hostname), r.aliases, r.hostname)
  {
    if r.hostname !in st.records {
      assert WithoutHost(st.aliasIndex, r.hostname) == st.aliasIndex;
    }
  }

  lemma AnnouncedLive(cfg: Config, st: Store, r: Record, now: int, h: string)
    requires r.hostname !in cfg.staticHosts
    ensures Live(cfg, AddOrUpdate(cfg, st, r, now), h, now) <==>
            if h == r.hostname then !ViewExpired(cfg, FiledView(cfg, r, now), now) else Live(cfg, st, h, now)
  {
  }

  lemma AnnouncedRecords(cfg: Config, st: Store, r: Record, now: int)
    requires r.hostname !in cfg.staticHosts
    ensures Observe(cfg, AddOrUpdate(cfg, st, r, now), now).records ==
            ViewAnnounce(cfg, Observe(cfg, st, now), r, now).records
  {
    var filed := Stamped(cfg, st, r, now);
    assert ViewOf(filed) == FiledView(cfg, r, now);
    FiledRecord(cfg, st.records, r.hostname, filed, now);
  }

  lemma FiledRecord(cfg: Config, records: map<string, Record>, h: string, r: Record, now: int)
    ensures var rest := LiveRecords(cfg, records, now) - {h};
            LiveRecords(cfg, records[h := r], now) == if ShouldExpire(cfg, r, now) then rest else rest[h := ViewOf(r)]
  {
  }

  lemma AnnounceObserved(cfg: Config, st: Store, r: Record, now: int)
    requires ValidStore(cfg, st)
    ensures Observe(cfg, AddOrUpdate(cfg, st, r, now), now) ==
            if r.hostname in cfg.staticHosts then Observe(cfg, st, now)
            else ViewAnnounce(cfg, Observe(cfg, st, now), r, now)
  {
    if r.hostname !in cfg.staticHosts {
      var st' := AddOrUpdate(cfg, st, r, now);
      var a, b := Observe(cfg, st', now), ViewAnnounce(cfg, Observe(cfg, st, now), r, now);
      forall h { AnnouncedLive(cfg, st, r, now, h); }
      AnnouncedRecords(cfg, st, r, now);
      AnnouncedIndex(cfg, st, r, now);
      AnnouncedIndexView(cfg, st, st', r, now);
    }
  }

  lemma AnnouncedIndexView(cfg: Config, st: Store, st': Store, r: Record, now: int)
    requires st'.aliasIndex == WithAliases(WithoutHost(st.aliasIndex, r.hostname), r.aliases, r.hostname)
    requires forall h :: Live(cfg, st', h, now) <==>
               if h == r.hostname then !ViewExpired(cfg, FiledView(cfg, r, now), now) else Live(cfg, st, h, now)
    ensures Observe(cfg, st', now).index == ViewAnnounce(cfg, Observe(cfg, st, now), r, now).index
  {
    var x, y := Observe(cfg, st', now).index, ViewAnnounce(cfg, Observe(cfg, st, now), r, now).index;
    forall a { AnnouncedEntry(cfg, st, st', r, now, a); }
    assert x == y;
  }

  lemma AnnouncedEntry(cfg: Config, st: Store, st': Store, r: Record, now: int, a: string)
    requires st'.aliasIndex == WithAliases(WithoutHost(st.aliasIndex, r.hostname), r.aliases, r.hostname)
    requires forall h :: Live(cfg, st', h, now) <==>
               if h == r.hostname then !ViewExpired(cfg, FiledView(cfg, r, now), now) else Live(cfg, st, h, now)
    ensures var x, y := Observe(cfg, st', now).index, ViewAnnounce(cfg, Observe(cfg, st, now), r, now).index;
            (a in x <==> a in y) && (a in x ==> x[a] == y[a])
  {
    if a in r.aliases {
      assert a in st'.aliasIndex && st'.aliasIndex[a] == r.hostname;
    }
  }

  lemma MarkLostInvisible(cfg: Config, st: Store, h: string, now: int)
    ensures Observe(cfg, MarkLost(st, h), now) == Observe(cfg, st, now)
  {
    var st' := MarkLost(st, h);
    assert forall g :: Live(cfg, st', g, now) <==> Live(cfg, st, g, now);
    assert Observe(cfg, st', now).records == Observe(cfg, st, now).records;
    assert Observe(cfg, st', now).index == Observe(cfg, st, now).index;
  }

  lemma RefreshInvisible(cfg: Config, st: Store, now: int)
    ensures Observe(cfg, RefreshAll(cfg, st, now), now) == Observe(cfg, st, now)
  {
    var st' := RefreshAll(cfg, st, now);
    assert forall g :: Live(cfg, st', g, now) <==> Live(cfg, st, g, now);
    assert Observe(cfg, st', now).records == Observe(cfg, st, now).records;
    assert Observe(cfg, st', now).index == Observe(cfg, st, now).index;
  }

  lemma NextObserved(cfg: Config, s1: Store, s2: Store, e: Timed, t: int)
    requires ValidStore(cfg, s1) && ValidStore(cfg, s2) && t <= e.at
    requires Observe(cfg, s1, t) == Observe(cfg, s2, t)
    ensures Observe(cfg, Next(cfg, s1, e), e.at) == Observe(cfg, Next(cfg, s2, e), e.at)
  {
    ObserveLater(cfg, s1, t, e.at);
    ObserveLater(cfg, s2, t, e.at);
    match e.event
    case Announce(r) =>
      AnnounceObserved(cfg, s1, r, e.at);
      AnnounceObserved(cfg, s2, r, e.at);
    case ForgetHost(h) =>
      ForgetObserved(cfg, s1, h, e.at);
      ForgetObserved(cfg, s2, h, e.at);
    case MarkHostLost(h) =>
      MarkLostInvisible(cfg, s1, h, e.at);
      MarkLostInvisible(cfg, s2, h, e.at);
    case RefreshStatuses =>
      RefreshInvisible(cfg, s1, e.at);
      RefreshInvisible(cfg, s2, e.at);
    case SweepExpired =>
      SweepInvisible(cfg, s1, e.at);
      SweepInvisible(cfg, s2, e.at);
  }

  // ----- whole runs -----

  lemma {:induction false} WithoutSweepsInOrder(es: seq<Timed>, now: int)
    requires InOrder(es, now)
    ensures InOrder(WithoutSweeps(es), now)
    ensures forall e :: e in WithoutSweeps(es) ==> e in es
  {
    if es != [] {
      var front, last := es[..|es| - 1], es[|es| - 1];
      WithoutSweepsInOrder(front, last.at);
      var rest := WithoutSweeps(front);
      assert forall i :: 0 <= i < |rest| ==> rest[i].at <= last.at <= now;
    }
  }

  lemma {:induction false} DroppingSweeps(cfg: Config, es: seq<Timed>, now: int)
    requires InOrder(es, now)
    ensures Observe(cfg, Run(cfg, es), now) == Observe(cfg, Run(cfg, WithoutSweeps(es)), now)
  {
    if es != [] {
      var front, e := es[..|es| - 1], es[|es| - 1];
      var s1, s2 := Run(cfg, front), Run(cfg, WithoutSweeps(front));
      DroppingSweeps(cfg, front, e.at);
      RunValid(cfg, front);
      RunValid(cfg, WithoutSweeps(front));
      if e.event.SweepExpired? {
        SweepInvisible(cfg, s1, e.at);
      } else {
        var rest := WithoutSweeps(front);
        assert (rest + [e])[..|rest|] == rest;
        NextObserved(cfg, s1, s2, e, e.at);
      }
      RunsLater(cfg, es, WithoutSweeps(es), e.at, now);
    }
  }

  lemma RunsLater(cfg: Config, es1: seq<Timed>, es2: seq<Timed>, t: int, now: int)
    requires t <= now && Observe(cfg, Run(cfg, es1), t) == Observe(cfg, Run(cfg, es2), t)
    ensures Observe(cfg, Run(cfg, es1), now) == Observe(cfg, Run(cfg, es2), now)
  {
    RunValid(cfg, es1);
    RunValid(cfg, es2);
    ObserveLater(cfg, Run(cfg, es1), t, now);
    ObserveLater(cfg, Run(cfg, es2), t, now);
  }

  /** Two runs that differ only in their sweeps are observed alike at every later instant. */
  lemma SweepsDoNotShow(cfg: Config, es1: seq<Timed>, es2: seq<Timed>, now: int)
    requires InOrder(es1, now) && InOrder(es2, now)
    requires WithoutSweeps(es1) == WithoutSweeps(es2)
    ensures Observe(cfg, Run(cfg, es1), now) == Observe(cfg, Run(cfg, es2), now)
  {
    DroppingSweeps(cfg, es1, now);
    DroppingSweeps(cfg, es2, now);
  }

  // ----- what each lookup shows -----

  function FoundView(r: Option<Record>): Option<RecordView> {
    match r
    case None => None
    case Some(rec) => Some(ViewOf(rec))
  }

  lemma VisibleIsLive(cfg: Config, st: Store, h: string, now: int)
    requires cfg.gracePeriod <= cfg.expireAfter && h in st.records
    ensures Visible(cfg, st.records[h], now) <==> Live(cfg, st, h, now)
  {
  }

  /** A stored but expired record still answers to its own name, and so hides a live host that uses
      that name as an alias. */
  predicate Shadowed(cfg: Config, st: Store, name: string, now: int) {
    && name in st.records && !Live(cfg, st, name, now)
    && name in st.aliasIndex && Live(cfg, st, st.aliasIndex[name], now)
  }

  function GetFromView(v: View, name: string): Option<RecordView> {
    if name in v.records then Some(v.records[name])
    else if name in v.index && v.index[name] in v.records then Some(v.records[v.index[name]])
    else None
  }

  lemma GetObserved(cfg: Config, st: Store, name: string, now: int)
    requires ValidStore(cfg, st) && cfg.gracePeriod <= cfg.expireAfter
    ensures FoundView(Get(cfg, st, name, now)) ==
            if Shadowed(cfg, st, name, now) then None else GetFromView(Observe(cfg, st, now), name)
    ensures Shadowed(cfg, st, name, now) ==> GetFromView(Observe(cfg, st, now), name).Some?
  {
    if name in st.records {
      VisibleIsLive(cfg, st, name, now);
    }
    if name in st.aliasIndex && st.aliasIndex[name] in st.records {
      VisibleIsLive(cfg, st, st.aliasIndex[name], now);
    }
  }

  /** Sweep transparency of `Get`, exactly: two runs that differ only in their sweeps answer alike if
      and only if the name is shadowed in both or in neither. */
  lemma GetTransparency(cfg: Config, es1: seq<Timed>, es2: seq<Timed>, name: string, now: int)
    requires cfg.gracePeriod <= cfg.expireAfter
    requires InOrder(es1, now) && InOrder(es2, now)
    requires WithoutSweeps(es1) == WithoutSweeps(es2)
    ensures FoundView(Get(cfg, Run(cfg, es1), name, now)) == FoundView(Get(cfg, Run(cfg, es2), name, now)) <==>
            (Shadowed(cfg, Run(cfg, es1), name, now) <==> Shadowed(cfg, Run(cfg, es2), name, now))
  {
    SweepsDoNotShow(cfg, es1, es2, now);
    RunValid(cfg, es1);
    RunValid(cfg, es2);
    GetObserved(cfg, Run(cfg, es1), name, now);
    GetObserved(cfg, Run(cfg, es2), name, now);
  }

  lemma NextKeepsMore(cfg: Config, s1: Store, s2: Store, e: Timed)
    requires ValidStore(cfg, s1) && ValidStore(cfg, s2) && s1.records.Keys <= s2.records.Keys
    ensures Next(cfg, s1, e).records.Keys <= s1.records.Keys || e.event.Announce?
    ensures !e.event.SweepExpired? ==> Next(cfg, s1, e).records.Keys <= Next(cfg, s2, e).records.Keys
  {
  }

  /** A run that sweeps stores no host that the same run without sweeps has dropped. */
  lemma {:induction false} SweepsOnlyDrop(cfg: Config, es: seq<Timed>)
    ensures Run(cfg, es).records.Keys <= Run(cfg, WithoutSweeps(es)).records.Keys
  {
    if es != [] {
      var front, e := es[..|es| - 1], es[|es| - 1];
      var rest := WithoutSweeps(front);
      SweepsOnlyDrop(cfg, front);
      RunValid(cfg, front);
      RunValid(cfg, rest);
      NextKeepsMore(cfg, Run(cfg, front), Run(cfg, rest), e);
      assert (rest + [e])[..|rest|] == rest;
    }
  }

  /** If the run shadows the name, so does the same run without sweeps. */
  lemma ShadowedWithoutSweeps(cfg: Config, es: seq<Timed>, name: string, now: int)
    requires InOrder(es, now) && Shadowed(cfg, Run(cfg, es), name, now)
    ensures Shadowed(cfg, Run(cfg, WithoutSweeps(es)), name, now)
  {
    var s1, s2 := Run(cfg, es), Run(cfg, WithoutSweeps(es));
    DroppingSweeps(cfg, es, now);
    SweepsOnlyDrop(cfg, es);
    assert name in s1.records.Keys;
    assert name !in Observe(cfg, s1, now).records && name in Observe(cfg, s1, now).index;
  }

  lemma SweepUncovers(cfg: Config, es: seq<Timed>, name: string, now: int)
    requires Shadowed(cfg, Run(cfg, es), name, now)
    ensures !Shadowed(cfg, Run(cfg, es + [Timed(SweepExpired, now)]), name, now)
  {
    assert (es + [Timed(SweepExpired, now)])[..|es|] == es;
  }

  /** Exactly when sweeps are invisible to `Get`: every way of placing sweeps in the run gives the
      same answer for the name if and only if the run without sweeps does not shadow it. */
  lemma SweepsInvisibleToGetExactly(cfg: Config, es: seq<Timed>, name: string, now: int)
    requires cfg.gracePeriod <= cfg.expireAfter && InOrder(es, now) && WithoutSweeps(es) == es
    ensures !Shadowed(cfg, Run(cfg, es), name, now) <==>
            forall es' :: InOrder(es', now) && WithoutSweeps(es') == es ==>
              FoundView(Get(cfg, Run(cfg, es'), name, now)) == FoundView(Get(cfg, Run(cfg, es), name, now))
  {
    if Shadowed(cfg, Run(cfg, es), name, now) {
      var es' := es + [Timed(SweepExpired, now)];
      assert es'[..|es|] == es;
      SweepUncovers(cfg, es, name, now);
      GetTransparency(cfg, es, es', name, now);
    } else {
      forall es' | InOrder(es', now) && WithoutSweeps(es') == es
        ensures FoundView(Get(cfg, Run(cfg, es'), name, now)) == FoundView(Get(cfg, Run(cfg, es), name, now))
      {
        if Shadowed(cfg, Run(cfg, es'), name, now) {
          ShadowedWithoutSweeps(cfg, es', name, now);
        }
        GetTransparency(cfg, es, es', name, now);
      }
    }
  }

  /** A caller can rule shadowing out: a name that no announcement of the run uses as an alias. */
  lemma {:induction false} NeverAnAlias(cfg: Config, es: seq<Timed>, name: string)
    requires forall e :: e in es && e.event.Announce? ==> name !in e.event.record.aliases
    ensures name !in Run(cfg, es).aliasIndex
  {
    if es != [] {
      var front := es[..|es| - 1];
      assert es[|es| - 1] in es;
      NeverAnAlias(cfg, front, name);
    }
  }

  lemma HostnameGetTransparency(cfg: Config, es1: seq<Timed>, es2: seq<Timed>, name: string, now: int)
    requires cfg.gracePeriod <= cfg.expireAfter
    requires InOrder(es1, now) && InOrder(es2, now)
    requires WithoutSweeps(es1) == WithoutSweeps(es2)
    requires forall e :: (e in es1 || e in es2) && e.event.Announce? ==> name !in e.event.record.aliases
    ensures FoundView(Get(cfg, Run(cfg, es1), name, now)) == FoundView(Get(cfg, Run(cfg, es2), name, now))
  {
    NeverAnAlias(cfg, es1, name);
    NeverAnAlias(cfg, es2, name);
    GetTransparency(cfg, es1, es2, name, now);
  }

  function Plain(hostname: string, aliases: seq<string>): Record {
    Record(hostname, "", aliases, [], 0, 0, 0, map[], Healthy, false)
  }

  /** Host `x` is announced; when it expires, host `b` takes its name as an alias. */
  function ShadowRun(cfg: Config, x: string, b: string): seq<Timed> {
    [Timed(Announce(Plain(x, [])), 0), Timed(Announce(Plain(b, [x])), cfg.expireAfter)]
  }

  lemma RunSnoc(cfg: Config, es: seq<Timed>, e: Timed)
    ensures Run(cfg, es + [e]) == Next(cfg, Run(cfg, es), e)
  {
    assert (es + [e])[..|es|] == es;
  }

  /** After that run the alias is shadowed. */
  lemma ShadowRunShadows(cfg: Config, x: string, b: string)
    requires cfg.expireAfter >= SECOND && x != b && x !in cfg.staticHosts && b !in cfg.staticHosts
    ensures Shadowed(cfg, Run(cfg, ShadowRun(cfg, x, b)), x, cfg.expireAfter)
  {
    var es := ShadowRun(cfg, x, b);
    var s1 := Next(cfg, Initial(cfg), es[0]);
    RunSnoc(cfg, [], es[0]);
    RunSnoc(cfg, [es[0]], es[1]);
    assert es == [es[0]] + [es[1]] && [es[0]] == [] + [es[0]];
    var st := Next(cfg, s1, es[1]);
    assert st.records[x].timestamp == 0 && st.records[b].timestamp == Unix(cfg.expireAfter);
    assert st.aliasIndex[x] == b;
  }

  /** A sweep does change an answer, in every configuration with an expiry of a second or more: `x`
      resolves to `b` only once the sweep has run. */
  lemma SweepCanShow(cfg: Config, x: string, b: string)
    requires cfg.gracePeriod <= cfg.expireAfter && cfg.expireAfter >= SECOND
    requires x != b && x !in cfg.staticHosts && b !in cfg.staticHosts
    ensures var es, now := ShadowRun(cfg, x, b), cfg.expireAfter;
            && Get(cfg, Run(cfg, es), x, now) == None
            && Get(cfg, Run(cfg, es + [Timed(SweepExpired, now)]), x, now).Some?
  {
    ShadowRunShadows(cfg, x, b);
    SweepShows(cfg, ShadowRun(cfg, x, b), x, cfg.expireAfter);
  }

  /** Whenever a run leaves a name shadowed, one more sweep changes its answer. */
  lemma SweepShows(cfg: Config, es: seq<Timed>, x: string, now: int)
    requires cfg.gracePeriod <= cfg.expireAfter && Shadowed(cfg, Run(cfg, es), x, now)
    ensures Get(cfg, Run(cfg, es), x, now) == None
    ensures Get(cfg, Run(cfg, es + [Timed(SweepExpired, now)]), x, now).Some?
  {
    RunValid(cfg, es);
    RunSnoc(cfg, es, Timed(SweepExpired, now));
    SweepUncoversAlias(cfg, Run(cfg, es), x, now);
  }

  lemma SweepUncoversAlias(cfg: Config, st: Store, x: string, now: int)
    requires ValidStore(cfg, st) && cfg.gracePeriod <= cfg.expireAfter && Shadowed(cfg, st, x, now)
    ensures Get(cfg, st, x, now) == None && Get(cfg, Sweep(cfg, st, now), x, now).Some?
  {
    var b := st.aliasIndex[x];
    var swept := Sweep(cfg, st, now);
    assert x !in swept.records && x in swept.aliasIndex && swept.aliasIndex[x] == b && b in swept.records;
    VisibleIsLive(cfg, st, b, now);
  }

  /** Every listing shows exactly the observable records, each once. */
  lemma ListingObserved(cfg: Config, st: Store, rs: seq<Record>, now: int)
    requires ValidStore(cfg, st) && cfg.gracePeriod <= cfg.expireAfter
    requires ListsVisible(cfg, st, now, rs)
    ensures forall v :: v in Observe(cfg, st, now).records.Values <==> exists r :: r in rs && ViewOf(r) == v
  {
    var m := Observe(cfg, st, now).records;
    forall v | v in m.Values
      ensures exists r :: r in rs && ViewOf(r) == v
    {
      var h :| h in m && m[h] == v;
      VisibleIsLive(cfg, st, h, now);
      assert st.records[h] in rs;
    }
    forall r | r in rs
      ensures ViewOf(r) in m.Values
    {
      VisibleIsLive(cfg, st, r.hostname, now);
      assert m[r.hostname] == ViewOf(r);
    }
  }

  /** Sweep transparency of `List` and `GetAllRecords`: the same records are listed, and the status
      each of them is given is the same too. */
  lemma ListTransparency(cfg: Config, es1: seq<Timed>, es2: seq<Timed>, rs1: seq<Record>, rs2: seq<Record>, now: int)
    requires cfg.gracePeriod <= cfg.expireAfter
    requires InOrder(es1, now) && InOrder(es2, now)
    requires WithoutSweeps(es1) == WithoutSweeps(es2)
    requires ListsVisible(cfg, Run(cfg, es1), now, rs1) && ListsVisible(cfg, Run(cfg, es2), now, rs2)
    ensures forall r1 :: r1 in rs1 ==>
              exists r2 :: r2 in rs2 && ViewOf(r2) == ViewOf(r1) &&
                ComputeStatus(cfg, r2, now) == ComputeStatus(cfg, r1, now)
  {
    SweepsDoNotShow(cfg, es1, es2, now);
    RunValid(cfg, es1);
    RunValid(cfg, es2);
    ListingObserved(cfg, Run(cfg, es1), rs1, now);
    ListingObserved(cfg, Run(cfg, es2), rs2, now);
    forall r1 | r1 in rs1
      ensures exists r2 :: r2 in rs2 && ViewOf(r2) == ViewOf(r1) &&
                ComputeStatus(cfg, r2, now) == ComputeStatus(cfg, r1, now)
    {
      assert ViewOf(r1) in Observe(cfg, Run(cfg, es1), now).records.Values;
      var r2 :| r2 in rs2 && ViewOf(r2) == ViewOf(r1);
    }
  }

  /** Sweep transparency of `GetByAddr`: whatever one run may answer, the other may answer too. */
  lemma GetByAddrTransparency(cfg: Config, es1: seq<Timed>, es2: seq<Timed>, addr: string, now: int, r1: Option<Record>)
      returns (r2: Option<Record>)
    requires cfg.gracePeriod <= cfg.expireAfter
    requires InOrder(es1, now) && InOrder(es2, now)
    requires WithoutSweeps(es1) == WithoutSweeps(es2)
    requires MayFindByAddr(cfg, Run(cfg, es1), addr, now, r1)
    ensures MayFindByAddr(cfg, Run(cfg, es2), addr, now, r2) && FoundView(r1) == FoundView(r2)
  {
    SweepsDoNotShow(cfg, es1, es2, now);
    RunValid(cfg, es1);
    RunValid(cfg, es2);
    var s1, s2 := Run(cfg, es1), Run(cfg, es2);
    var v := Observe(cfg, s1, now);
    match r1 {
      case Some(rec) =>
        VisibleIsLive(cfg, s1, rec.hostname, now);
        assert rec.hostname in v.records && v.records[rec.hostname] == ViewOf(rec);
        assert rec.hostname in Observe(cfg, s2, now).records;
        VisibleIsLive(cfg, s2, rec.hostname, now);
        r2 := Some(s2.records[rec.hostname]);
      case None =>
        forall h | h in s2.records
          ensures !(Visible(cfg, s2.records[h], now) && addr in s2.records[h].addresses)
        {
          VisibleIsLive(cfg, s2, h, now);
          if Live(cfg, s2, h, now) {
            assert h in v.records && v.records[h] == ViewOf(s2.records[h]);
            VisibleIsLive(cfg, s1, h, now);
          }
        }
        r2 := None;
    }
  }
}
