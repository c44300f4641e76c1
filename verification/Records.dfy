/**
 * The host record store: records by hostname, an alias index, and an expiry sweep
 * (internal/daemon/store.go and health.go).
 *
 * Instants are nanosecond counts passed in as parameters; a record's timestamp is in whole seconds,
 * as in the source.  Go's iteration order over a map is arbitrary, so every loop over the records
 * picks its next key freely.
 */
module Records {
  import opened Common

  datatype Status = Healthy | Stale | Lost | Static

  datatype Record = Record(
    hostname: string,
    machineId: string,
    aliases: seq<string>,
    addresses: seq<string>,
    timestamp: int,
    firstSeen: int,
    ttl: int,
    services: map<string, string>,
    status: Status,
    isStatic: bool)

  datatype StaticService = StaticService(name: string, protocol: string)
  datatype StaticHost = StaticHost(addresses: seq<string>, services: seq<StaticService>)

  /** `gracePeriod`, `expireAfter` and `ttl` are in nanoseconds. */
  datatype Config = Config(gracePeriod: int, expireAfter: int, ttl: int, staticHosts: map<string, StaticHost>)

  // ----- health -----

  function Age(r: Record, now: int): int {
    now - r.timestamp * SECOND
  }

  function ComputeStatus(cfg: Config, r: Record, now: int): Status {
    if r.isStatic then Static
    else if Age(r, now) < cfg.gracePeriod then Healthy
    else if Age(r, now) < cfg.expireAfter then Stale
    else Lost
  }

  predicate ShouldExpire(cfg: Config, r: Record, now: int) {
    !r.isStatic && Age(r, now) >= cfg.expireAfter
  }

  /** Lookups hide a record exactly when the sweep would delete it, for all records at all times, if
      and only if the grace period does not outlast the expiry.  Nothing validates that order. */
  lemma HiddenMeansExpired(cfg: Config)
    ensures cfg.gracePeriod <= cfg.expireAfter <==>
            forall r: Record, now: int :: ComputeStatus(cfg, r, now) == Lost <==> ShouldExpire(cfg, r, now)
  {
    if cfg.gracePeriod > cfg.expireAfter {
      var r := Record("h", "", [], [], 0, 0, 0, map[], Healthy, false);
      assert ShouldExpire(cfg, r, cfg.expireAfter);
      assert ComputeStatus(cfg, r, cfg.expireAfter) == Healthy;
    }
  }

  function StaticServices(svcs: seq<StaticService>): map<string, string> {
    if svcs == [] then map[]
    else
      var last := svcs[|svcs| - 1];
      StaticServices(svcs[..|svcs| - 1])[last.name := if last.protocol == "" then "tcp" else last.protocol]
  }

  function StaticRecord(hostname: string, sh: StaticHost): Record {
    Record(hostname, "", [], sh.addresses, 0, 0, 0, StaticServices(sh.services), Static, true)
  }

  // ----- the store as a value -----

  datatype Store = Store(records: map<string, Record>, aliasIndex: map<string, string>)

  function Initial(cfg: Config): Store {
    Store(map h | h in cfg.staticHosts :: StaticRecord(h, cfg.staticHosts[h]), map[])
  }

  /** Records are filed under their hostname, exactly the configured hosts are static, and every index
      entry points at a stored non-static record that lists the alias. */
  ghost predicate ValidStore(cfg: Config, st: Store) {
    && (forall h :: h in st.records ==>
          st.records[h].hostname == h && (st.records[h].isStatic <==> h in cfg.staticHosts))
    && (forall h :: h in cfg.staticHosts ==> h in st.records && st.records[h].aliases == [])
    && (forall a :: a in st.aliasIndex ==>
          st.aliasIndex[a] in st.records && a in st.records[st.aliasIndex[a]].aliases)
  }

  function WithoutHost(index: map<string, string>, h: string): map<string, string> {
    map a | a in index && index[a] != h :: index[a]
  }

  function WithAliases(index: map<string, string>, aliases: seq<string>, h: string): map<string, string> {
    map a | a in index.Keys + (set b | b in aliases) :: if a in aliases then h else index[a]
  }

  /** The record as `AddOrUpdate` files it. */
  function Stamped(cfg: Config, st: Store, r: Record, now: int): Record {
    var r1 := r.(ttl := if r.ttl == 0 then cfg.ttl / SECOND else r.ttl,
                 firstSeen := if r.hostname in st.records then st.records[r.hostname].firstSeen else Unix(now),
                 timestamp := Unix(now),
                 isStatic := false);
    r1.(status := ComputeStatus(cfg, r1, now))
  }

  function AddOrUpdate(cfg: Config, st: Store, r: Record, now: int): Store {
    if r.hostname in cfg.staticHosts then st
    else
      var index := if r.hostname in st.records then WithoutHost(st.aliasIndex, r.hostname) else st.aliasIndex;
      Store(st.records[r.hostname := Stamped(cfg, st, r, now)], WithAliases(index, r.aliases, r.hostname))
  }

  function Remove(st: Store, h: string): Store {
    Store(st.records - {h}, WithoutHost(st.aliasIndex, h))
  }

  function Forget(st: Store, h: string): Store {
    if h in st.records && !st.records[h].isStatic then Remove(st, h) else st
  }

  function MarkLost(st: Store, h: string): Store {
    if h in st.records && !st.records[h].isStatic
    then st.(records := st.records[h := st.records[h].(status := Lost)])
    else st
  }

  function Refreshed(cfg: Config, r: Record, now: int): Record {
    r.(status := ComputeStatus(cfg, r, now))
  }

  function RefreshAll(cfg: Config, st: Store, now: int): Store {
    st.(records := map h | h in st.records :: Refreshed(cfg, st.records[h], now))
  }

  predicate Expired(cfg: Config, st: Store, h: string, now: int) {
    h in st.records && ShouldExpire(cfg, st.records[h], now)
  }

  function Sweep(cfg: Config, st: Store, now: int): Store {
    Store(
      map h | h in st.records && !Expired(cfg, st, h, now) :: Refreshed(cfg, st.records[h], now),
      map a | a in st.aliasIndex && !Expired(cfg, st, st.aliasIndex[a], now) :: st.aliasIndex[a])
  }

  // ----- lookups -----

  predicate Visible(cfg: Config, r: Record, now: int) {
    ComputeStatus(cfg, r, now) != Lost
  }

  function IfVisible(cfg: Config, r: Record, now: int): Option<Record> {
    if Visible(cfg, r, now) then Some(r) else None
  }

  function Get(cfg: Config, st: Store, name: string, now: int): Option<Record> {
    if name in st.records then IfVisible(cfg, st.records[name], now)
    else if name in st.aliasIndex && st.aliasIndex[name] in st.records
    then IfVisible(cfg, st.records[st.aliasIndex[name]], now)
    else None
  }

  /** `GetByAddr` may return any visible record that has the address. */
  ghost predicate MayFindByAddr(cfg: Config, st: Store, addr: string, now: int, r: Option<Record>) {
    match r
    case None => forall h :: h in st.records ==> !(Visible(cfg, st.records[h], now) && addr in st.records[h].addresses)
    case Some(rec) =>
      && rec.hostname in st.records && st.records[rec.hostname] == rec
      && Visible(cfg, rec, now) && addr in rec.addresses
  }

  /** `rs` lists the visible records, each once, in some order. */
  ghost predicate ListsVisible(cfg: Config, st: Store, now: int, rs: seq<Record>) {
    && (forall r :: r in rs ==> r.hostname in st.records && st.records[r.hostname] == r && Visible(cfg, r, now))
    && (forall h :: h in st.records && Visible(cfg, st.records[h], now) ==> st.records[h] in rs)
    && (forall i, j :: 0 <= i < j < |rs| ==> rs[i].hostname != rs[j].hostname)
  }

  // ----- the store as the daemon runs it -----

  class RecordStore {
    const cfg: Config
    var records: map<string, Record>
    var aliasIndex: map<string, string>

    ghost function Abs(): Store
      reads this
    {
      Store(records, aliasIndex)
    }

    ghost predicate Valid()
      reads this
    {
      ValidStore(cfg, Abs())
    }

    constructor (cfg: Config)
      ensures this.cfg == cfg && Valid() && Abs() == Initial(cfg)
    {
      this.cfg := cfg;
      records := map h | h in cfg.staticHosts :: StaticRecord(h, cfg.staticHosts[h]);
      aliasIndex := map[];
    }

    method RemoveAliasesForHost(hostname: string)
      modifies this`aliasIndex
      ensures aliasIndex == WithoutHost(old(aliasIndex), hostname)
    {
      var all := aliasIndex;
      var todo := all.Keys;
      while todo != {}
        invariant todo <= all.Keys
        invariant aliasIndex == map a | a in all && (a in todo || all[a] != hostname) :: all[a]
        decreases todo
      {
        var alias :| alias in todo;
        todo := todo - {alias};
        if all[alias] == hostname {
          aliasIndex := aliasIndex - {alias};
        }
      }
    }

    method IndexAliases(aliases: seq<string>, hostname: string)
      modifies this`aliasIndex
      ensures aliasIndex == WithAliases(old(aliasIndex), aliases, hostname)
    {
      for i := 0 to |aliases|
        invariant aliasIndex == WithAliases(old(aliasIndex), aliases[..i], hostname)
      {
        assert aliases[..i + 1] == aliases[..i] + [aliases[i]];
        aliasIndex := aliasIndex[aliases[i] := hostname];
      }
      assert aliases[..|aliases|] == aliases;
    }

    method Lookup(name: string, now: int) returns (r: Option<Record>)
      ensures r == Get(cfg, Abs(), name, now)
    {
      var found: Option<Record> := None;
      if name in records {
        found := Some(records[name]);
      } else if name in aliasIndex {
        var canonical := aliasIndex[name];
        if canonical in records {
          found := Some(records[canonical]);
        }
      }
      if found.None? {
        return None;
      }
      if found.value.isStatic {
        return found;
      }
      if ComputeStatus(cfg, found.value, now) == Lost {
        return None;
      }
      return found;
    }

    method LookupByAddr(addr: string, now: int) returns (r: Option<Record>)
      requires Valid()
      ensures MayFindByAddr(cfg, Abs(), addr, now, r)
    {
      var todo := records.Keys;
      while todo != {}
        invariant todo <= records.Keys
        invariant forall h :: h in records.Keys - todo ==>
                    !(Visible(cfg, records[h], now) && addr in records[h].addresses)
        decreases todo
      {
        var h :| h in todo;
        todo := todo - {h};
        var record := records[h];
        if !record.isStatic && ComputeStatus(cfg, record, now) == Lost {
          continue;
        }
        var i := 0;
        while i < |record.addresses|
          invariant 0 <= i <= |record.addresses|
          invariant addr !in record.addresses[..i]
        {
          if record.addresses[i] == addr {
            return Some(record);
          }
          i := i + 1;
        }
      }
      return None;
    }

    method Update(r: Record, now: int)
      requires Valid()
      modifies this
      ensures Valid() && Abs() == AddOrUpdate(cfg, old(Abs()), r, now)
    {
      if r.hostname in cfg.staticHosts {
        return;
      }
      var rec := r;
      if rec.ttl == 0 {
        rec := rec.(ttl := cfg.ttl / SECOND);
      }
      if rec.hostname in records {
        rec := rec.(firstSeen := records[rec.hostname].firstSeen);
        RemoveAliasesForHost(rec.hostname);
      } else {
        rec := rec.(firstSeen := Unix(now));
      }
      rec := rec.(timestamp := Unix(now), isStatic := false);
      rec := rec.(status := ComputeStatus(cfg, rec, now));
      records := records[rec.hostname := rec];
      IndexAliases(rec.aliases, rec.hostname);
      AddOrUpdateValid(cfg, old(Abs()), r, now);
    }

    method ForgetHost(hostname: string)
      requires Valid()
      modifies this
      ensures Valid() && Abs() == Forget(old(Abs()), hostname)
    {
      if hostname in records && !records[hostname].isStatic {
        RemoveAliasesForHost(hostname);
        records := records - {hostname};
      }
    }

    method MarkHostLost(hostname: string)
      requires Valid()
      modifies this`records
      ensures Valid() && Abs() == MarkLost(old(Abs()), hostname)
      ensures hostname in records && !records[hostname].isStatic ==> records[hostname].status == Lost
      ensures forall h :: h in records && h != hostname ==> h in old(records) && records[h] == old(records)[h]
    {
      if hostname in records && !records[hostname].isStatic {
        records := records[hostname := records[hostname].(status := Lost)];
      }
    }

    method ListRecords(now: int) returns (rs: seq<Record>)
      requires Valid()
      ensures ListsVisible(cfg, Abs(), now, rs)
    {
      rs := [];
      var todo := records.Keys;
      while todo != {}
        invariant todo <= records.Keys
        invariant ListsVisible(cfg, Store(records - todo, aliasIndex), now, rs)
        decreases todo
      {
        var h :| h in todo;
        ghost var seen := Store(records - todo, aliasIndex);
        todo := todo - {h};
        assert records - todo == seen.records[h := records[h]];
        if records[h].isStatic || ComputeStatus(cfg, records[h], now) != Lost {
          ListsVisibleAppend(cfg, seen, now, rs, records[h]);
          rs := rs + [records[h]];
        }
      }
      assert records - {} == records;
    }

    /** `GetAllRecords`: refreshes every cached status, then lists what is not lost. */
    method RefreshAndList(now: int) returns (rs: seq<Record>)
      requires Valid()
      modifies this`records
      ensures Valid() && Abs() == RefreshAll(cfg, old(Abs()), now)
      ensures ListsVisible(cfg, Abs(), now, rs)
      ensures forall r :: r in rs ==> r.status == ComputeStatus(cfg, r, now)
    {
      rs := [];
      ghost var before := records;
      var todo := records.Keys;
      while todo != {}
        invariant todo <= before.Keys
        invariant records == PartRefreshed(cfg, before, todo, now)
        invariant ListsRefreshed(cfg, before, todo, now, rs)
        decreases todo
      {
        var h :| h in todo;
        PartRefreshedStep(cfg, before, todo, h, now);
        ListsRefreshedStep(cfg, before, todo, h, now, rs);
        records := records[h := Refreshed(cfg, records[h], now)];
        todo := todo - {h};
        if records[h].status != Lost {
          rs := rs + [records[h]];
        }
      }
      PartRefreshedEnds(cfg, old(Abs()), now);
      ListsRefreshedEnds(cfg, old(Abs()), aliasIndex, now, rs);
    }

    /** One tick of `cleanupExpiredRecords`. */
    method SweepExpired(now: int)
      requires Valid()
      modifies this
      ensures Valid() && Abs() == Sweep(cfg, old(Abs()), now)
    {
      ghost var st := Abs();
      var todo := records.Keys;
      PartSweptEnds(cfg, st, now);
      while todo != {}
        invariant todo <= st.records.Keys
        invariant Abs() == PartSwept(cfg, st, todo, now)
        decreases todo
      {
        var h :| h in todo;
        PartSweptStep(cfg, st, todo, h, now);
        todo := todo - {h};
        if ShouldExpire(cfg, records[h], now) {
          RemoveAliasesForHost(h);
          records := records - {h};
        } else {
          records := records[h := Refreshed(cfg, records[h], now)];
        }
      }
      SweepValid(cfg, st, now);
    }
  }

  // ----- loop states over a partly visited map -----

  ghost function PartRefreshed(cfg: Config, before: map<string, Record>, todo: set<string>, now: int): map<string,
                               Record> {
    map h | h in before :: if h in todo then before[h] else Refreshed(cfg, before[h], now)
  }

  /** The records already visited, refreshed. */
  ghost function DoneRefreshed(cfg: Config, before: map<string, Record>, todo: set<string>, now: int): map<string,
                               Record> {
    map h | h in before && h !in todo :: Refreshed(cfg, before[h], now)
  }

  lemma PartRefreshedStep(cfg: Config, before: map<string, Record>, todo: set<string>, h: string, now: int)
    requires h in todo && todo <= before.Keys
    ensures var m := PartRefreshed(cfg, before, todo, now);
            && m[h] == before[h]
            && PartRefreshed(cfg, before, todo - {h}, now) == m[h := Refreshed(cfg, m[h], now)]
  {
  }

  /** `rs` lists what is visible of the records already visited, with their status refreshed. */
  ghost predicate ListsRefreshed(cfg: Config, before: map<string, Record>, todo: set<string>, now: int,
                                 rs: seq<Record>) {
    && ListsVisible(cfg, Store(DoneRefreshed(cfg, before, todo, now), map[]), now, rs)
    && (forall r :: r in rs ==> r.status == ComputeStatus(cfg, r, now))
  }

  lemma DoneRefreshedStep(cfg: Config, before: map<string, Record>, todo: set<string>, h: string, now: int)
    requires h in todo && todo <= before.Keys
    ensures h !in DoneRefreshed(cfg, before, todo, now)
    ensures DoneRefreshed(cfg, before, todo - {h}, now) ==
            DoneRefreshed(cfg, before, todo, now)[h := Refreshed(cfg, before[h], now)]
  {
  }

  lemma ListsRefreshedStep(cfg: Config, before: map<string, Record>, todo: set<string>, h: string, now: int,
                           rs: seq<Record>)
    requires h in todo && todo <= before.Keys && before[h].hostname == h
    requires ListsRefreshed(cfg, before, todo, now, rs)
    ensures var r := Refreshed(cfg, before[h], now);
            ListsRefreshed(cfg, before, todo - {h}, now, if r.status != Lost then rs + [r] else rs)
  {
    DoneRefreshedStep(cfg, before, todo, h, now);
    var r, seen := Refreshed(cfg, before[h], now), Store(DoneRefreshed(cfg, before, todo, now), map[]);
    assert r.status == ComputeStatus(cfg, r, now);
    if r.status != Lost {
      ListsVisibleAppend(cfg, seen, now, rs, r);
    } else {
      ListsVisibleSkip(cfg, seen, now, rs, r);
    }
  }

  lemma ListsRefreshedEnds(cfg: Config, st: Store, index: map<string, string>, now: int, rs: seq<Record>)
    requires ListsRefreshed(cfg, st.records, {}, now, rs) && index == st.aliasIndex
    ensures ListsVisible(cfg, RefreshAll(cfg, st, now), now, rs)
    ensures forall r :: r in rs ==> r.status == ComputeStatus(cfg, r, now)
  {
    assert DoneRefreshed(cfg, st.records, {}, now) == RefreshAll(cfg, st, now).records;
  }

  lemma PartRefreshedEnds(cfg: Config, st: Store, now: int)
    ensures PartRefreshed(cfg, st.records, {}, now) == RefreshAll(cfg, st, now).records
  {
  }

  ghost function PartSwept(cfg: Config, st: Store, todo: set<string>, now: int): Store {
    Store(
      map h | h in st.records && (h in todo || !Expired(cfg, st, h, now)) ::
        if h in todo then st.records[h] else Refreshed(cfg, st.records[h], now),
      map a | a in st.aliasIndex && (st.aliasIndex[a] in todo || !Expired(cfg, st, st.aliasIndex[a], now)) ::
        st.aliasIndex[a])
  }

  lemma PartSweptStep(cfg: Config, st: Store, todo: set<string>, h: string, now: int)
    requires h in todo && todo <= st.records.Keys
    ensures var p := PartSwept(cfg, st, todo, now);
            && h in p.records && p.records[h] == st.records[h]
            && PartSwept(cfg, st, todo - {h}, now) ==
               if Expired(cfg, st, h, now) then Remove(p, h)
               else p.(records := p.records[h := Refreshed(cfg, p.records[h], now)])
  {
    var p, q := PartSwept(cfg, st, todo, now), PartSwept(cfg, st, todo - {h}, now);
    if Expired(cfg, st, h, now) {
      assert q.records == p.records - {h};
      assert q.aliasIndex == WithoutHost(p.aliasIndex, h);
    } else {
      assert q.records == p.records[h := Refreshed(cfg, p.records[h], now)];
      assert q.aliasIndex == p.aliasIndex;
    }
  }

  lemma PartSweptEnds(cfg: Config, st: Store, now: int)
    requires ValidStore(cfg, st)
    ensures PartSwept(cfg, st, st.records.Keys, now) == st
    ensures PartSwept(cfg, st, {}, now) == Sweep(cfg, st, now)
  {
    var p := PartSwept(cfg, st, st.records.Keys, now);
    assert p.records == st.records && p.aliasIndex == st.aliasIndex;
  }

  lemma SweepValid(cfg: Config, st: Store, now: int)
    requires ValidStore(cfg, st)
    ensures ValidStore(cfg, Sweep(cfg, st, now))
  {
  }

  lemma ListsVisibleSkip(cfg: Config, st: Store, now: int, rs: seq<Record>, r: Record)
    requires ListsVisible(cfg, st, now, rs) && r.hostname !in st.records && !Visible(cfg, r, now)
    ensures ListsVisible(cfg, st.(records := st.records[r.hostname := r]), now, rs)
  {
  }

  lemma ListsVisibleAppend(cfg: Config, st: Store, now: int, rs: seq<Record>, r: Record)
    requires ListsVisible(cfg, st, now, rs) && r.hostname !in st.records && Visible(cfg, r, now)
    ensures ListsVisible(cfg, st.(records := st.records[r.hostname := r]), now, rs + [r])
  {
    var st' := st.(records := st.records[r.hostname := r]);
    forall h | h in st'.records && Visible(cfg, st'.records[h], now)
      ensures st'.records[h] in rs + [r]
    {
      if h != r.hostname {
        assert st.records[h] in rs;
      }
    }
    forall i, j | 0 <= i < j < |rs + [r]|
      ensures (rs + [r])[i].hostname != (rs + [r])[j].hostname
    {
      assert rs[i] in rs;
    }
  }

  lemma AddOrUpdateValid(cfg: Config, st: Store, r: Record, now: int)
    requires ValidStore(cfg, st)
    ensures ValidStore(cfg, AddOrUpdate(cfg, st, r, now))
  {
  }
}
