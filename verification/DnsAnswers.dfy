/**
 * What DNS clients are told about an announced host: from the announcement through the store to the
 * answers, with addresses and times to live (internal/dns/server.go, internal/daemon/store.go).
 */
module DnsAnswers {
  import opened Common
  import opened Records
  import opened StoreRuns
  import opened AliasHistory
  import opened RecordHistory
  import opened Announcement
  import opened DnsViews
  import opened SrvViews

  // ----- the addresses of one record -----

  function IPv4Entries(ips: seq<string>, isIPv4: string -> bool): seq<string> {
    if ips == [] then []
    else if isIPv4(ips[0]) then [ips[0]] + IPv4Entries(ips[1..], isIPv4)
    else IPv4Entries(ips[1..], isIPv4)
  }

  /** Every IPv4 entry as often as it is listed, and nothing else. */
  lemma {:induction false} EntriesExactly(ips: seq<string>, isIPv4: string -> bool, a: string)
    ensures multiset(IPv4Entries(ips, isIPv4))[a] == if isIPv4(a) then multiset(ips)[a] else 0
  {
    if ips != [] {
      assert ips == [ips[0]] + ips[1..];
      EntriesExactly(ips[1..], isIPv4, a);
    }
  }

  lemma {:induction false} EntriesSnoc(ips: seq<string>, a: string, isIPv4: string -> bool)
    ensures IPv4Entries(ips + [a], isIPv4) == IPv4Entries(ips, isIPv4) + if isIPv4(a) then [a] else []
  {
    if ips == [] {
      assert ips + [a] == [a] && [a][1..] == [];
    } else {
      assert (ips + [a])[1..] == ips[1..] + [a] && (ips + [a])[0] == ips[0];
      EntriesSnoc(ips[1..], a, isIPv4);
    }
  }

  /** The answers for addresses, all with the same name and time to live. */
  function AnswersFor(qname: string, ttl: int, addresses: seq<string>): (r: seq<ARecord>)
    ensures |r| == |addresses| && forall k :: 0 <= k < |r| ==> r[k] == ARecord(qname, ttl, addresses[k])
  {
    seq(|addresses|, k requires 0 <= k < |addresses| => ARecord(qname, ttl, addresses[k]))
  }

  /** Exactly the IPv4 addresses of the record are answered, in order, with the time to live of its status. */
  lemma {:induction false} AddressAnswersExactly(dns: DnsConfig, qname: string, r: Record, ips: seq<string>,
                                                 isIPv4: string -> bool)
    ensures AddressAnswers(dns, qname, r, ips, isIPv4) ==
            AnswersFor(qname, (if r.status == Stale then dns.ttlStale else dns.ttlHealthy) % 0x1_0000_0000,
                       IPv4Entries(ips, isIPv4))
  {
    if ips != [] {
      var front, last := ips[..|ips| - 1], ips[|ips| - 1];
      assert ips == front + [last];
      AddressAnswersExactly(dns, qname, r, front, isIPv4);
      EntriesSnoc(front, last, isIPv4);
    }
  }

  // ----- an announced host -----

  /** The listing the handlers work on: statuses are brought up to date first. */
  function Refreshing(es: seq<Timed>, now: int): seq<Timed> {
    es + [Timed(RefreshStatuses, now)]
  }

  /** How old the announcement is that the host stands on. */
  function AnnouncedAge(e: Timed, now: int): int {
    now - e.at / 1_000_000_000 * 1_000_000_000
  }

  /** The host has expired for lookups. */
  predicate TooOld(cfg: Config, age: int) {
    age >= cfg.gracePeriod && age >= cfg.expireAfter
  }

  function TtlByAge(cfg: Config, dns: DnsConfig, age: int): int {
    (if age >= cfg.gracePeriod then dns.ttlStale else dns.ttlHealthy) % 0x1_0000_0000
  }

  /** What is stored of an announced host when its status has just been brought up to date. */
  lemma RefreshedRecord(cfg: Config, es: seq<Timed>, h: string, i: nat, msg: Message, now: int)
    requires StandsOn(cfg, es, h, i) && es[i].event.record == AnnouncedRecord(msg)
    ensures StandsOn(cfg, Refreshing(es, now), h, i) && h in Run(cfg, Refreshing(es, now)).records
    ensures var r, age := Run(cfg, Refreshing(es, now)).records[h], AnnouncedAge(es[i], now);
            && r.hostname == h && r.machineId == msg.machineId && r.addresses == Contents(msg.ips)
            && r.aliases == AllAliases(Contents(msg.services))
            && r.ttl == (if msg.ttl == 0 then cfg.ttl / 1_000_000_000 else msg.ttl)
            && (Visible(cfg, r, now) <==> !TooOld(cfg, age))
            && (!TooOld(cfg, age) ==> (r.status == Stale <==> age >= cfg.gracePeriod))
  {
    var e := Timed(RefreshStatuses, now);
    RecordsRefineHistory(cfg, es);
    assert RecordMatches(cfg, es, Run(cfg, es), h);
    StandsOnSnoc(cfg, es, e, h, i);
    assert Refreshing(es, now)[..|es|] == es;
  }

  /** Without name clashes, a name leads to the visible record that goes by it. */
  lemma MatchOfName(cfg: Config, es: seq<Timed>, rs: seq<Record>, h: string, name: string, now: int)
    requires NoClashEver(cfg, es) && ListsVisible(cfg, Run(cfg, es), now, rs)
    requires h in Run(cfg, es).records && Matches(Run(cfg, es).records[h], name)
    ensures var r := Run(cfg, es).records[h];
            FirstMatch(rs, name) == if Visible(cfg, r, now) then Some(r) else None
  {
    var st := Run(cfg, es);
    RunValid(cfg, es);
    AliasesStayIndexed(cfg, es);
    assert NoClash(st) by { assert es[..|es|] == es; }
    IndexAgreesWithScan(cfg, es, rs, name, now);
    GetFindsTheMatch(cfg, st, name, now, st.records[h]);
    var g := Get(cfg, st, name, now);
    if g.Some? {
      GetFindsTheMatch(cfg, st, name, now, g.value);
    }
  }

  /** The A query for the hostname or any announced alias of a host, over any listing after a run without name
      clashes: exactly the IPv4 entries of the announced addresses, in order, under the query name, with the
      stale time to live once the grace period is over; and nothing when the host has expired. */
  lemma AAnswersAnnounced(cfg: Config, dns: DnsConfig, es: seq<Timed>, h: string, i: nat, msg: Message, name: string,
                          rs: seq<Record>, now: int, isIPv4: string -> bool)
    requires StandsOn(cfg, es, h, i) && es[i].event.record == AnnouncedRecord(msg)
    requires NoClashEver(cfg, Refreshing(es, now)) && ListsVisible(cfg, Run(cfg, Refreshing(es, now)), now, rs)
    requires name == h || exists s :: s in Contents(msg.services) && name in Contents(s.aliases)
    ensures var age := AnnouncedAge(es[i], now);
            AResponse(name, dns, rs, isIPv4) ==
            if TooOld(cfg, age) then []
            else AnswersFor(name + "." + dns.domain + ".", TtlByAge(cfg, dns, age),
                            IPv4Entries(Contents(msg.ips), isIPv4))
  {
    RefreshedRecord(cfg, es, h, i, msg, now);
    AllAliasesFacts(Contents(msg.services));
    if s :| s in Contents(msg.services) && name in Contents(s.aliases) {
      var k :| 0 <= k < |Contents(msg.services)| && Contents(msg.services)[k] == s;
    }
    MatchOfName(cfg, Refreshing(es, now), rs, h, name, now);
    var r := Run(cfg, Refreshing(es, now)).records[h];
    AddressAnswersExactly(dns, QueryName(name, dns), r, r.addresses, isIPv4);
  }

  /** The SRV query for a service of the host, likewise: exactly one answer while the host has not expired. */
  lemma SrvAnswersAnnounced(cfg: Config, dns: DnsConfig, es: seq<Timed>, h: string, i: nat, msg: Message,
                            service: string, rs: seq<Record>, now: int)
    requires StandsOn(cfg, es, h, i) && es[i].event.record == AnnouncedRecord(msg)
    requires ListsVisible(cfg, Run(cfg, Refreshing(es, now)), now, rs) && '.' !in service
    ensures var age := AnnouncedAge(es[i], now);
            var answers := Response(SrvName(service, "tcp", dns), dns, rs);
            if TooOld(cfg, age) || LastPort(msg, service).None? then NoneFor(answers, h + "." + dns.domain + ".")
            else OneFor(answers, SrvRecord(TtlByAge(cfg, dns, age), 10, 60, LastPort(msg, service).value,
                                           h + "." + dns.domain + "."))
  {
    RefreshedRecord(cfg, es, h, i, msg, now);
    assert Refreshing(es, now)[i] == es[i];
    SrvCarriesAnnouncedPort(cfg, dns, Refreshing(es, now), h, i, msg, service, rs, now);
  }

  // ----- static hosts -----

  /** A protocol name holds no colon, so it is read as a protocol without a port. */
  lemma ProtocolRead(proto: string)
    requires ':' !in proto
    ensures ReadService(proto) == DnsService(0, proto)
  {
    var i := LastIndexOf(proto, ':');
  }

  /** A static host answers an SRV query for a configured service and its protocol, at every instant of every
      run, with one record without a port. */
  lemma StaticSrvAnswer(cfg: Config, dns: DnsConfig, es: seq<Timed>, h: string, i: nat, now: int)
    requires h in cfg.staticHosts && i < |cfg.staticHosts[h].services|
    requires var svcs := cfg.staticHosts[h].services;
             && (forall j :: i < j < |svcs| ==> svcs[j].name != svcs[i].name)
             && ':' !in svcs[i].protocol
    ensures h in Run(cfg, Refreshing(es, now)).records
    ensures var svc := cfg.staticHosts[h].services[i];
            var proto := if svc.protocol == "" then "tcp" else svc.protocol;
            SrvFor(dns, Run(cfg, Refreshing(es, now)).records[h], svc.name, proto)
            == [SrvRecord(dns.ttlHealthy % 0x1_0000_0000, 10, 60, 0, h + "." + dns.domain + ".")]
  {
    var svcs := cfg.staticHosts[h].services;
    StaticRefreshed(cfg, es, h, now);
    StaticHostStays(cfg, Refreshing(es, now), h, now);
    StaticServicesExactly(svcs, i);
    PortlessAnswer(dns, Run(cfg, Refreshing(es, now)).records[h], svcs[i].name);
  }

  lemma StaticRefreshed(cfg: Config, es: seq<Timed>, h: string, now: int)
    requires h in cfg.staticHosts
    ensures h in Run(cfg, Refreshing(es, now)).records && Run(cfg, Refreshing(es, now)).records[h].status == Static
  {
    StaticHostStays(cfg, es, h, now);
    assert Refreshing(es, now)[..|es|] == es;
  }

  lemma PortlessAnswer(dns: DnsConfig, r: Record, name: string)
    requires name in r.services && ':' !in r.services[name] && r.status == Static
    ensures SrvFor(dns, r, name, r.services[name])
            == [SrvRecord(dns.ttlHealthy % 0x1_0000_0000, 10, 60, 0, r.hostname + "." + dns.domain + ".")]
  {
    ProtocolRead(r.services[name]);
  }
}
