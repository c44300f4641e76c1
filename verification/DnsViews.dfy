/**
 * The DNS answers over the record store (internal/dns/server.go), and the announcement handler that
 * fills it (internal/daemon/daemon.go).
 */
module DnsViews {
  import opened Common
  import opened Decimal
  import opened Records
  import opened StoreRuns
  import opened AliasHistory
  import opened Announcement

  // ----- A queries -----

  datatype ARecord = ARecord(name: string, ttl: int, address: string)

  datatype DnsConfig = DnsConfig(domain: string, ttlHealthy: int, ttlStale: int)

  function GetTTL(dns: DnsConfig, status: Status): int {
    if status == Stale then dns.ttlStale else dns.ttlHealthy
  }

  predicate Matches(r: Record, name: string) {
    r.hostname == name || name in r.aliases
  }

  /** The first record of the listing that goes by the name. */
  function FirstMatch(rs: seq<Record>, name: string): Option<Record> {
    if rs == [] then None
    else if Matches(rs[0], name) then Some(rs[0])
    else FirstMatch(rs[1..], name)
  }

  /** One answer per address that is an IPv4 address, in the record's order. */
  function AddressAnswers(dns: DnsConfig, qname: string, r: Record, addresses: seq<string>,
                          isIPv4: string -> bool): seq<ARecord> {
    if addresses == [] then []
    else
      var rest := AddressAnswers(dns, qname, r, addresses[..|addresses| - 1], isIPv4);
      var last := addresses[|addresses| - 1];
      if isIPv4(last) then rest + [ARecord(qname, GetTTL(dns, r.status) % TWO_32, last)] else rest
  }

  function QueryName(name: string, dns: DnsConfig): string {
    name + "." + dns.domain + "."
  }

  /** The answers to an A query for a name over the listed records. */
  function AResponse(name: string, dns: DnsConfig, rs: seq<Record>, isIPv4: string -> bool): seq<ARecord> {
    match FirstMatch(rs, name)
    case None => []
    case Some(r) => AddressAnswers(dns, QueryName(name, dns), r, r.addresses, isIPv4)
  }

  method HandleAQuery(qname: string, dns: DnsConfig, rs: seq<Record>, isIPv4: string -> bool)
      returns (answers: seq<ARecord>)
    ensures forall name :: name != "" && qname == QueryName(name, dns) ==> answers == AResponse(name, dns, rs, isIPv4)
    ensures (forall name :: name != "" ==> qname != QueryName(name, dns)) ==> answers == []
  {
    var suffix := "." + dns.domain + ".";
    if |qname| < |suffix| || qname[|qname| - |suffix|..] != suffix {
      assert forall name :: QueryName(name, dns)[|name|..] == suffix;
      return [];
    }
    var name := qname[..|qname| - |suffix|];
    assert qname == QueryName(name, dns);
    QueryNameInjective(dns);
    if name == "" {
      return [];
    }
    answers := AnswerName(name, qname, dns, rs, isIPv4);
  }

  /** The handler's loop over the records. */
  method AnswerName(name: string, qname: string, dns: DnsConfig, rs: seq<Record>, isIPv4: string -> bool)
      returns (answers: seq<ARecord>)
    requires qname == QueryName(name, dns)
    ensures answers == AResponse(name, dns, rs, isIPv4)
  {
    answers := [];
    for i := 0 to |rs|
      invariant answers == []
      invariant FirstMatch(rs, name) == FirstMatch(rs[i..], name)
    {
      var matched := rs[i].hostname == name;
      if !matched {
        matched := ScanAliases(rs[i].aliases, name);
      }
      if matched {
        answers := AnswerAddresses(dns, qname, rs[i], isIPv4);
        return;
      }
      assert rs[i..][1..] == rs[i + 1..];
    }
  }

  method ScanAliases(aliases: seq<string>, name: string) returns (found: bool)
    ensures found <==> name in aliases
  {
    for i := 0 to |aliases|
      invariant name !in aliases[..i]
    {
      if aliases[i] == name {
        return true;
      }
    }
    return false;
  }

  method AnswerAddresses(dns: DnsConfig, qname: string, r: Record, isIPv4: string -> bool)
      returns (answers: seq<ARecord>)
    ensures answers == AddressAnswers(dns, qname, r, r.addresses, isIPv4)
  {
    answers := [];
    for i := 0 to |r.addresses|
      invariant answers == AddressAnswers(dns, qname, r, r.addresses[..i], isIPv4)
    {
      assert r.addresses[..i + 1][..i] == r.addresses[..i];
      if !isIPv4(r.addresses[i]) {
        continue;
      }
      answers := answers + [ARecord(qname, GetTTL(dns, r.status) % TWO_32, r.addresses[i])];
    }
    assert r.addresses[..|r.addresses|] == r.addresses;
  }

  lemma QueryNameInjective(dns: DnsConfig)
    ensures forall a, b :: QueryName(a, dns) == QueryName(b, dns) ==> a == b
  {
    forall a, b | QueryName(a, dns) == QueryName(b, dns)
      ensures a == b
    {
      assert |a| == |b|;
      assert a == QueryName(a, dns)[..|a|];
      assert b == QueryName(b, dns)[..|b|];
    }
  }

  // ----- the index agrees with the scan -----

  /** No two stored records go by the same name. */
  ghost predicate NoClash(st: Store) {
    forall g, h, name :: g in st.records && h in st.records && g != h ==>
      !(Matches(st.records[g], name) && Matches(st.records[h], name))
  }

  ghost predicate NoClashEver(cfg: Config, es: seq<Timed>) {
    forall n :: 0 <= n <= |es| ==> NoClash(Run(cfg, es[..n]))
  }

  ghost predicate AllAliasesIndexed(st: Store) {
    forall h, a :: h in st.records && a in st.records[h].aliases ==> MapsTo(st, a, h)
  }

  lemma AllAliasesIndexedNext(cfg: Config, st: Store, e: Timed)
    requires ValidStore(cfg, st) && AllAliasesIndexed(st)
    requires NoClash(Next(cfg, st, e))
    ensures AllAliasesIndexed(Next(cfg, st, e))
  {
    var st' := Next(cfg, st, e);
    forall h, a | h in st'.records && a in st'.records[h].aliases
      ensures MapsTo(st', a, h)
    {
      if e.event.Announce? && Announces(cfg, e, e.event.record.hostname) {
        var g := e.event.record.hostname;
        assert st'.records[g].aliases == e.event.record.aliases;
        if h != g {
          assert MapsTo(st, a, h);
          assert Matches(st'.records[h], a);
          assert !Matches(st'.records[g], a);
        }
      } else {
        assert h in st.records && st'.records[h].aliases == st.records[h].aliases;
        assert MapsTo(st, a, h);
      }
    }
  }

  lemma {:induction false} AliasesStayIndexed(cfg: Config, es: seq<Timed>)
    requires NoClashEver(cfg, es)
    ensures AllAliasesIndexed(Run(cfg, es))
  {
    if es != [] {
      var front, e := es[..|es| - 1], es[|es| - 1];
      assert forall n :: 0 <= n <= |front| ==> front[..n] == es[..n];
      AliasesStayIndexed(cfg, front);
      RunValid(cfg, front);
      assert es[..|es|] == es;
      assert NoClash(Run(cfg, es));
      AllAliasesIndexedNext(cfg, Run(cfg, front), e);
    }
  }

  lemma {:induction false} FirstMatchFacts(rs: seq<Record>, name: string)
    ensures FirstMatch(rs, name).None? ==> forall r :: r in rs ==> !Matches(r, name)
    ensures FirstMatch(rs, name).Some? ==>
              FirstMatch(rs, name).value in rs && Matches(FirstMatch(rs, name).value, name)
  {
    if rs != [] {
      FirstMatchFacts(rs[1..], name);
    }
  }

  /** In a store without clashes whose aliases are all indexed, a lookup finds the one visible record
      that goes by the name. */
  lemma GetFindsTheMatch(cfg: Config, st: Store, name: string, now: int, r: Record)
    requires ValidStore(cfg, st) && NoClash(st) && AllAliasesIndexed(st)
    ensures Get(cfg, st, name, now) == Some(r) <==>
            && r.hostname in st.records && st.records[r.hostname] == r
            && Visible(cfg, r, now) && Matches(r, name)
  {
    if name in st.records {
      assert Matches(st.records[name], name);
    }
  }

  /** Index agrees with scan: in every run where no two stored records ever go by the same name, the
      store's lookup and the DNS handler's linear scan of any listing find the same record. */
  lemma IndexAgreesWithScan(cfg: Config, es: seq<Timed>, rs: seq<Record>, name: string, now: int)
    requires NoClashEver(cfg, es)
    requires ListsVisible(cfg, Run(cfg, es), now, rs)
    ensures Get(cfg, Run(cfg, es), name, now) == FirstMatch(rs, name)
  {
    var st := Run(cfg, es);
    RunValid(cfg, es);
    AliasesStayIndexed(cfg, es);
    assert NoClash(st) by { assert es[..|es|] == es; }
    FirstMatchFacts(rs, name);
    match FirstMatch(rs, name) {
      case Some(r) =>
        GetFindsTheMatch(cfg, st, name, now, r);
      case None =>
        var g := Get(cfg, st, name, now);
        if g.Some? {
          GetFindsTheMatch(cfg, st, name, now, g.value);
        }
    }
  }

  // ----- announcements -----

  function ServiceValue(svc: Service): string {
    svc.addr + ":" + PrintInt(svc.port)
  }

  function ServiceMap(svcs: seq<Service>): map<string, string> {
    if svcs == [] then map[]
    else ServiceMap(svcs[..|svcs| - 1])[svcs[|svcs| - 1].name := ServiceValue(svcs[|svcs| - 1])]
  }

  /** `base` extended by those of `more` it does not contain yet, in order. */
  function AddNew(base: seq<string>, more: seq<string>): seq<string> {
    if more == [] then base
    else
      var b := AddNew(base, more[..|more| - 1]);
      var last := more[|more| - 1];
      if last in b then b else b + [last]
  }

  function AllAliases(svcs: seq<Service>): seq<string> {
    if svcs == [] then [] else AddNew(AllAliases(svcs[..|svcs| - 1]), Contents(svcs[|svcs| - 1].aliases))
  }

  function AnnouncedRecord(msg: Message): Record {
    var svcs := Contents(msg.services);
    Record(msg.hostname, msg.machineId, AllAliases(svcs), Contents(msg.ips), msg.timestamp, 0, msg.ttl,
           ServiceMap(svcs), Healthy, false)
  }

  method BuildRecord(msg: Message) returns (r: Record)
    ensures r == AnnouncedRecord(msg)
  {
    var services: map<string, string> := map[];
    var aliases: seq<string> := [];
    var seen: set<string> := {};
    var svcs := Contents(msg.services);
    for i := 0 to |svcs|
      invariant services == ServiceMap(svcs[..i])
      invariant aliases == AllAliases(svcs[..i])
      invariant forall a :: a in seen <==> a in aliases
    {
      var svc := svcs[i];
      assert svcs[..i + 1][..i] == svcs[..i];
      services := services[svc.name := svc.addr + ":" + PrintInt(svc.port)];
      aliases, seen := AppendNew(aliases, seen, Contents(svc.aliases));
    }
    assert svcs[..|svcs|] == svcs;
    r := Record(msg.hostname, msg.machineId, aliases, Contents(msg.ips),
                msg.timestamp, 0, msg.ttl, services, Healthy, false);
  }

  /** The inner loop: appends the aliases that were not seen before. */
  method AppendNew(base: seq<string>, known: set<string>, more: seq<string>)
      returns (aliases: seq<string>, seen: set<string>)
    requires forall a :: a in known <==> a in base
    ensures aliases == AddNew(base, more)
    ensures forall a :: a in seen <==> a in aliases
  {
    aliases, seen := base, known;
    for j := 0 to |more|
      invariant aliases == AddNew(base, more[..j])
      invariant forall a :: a in seen <==> a in aliases
    {
      assert more[..j + 1][..j] == more[..j];
      if more[j] !in seen {
        aliases := aliases + [more[j]];
        seen := seen + {more[j]};
      }
    }
    assert more[..|more|] == more;
  }

  ghost predicate NoDuplicates(s: seq<string>) {
    forall i, j :: 0 <= i < j < |s| ==> s[i] != s[j]
  }

  lemma {:induction false} AddNewFacts(base: seq<string>, more: seq<string>)
    requires NoDuplicates(base)
    ensures NoDuplicates(AddNew(base, more))
    ensures forall a :: a in AddNew(base, more) <==> a in base || a in more
  {
    if more != [] {
      var front, last := more[..|more| - 1], more[|more| - 1];
      assert more == front + [last];
      AddNewFacts(base, front);
    }
  }

  /** A record lists each alias of the announcement's services once, and nothing else. */
  lemma {:induction false} AllAliasesFacts(svcs: seq<Service>)
    ensures NoDuplicates(AllAliases(svcs))
    ensures forall a :: a in AllAliases(svcs) <==> exists k :: 0 <= k < |svcs| && a in Contents(svcs[k].aliases)
  {
    if svcs != [] {
      var front, last := svcs[..|svcs| - 1], svcs[|svcs| - 1];
      AllAliasesFacts(front);
      AddNewFacts(AllAliases(front), Contents(last.aliases));
      forall a | a in AllAliases(svcs)
        ensures exists k :: 0 <= k < |svcs| && a in Contents(svcs[k].aliases)
      {
        if a in Contents(last.aliases) {
          assert a in Contents(svcs[|svcs| - 1].aliases);
        } else {
          var k :| 0 <= k < |front| && a in Contents(front[k].aliases);
          assert a in Contents(svcs[k].aliases);
        }
      }
      forall a, k | 0 <= k < |svcs| && a in Contents(svcs[k].aliases)
        ensures a in AllAliases(svcs)
      {
        if k < |front| {
          assert a in Contents(front[k].aliases);
        }
      }
    }
  }
}
