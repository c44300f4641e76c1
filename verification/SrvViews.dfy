/**
 * The DNS answers to SRV queries (handleSRVQuery in internal/dns/server.go), from the announcement of a
 * service on another host to the port a client is told.
 */
module SrvViews {
  import opened Common
  import opened Decimal
  import opened Records
  import opened StoreRuns
  import opened AliasHistory
  import opened Announcement
  import opened DnsViews
  import SignedPayload

  // ----- stored services -----

  function LastIndexOf(s: string, c: char): (i: int)
    ensures -1 <= i < |s|
    ensures i >= 0 ==> s[i] == c
    ensures forall k :: i < k < |s| ==> s[k] != c
  {
    if s == [] then -1
    else if s[|s| - 1] == c then |s| - 1
    else LastIndexOf(s[..|s| - 1], c)
  }

  function IndexOf(s: string, c: char): (i: int)
    ensures -1 <= i < |s|
    ensures i >= 0 ==> s[i] == c && c !in s[..i]
    ensures i < 0 ==> c !in s
  {
    if s == [] then -1
    else if s[0] == c then 0
    else
      var i := IndexOf(s[1..], c);
      if i < 0 then -1 else assert s[..i + 1] == [s[0]] + s[1..][..i]; i + 1
  }

  /** Go's `net.SplitHostPort`, reduced to what the caller uses: the port, or an error. */
  function SplitPort(s: string): Option<string> {
    var i := LastIndexOf(s, ':');
    if i < 0 then None
    else if s[0] == '[' then
      var end := IndexOf(s, ']');
      if end < 0 || end + 1 != i then None
      else if '[' in s[1..] || ']' in s[end + 1..] then None
      else Some(s[i + 1..])
    else if ':' in s[..i] || '[' in s || ']' in s then None
    else Some(s[i + 1..])
  }

  datatype DnsService = DnsService(port: int, protocol: string)

  /** How `GetAllRecords` reads one stored service value. */
  function ReadService(value: string): DnsService {
    match SplitPort(value)
    case None => DnsService(0, value)
    case Some(port) => DnsService(Atoi(port), "tcp")
  }

  datatype SrvRecord = SrvRecord(ttl: int, priority: int, weight: int, port: int, target: string)

  function SrvAnswer(dns: DnsConfig, r: Record, svc: DnsService): SrvRecord {
    SrvRecord(GetTTL(dns, r.status) % TWO_32, 10, 60, svc.port % TWO_16, r.hostname + "." + dns.domain + ".")
  }

  /** The answers one record contributes: at most one, as service names are map keys. */
  function SrvFor(dns: DnsConfig, r: Record, service: string, proto: string): seq<SrvRecord> {
    if service in r.services && ReadService(r.services[service]).protocol == proto
    then [SrvAnswer(dns, r, ReadService(r.services[service]))]
    else []
  }

  function SrvAnswers(dns: DnsConfig, rs: seq<Record>, service: string, proto: string): seq<SrvRecord> {
    if rs == [] then []
    else SrvAnswers(dns, rs[..|rs| - 1], service, proto) + SrvFor(dns, rs[|rs| - 1], service, proto)
  }

  // ----- query names -----

  /** Go's `strings.Split` at dots. */
  function Split(s: string): (parts: seq<string>)
    ensures parts != []
  {
    if s == [] then [[]]
    else
      var rest := Split(s[1..]);
      if s[0] == '.' then [[]] + rest else [[s[0]] + rest[0]] + rest[1..]
  }

  /** Go's `strings.Join` with dots. */
  function Join(parts: seq<string>): string {
    if parts == [] then ""
    else if |parts| == 1 then parts[0]
    else parts[0] + "." + Join(parts[1..])
  }

  function TrimDot(s: string): string {
    if s != "" && s[|s| - 1] == '.' then s[..|s| - 1] else s
  }

  function TrimUnderscore(s: string): string {
    if s != "" && s[0] == '_' then s[1..] else s
  }

  /** The service and protocol a query asks for, if it is for this domain. */
  function ParseSrvName(qname: string, dns: DnsConfig): Option<(string, string)> {
    var parts := Split(TrimDot(qname));
    if |parts| < 3 then None
    else if Join(parts[2..]) + "." != dns.domain + "." then None
    else Some((TrimUnderscore(parts[0]), TrimUnderscore(parts[1])))
  }

  lemma {:induction false} JoinSplit(s: string)
    ensures Join(Split(s)) == s
    ensures forall p :: p in Split(s) ==> '.' !in p
  {
    if s != [] {
      var rest := Split(s[1..]);
      JoinSplit(s[1..]);
      JoinHead(rest, s[0]);
      assert s == [s[0]] + s[1..];
    }
  }

  lemma JoinCons(a: string, rest: seq<string>)
    requires rest != []
    ensures Join([a] + rest) == a + "." + Join(rest)
  {
    assert ([a] + rest)[1..] == rest;
  }

  lemma Grouped(c: char, a: string, b: string)
    ensures ([c] + a) + "." + b == [c] + (a + "." + b)
  {
  }

  lemma JoinHead(rest: seq<string>, c: char)
    requires rest != []
    ensures Join([[]] + rest) == "." + Join(rest)
    ensures Join([[c] + rest[0]] + rest[1..]) == [c] + Join(rest)
  {
    JoinCons([], rest);
    var more := rest[1..];
    if more == [] {
      assert [[c] + rest[0]] + more == [[c] + rest[0]];
    } else {
      JoinCons([c] + rest[0], more);
      Grouped(c, rest[0], Join(more));
    }
  }

  lemma {:induction false} SplitCons(a: string, rest: string)
    requires '.' !in a
    ensures Split(a + "." + rest) == [a] + Split(rest)
  {
    var s := a + "." + rest;
    if a == [] {
      assert s[1..] == rest;
    } else {
      SplitCons(a[1..], rest);
      assert s[1..] == a[1..] + "." + rest;
      assert a == [a[0]] + a[1..];
      assert ([a[1..]] + Split(rest))[1..] == Split(rest);
    }
  }

  lemma SplitThree(a: string, b: string, rest: string)
    requires '.' !in a && '.' !in b
    ensures Split(a + "." + b + "." + rest) == [a, b] + Split(rest)
  {
    SplitCons(b, rest);
    SplitCons(a, b + "." + rest);
    DotGroups(a, b, rest);
    assert [a] + ([b] + Split(rest)) == [a, b] + Split(rest);
  }

  lemma DotGroups(a: string, b: string, c: string)
    ensures a + "." + b + "." + c == a + "." + (b + "." + c)
  {
  }

  /** The name, with or without its final dot, is `a.b.domain`. */
  predicate NamesDomain(qname: string, a: string, b: string, dns: DnsConfig) {
    '.' !in a && '.' !in b && TrimDot(qname) == a + "." + b + "." + dns.domain
  }

  lemma ParseNamed(qname: string, a: string, b: string, dns: DnsConfig)
    requires NamesDomain(qname, a, b, dns)
    ensures ParseSrvName(qname, dns) == Some((TrimUnderscore(a), TrimUnderscore(b)))
  {
    SplitThree(a, b, dns.domain);
    JoinSplit(dns.domain);
    assert ([a, b] + Split(dns.domain))[2..] == Split(dns.domain);
  }

  lemma SameBeforeDot(a: string, b: string)
    requires a + "." == b + "."
    ensures a == b
  {
    assert (a + ".")[..|a|] == a && (b + ".")[..|b|] == b;
  }

  lemma ThreeParts(parts: seq<string>)
    requires |parts| >= 3
    ensures Join(parts) == parts[0] + "." + parts[1] + "." + Join(parts[2..])
  {
    assert parts[1..][1..] == parts[2..];
    DotGroups(parts[0], parts[1], Join(parts[2..]));
  }

  /** Exactly which queries are answered, and for what. */
  lemma SrvNameExactly(qname: string, dns: DnsConfig, service: string, proto: string)
    ensures ParseSrvName(qname, dns) == Some((service, proto)) <==>
            exists a, b :: NamesDomain(qname, a, b, dns) && TrimUnderscore(a) == service && TrimUnderscore(b) == proto
  {
    if ParseSrvName(qname, dns) == Some((service, proto)) {
      var parts := Split(TrimDot(qname));
      JoinSplit(TrimDot(qname));
      ThreeParts(parts);
      SameBeforeDot(Join(parts[2..]), dns.domain);
      assert NamesDomain(qname, parts[0], parts[1], dns);
    }
    if a, b :| NamesDomain(qname, a, b, dns) && TrimUnderscore(a) == service && TrimUnderscore(b) == proto {
      ParseNamed(qname, a, b, dns);
    }
  }

  /** The name of section "The format of the SRV RR" of RFC 2782. */
  function SrvName(service: string, proto: string, dns: DnsConfig): string {
    "_" + service + "." + "_" + proto + "." + dns.domain + "."
  }

  lemma SrvNameRoundTrip(service: string, proto: string, dns: DnsConfig)
    requires '.' !in service && '.' !in proto
    ensures ParseSrvName(SrvName(service, proto, dns), dns) == Some((service, proto))
  {
    var a, b := "_" + service, "_" + proto;
    assert TrimDot(SrvName(service, proto, dns)) == a + "." + b + "." + dns.domain;
    ParseNamed(SrvName(service, proto, dns), a, b, dns);
  }

  // ----- the handler -----

  /** The answers to a query over the listed records. */
  function Response(qname: string, dns: DnsConfig, rs: seq<Record>): seq<SrvRecord> {
    match ParseSrvName(qname, dns)
    case None => []
    case Some((service, proto)) => SrvAnswers(dns, rs, service, proto)
  }

  method HandleSRVQuery(qname: string, dns: DnsConfig, rs: seq<Record>) returns (answers: seq<SrvRecord>)
    ensures answers == Response(qname, dns, rs)
  {
    var parts := Split(TrimDot(qname));
    if |parts| < 3 {
      return [];
    }
    var service := TrimUnderscore(parts[0]);
    var proto := TrimUnderscore(parts[1]);
    if Join(parts[2..]) + "." != dns.domain + "." {
      return [];
    }
    answers := ScanServices(dns, rs, service, proto);
  }

  /** The two loops of the handler; services come out of their map in any order. */
  method ScanServices(dns: DnsConfig, rs: seq<Record>, service: string, proto: string) returns (answers: seq<SrvRecord>)
    ensures answers == SrvAnswers(dns, rs, service, proto)
  {
    answers := [];
    for i := 0 to |rs|
      invariant answers == SrvAnswers(dns, rs[..i], service, proto)
    {
      assert rs[..i + 1][..i] == rs[..i];
      ghost var before := answers;
      var todo := rs[i].services.Keys;
      while todo != {}
        invariant todo <= rs[i].services.Keys
        invariant answers == before + if service in todo then [] else SrvFor(dns, rs[i], service, proto)
        decreases todo
      {
        var name :| name in todo;
        todo := todo - {name};
        var svc := ReadService(rs[i].services[name]);
        if name == service && svc.protocol == proto {
          answers := answers + [SrvAnswer(dns, rs[i], svc)];
        }
      }
    }
    assert rs[..|rs|] == rs;
  }

  // ----- announced ports -----

  /** Free of the characters `net.SplitHostPort` treats specially. */
  predicate PlainAddr(addr: string) {
    ':' !in addr && '[' !in addr && ']' !in addr
  }

  lemma PrintedPortIsPlain(n: int)
    ensures PlainAddr(PrintInt(n))
  {
    var s := PrintNat(if n < 0 then -n else n);
    assert forall c :: c in s ==> IsDigit(c);
  }

  /** One bracketed group and no other bracket. */
  predicate Bracketed(addr: string) {
    && |addr| >= 2 && addr[0] == '[' && addr[|addr| - 1] == ']'
    && '[' !in addr[1..] && ']' !in addr[..|addr| - 1]
  }

  /** The address can be told from the port behind it. */
  predicate Separable(addr: string) {
    PlainAddr(addr) || Bracketed(addr)
  }

  lemma ColonSlices(addr: string, port: string)
    ensures var s := addr + ":" + port;
            s[|addr|] == ':' && s[|addr| + 1..] == port && s[..|addr|] == addr
  {
  }

  lemma LastIndexIs(s: string, c: char, i: nat)
    requires i < |s| && s[i] == c && c !in s[i + 1..]
    ensures LastIndexOf(s, c) == i
  {
    var tail := s[i + 1..];
    assert forall k :: i < k < |s| ==> s[k] == tail[k - i - 1];
  }

  lemma LastColon(addr: string, port: string)
    requires ':' !in port
    ensures LastIndexOf(addr + ":" + port, ':') == |addr|
    ensures (addr + ":" + port)[|addr| + 1..] == port && (addr + ":" + port)[..|addr|] == addr
  {
    ColonSlices(addr, port);
    LastIndexIs(addr + ":" + port, ':', |addr|);
  }

  lemma SplitOpen(addr: string, port: string)
    requires PlainAddr(port) && (addr == "" || addr[0] != '[')
    ensures SplitPort(addr + ":" + port) == if PlainAddr(addr) then Some(port) else None
  {
    LastColon(addr, port);
    var s := addr + ":" + port;
    assert forall c :: c in s <==> c in addr || c == ':' || c in port;
  }

  lemma FirstBracketEnd(addr: string, port: string)
    requires ']' !in port && addr != ""
    ensures IndexOf(addr + ":" + port, ']') == |addr| - 1 <==> addr[|addr| - 1] == ']' && ']' !in addr[..|addr| - 1]
  {
    var s := addr + ":" + port;
    var end := IndexOf(s, ']');
    assert s[|addr| - 1] == addr[|addr| - 1] && s[..|addr| - 1] == addr[..|addr| - 1];
    if addr[|addr| - 1] == ']' && ']' !in addr[..|addr| - 1] {
      assert end >= 0 by { assert s[|addr| - 1] in s; }
    }
  }

  lemma SplitBracketed(addr: string, port: string)
    requires PlainAddr(port) && addr != "" && addr[0] == '['
    ensures SplitPort(addr + ":" + port) == if Bracketed(addr) then Some(port) else None
  {
    LastColon(addr, port);
    FirstBracketEnd(addr, port);
    var s := addr + ":" + port;
    assert s[1..] == addr[1..] + ":" + port && s[|addr|..] == ":" + port;
    assert '[' in s[1..] <==> '[' in addr[1..];
    assert ']' !in s[|addr|..];
  }

  /** Exactly the services whose address is plain or one bracketed group keep their port through printing,
      splitting and parsing; any other value is read as a protocol name without a port. */
  lemma ReadPrinted(svc: Service)
    ensures ReadService(ServiceValue(svc)) ==
            if Separable(svc.addr) then DnsService(svc.port, "tcp") else DnsService(0, ServiceValue(svc))
    ensures ReadService(ServiceValue(svc)) == DnsService(svc.port, "tcp") <==> Separable(svc.addr)
  {
    var port := PrintInt(svc.port);
    PrintedPortIsPlain(svc.port);
    AtoiPrintInt(svc.port);
    ValueIsNoProtocol(svc);
    if svc.addr == "" || svc.addr[0] != '[' {
      SplitOpen(svc.addr, port);
    } else {
      SplitBracketed(svc.addr, port);
    }
  }

  lemma ValueIsNoProtocol(svc: Service)
    ensures ServiceValue(svc) != "tcp"
  {
    assert ServiceValue(svc)[|svc.addr|] == ':';
  }

  /** Index of the last-listed service of that name, or -1. */
  function LastListed(svcs: seq<Service>, name: string): (i: int)
    ensures -1 <= i < |svcs|
    ensures i >= 0 ==> svcs[i].name == name
    ensures forall k :: i < k < |svcs| ==> svcs[k].name != name
  {
    if svcs == [] then -1
    else if svcs[|svcs| - 1].name == name then |svcs| - 1
    else LastListed(svcs[..|svcs| - 1], name)
  }

  lemma {:induction false} ServiceMapHoldsLast(svcs: seq<Service>, name: string)
    ensures name in ServiceMap(svcs) <==> LastListed(svcs, name) >= 0
    ensures name in ServiceMap(svcs) ==> ServiceMap(svcs)[name] == ServiceValue(svcs[LastListed(svcs, name)])
  {
    if svcs != [] {
      ServiceMapHoldsLast(svcs[..|svcs| - 1], name);
    }
  }

  function Target(h: string, dns: DnsConfig): string {
    h + "." + dns.domain + "."
  }

  /** What one stored record that stands on an announcement contributes. */
  lemma RecordCarriesPort(cfg: Config, dns: DnsConfig, es: seq<Timed>, h: string, i: nat, msg: Message, service: string)
    requires StandsOn(cfg, es, h, i) && es[i].event.record == AnnouncedRecord(msg)
    ensures h in Run(cfg, es).records && Run(cfg, es).records[h].hostname == h
    ensures var mine := SrvFor(dns, Run(cfg, es).records[h], service, "tcp");
            match LastPort(msg, service)
            case None => mine == []
            case Some(port) => mine == [AnswerFor(dns, h, Run(cfg, es).records[h].status, port)]
  {
    RecordsRefineHistory(cfg, es);
    assert RecordMatches(cfg, es, Run(cfg, es), h);
    var svcs := Contents(msg.services);
    ServiceMapHoldsLast(svcs, service);
    var last := LastListed(svcs, service);
    if last >= 0 {
      ReadPrinted(svcs[last]);
      ValueIsNoProtocol(svcs[last]);
    }
  }

  lemma {:induction false} SrvAnswersConcat(dns: DnsConfig, a: seq<Record>, b: seq<Record>, service: string,
                                            proto: string)
    ensures SrvAnswers(dns, a + b, service, proto) ==
            SrvAnswers(dns, a, service, proto) + SrvAnswers(dns, b, service, proto)
  {
    if b == [] {
      assert a + b == a;
    } else {
      var front, last := b[..|b| - 1], b[|b| - 1];
      assert b == front + [last] && a + b == (a + front) + [last];
      SrvAnswersConcat(dns, a, front, service, proto);
      SrvAnswersSnoc(dns, a + front, last, service, proto);
      SrvAnswersSnoc(dns, front, last, service, proto);
    }
  }

  lemma SrvAnswersSnoc(dns: DnsConfig, rs: seq<Record>, r: Record, service: string, proto: string)
    ensures SrvAnswers(dns, rs + [r], service, proto) ==
            SrvAnswers(dns, rs, service, proto) + SrvFor(dns, r, service, proto)
  {
    assert (rs + [r])[..|rs|] == rs;
  }

  /** The answers are those of the records before one of them, its own, and those of the others. */
  lemma SrvAnswersAround(dns: DnsConfig, rs: seq<Record>, k: nat, service: string, proto: string)
    requires k < |rs|
    ensures SrvAnswers(dns, rs, service, proto) ==
            SrvAnswers(dns, rs[..k], service, proto) + SrvFor(dns, rs[k], service, proto)
            + SrvAnswers(dns, rs[k + 1..], service, proto)
  {
    assert rs == rs[..k + 1] + rs[k + 1..] && rs[..k + 1][..k] == rs[..k];
    SrvAnswersConcat(dns, rs[..k + 1], rs[k + 1..], service, proto);
  }

  predicate NoneFor(answers: seq<SrvRecord>, target: string) {
    forall k :: 0 <= k < |answers| ==> answers[k].target != target
  }

  lemma TargetInjective(g: string, h: string, dns: DnsConfig)
    requires Target(g, dns) == Target(h, dns)
    ensures g == h
  {
    QueryNameInjective(dns);
    assert QueryName(g, dns) == Target(g, dns) && QueryName(h, dns) == Target(h, dns);
  }

  lemma {:induction false} OthersDoNotAnswer(dns: DnsConfig, rs: seq<Record>, h: string, service: string, proto: string)
    requires forall r :: r in rs ==> r.hostname != h
    ensures NoneFor(SrvAnswers(dns, rs, service, proto), Target(h, dns))
  {
    if rs != [] {
      var front, last := rs[..|rs| - 1], rs[|rs| - 1];
      OthersDoNotAnswer(dns, front, h, service, proto);
      if Target(last.hostname, dns) == Target(h, dns) {
        TargetInjective(last.hostname, h, dns);
      }
    }
  }

  /** The one answer for a host: priority 10, weight 60, and the time to live of its status in 32 bits. */
  function AnswerFor(dns: DnsConfig, h: string, status: Status, port: int): SrvRecord {
    SrvRecord((if status == Stale then dns.ttlStale else dns.ttlHealthy) % 0x1_0000_0000, 10, 60, port, Target(h, dns))
  }

  /** Exactly one answer has the target, and it is this one. */
  ghost predicate OneFor(answers: seq<SrvRecord>, answer: SrvRecord) {
    exists k :: 0 <= k < |answers| && OnlyFor(answers, answer.target, k) && answers[k] == answer
  }

  predicate OnlyFor(answers: seq<SrvRecord>, target: string, k: nat) {
    k < |answers| && forall j :: 0 <= j < |answers| ==> (answers[j].target == target <==> j == k)
  }

  lemma OneBetween(before: seq<SrvRecord>, mine: SrvRecord, after: seq<SrvRecord>, target: string)
    requires NoneFor(before, target) && NoneFor(after, target) && mine.target == target
    ensures OneFor(before + [mine] + after, mine)
  {
    assert OnlyFor(before + [mine] + after, target, |before|);
  }

  /** The port the response carries for a service of the message: that of its last listing, in 16 bits,
      unless the address there cannot be told from the port. */
  function LastPort(msg: Message, service: string): Option<int> {
    var svcs := Contents(msg.services);
    var last := LastListed(svcs, service);
    if last < 0 || !Separable(svcs[last].addr) then None else Some(svcs[last].port % TWO_16)
  }

  /** The response to a query for a service.  Over every listing of the visible records a visible host that
      stands on an announcement has exactly one answer, with the port of the last-listed service of that
      name; it has none if it did not announce the service or its address hides the port, and a host that
      is no longer visible has none at all. */
  lemma SrvCarriesAnnouncedPort(cfg: Config, dns: DnsConfig, es: seq<Timed>, h: string, i: nat, msg: Message,
                                service: string, rs: seq<Record>, now: int)
    requires StandsOn(cfg, es, h, i) && es[i].event.record == AnnouncedRecord(msg)
    requires ListsVisible(cfg, Run(cfg, es), now, rs) && '.' !in service
    ensures h in Run(cfg, es).records
    ensures var answers := Response(SrvName(service, "tcp", dns), dns, rs);
            if Visible(cfg, Run(cfg, es).records[h], now) && LastPort(msg, service).Some?
            then OneFor(answers, AnswerFor(dns, h, Run(cfg, es).records[h].status, LastPort(msg, service).value))
            else NoneFor(answers, Target(h, dns))
  {
    RecordCarriesPort(cfg, dns, es, h, i, msg, service);
    SrvNameRoundTrip(service, "tcp", dns);
    var r := Run(cfg, es).records[h];
    if Visible(cfg, r, now) {
      AnswersAround(cfg, dns, Run(cfg, es), rs, r, service, now);
    } else {
      OthersDoNotAnswer(dns, rs, h, service, "tcp");
    }
  }

  /** In a listing, a visible record's answers are the only ones with its target. */
  lemma AnswersAround(cfg: Config, dns: DnsConfig, st: Store, rs: seq<Record>, r: Record, service: string, now: int)
    requires ListsVisible(cfg, st, now, rs)
    requires r.hostname in st.records && st.records[r.hostname] == r && Visible(cfg, r, now)
    ensures var mine := SrvFor(dns, r, service, "tcp");
            var answers := SrvAnswers(dns, rs, service, "tcp");
            if mine == [] then NoneFor(answers, Target(r.hostname, dns))
            else OneFor(answers, mine[0])
  {
    var k :| 0 <= k < |rs| && rs[k] == r;
    SrvAnswersAround(dns, rs, k, service, "tcp");
    OthersDoNotAnswer(dns, rs[..k], r.hostname, service, "tcp");
    OthersDoNotAnswer(dns, rs[k + 1..], r.hostname, service, "tcp");
    var mine := SrvFor(dns, r, service, "tcp");
    if mine != [] {
      assert mine == [mine[0]];
      OneBetween(SrvAnswers(dns, rs[..k], service, "tcp"), mine[0], SrvAnswers(dns, rs[k + 1..], service, "tcp"),
                 Target(r.hostname, dns));
    }
  }

  /** Every visible host contributes its answer, and nothing else is answered. */
  lemma {:induction false} SrvAnswersComplete(dns: DnsConfig, rs: seq<Record>, service: string, proto: string)
    ensures forall a :: a in SrvAnswers(dns, rs, service, proto) <==>
              exists k :: 0 <= k < |rs| && a in SrvFor(dns, rs[k], service, proto)
  {
    if rs != [] {
      var front, last := rs[..|rs| - 1], rs[|rs| - 1];
      SrvAnswersComplete(dns, front, service, proto);
      forall a | a in SrvAnswers(dns, rs, service, proto)
        ensures exists k :: 0 <= k < |rs| && a in SrvFor(dns, rs[k], service, proto)
      {
        if a in SrvFor(dns, last, service, proto) {
          assert a in SrvFor(dns, rs[|rs| - 1], service, proto);
        } else {
          assert a in SrvAnswers(dns, front, service, proto);
          var k :| 0 <= k < |front| && a in SrvFor(dns, front[k], service, proto);
          assert a in SrvFor(dns, rs[k], service, proto);
        }
      }
      forall a, k | 0 <= k < |rs| && a in SrvFor(dns, rs[k], service, proto)
        ensures a in SrvAnswers(dns, rs, service, proto)
      {
        if k < |front| {
          assert a in SrvFor(dns, front[k], service, proto);
        }
      }
    }
  }

  // ----- over the wire -----

  lemma {:induction false} SameServicesSameRecord(a: seq<Service>, b: seq<Service>)
    requires |a| == |b|
    requires forall k :: 0 <= k < |a| ==> a[k].(aliases := Nil) == b[k].(aliases := Nil)
    requires forall k :: 0 <= k < |a| ==> Contents(a[k].aliases) == Contents(b[k].aliases)
    ensures ServiceMap(a) == ServiceMap(b) && AllAliases(a) == AllAliases(b)
  {
    if a != [] {
      SameServicesSameRecord(a[..|a| - 1], b[..|b| - 1]);
      var x, y := a[|a| - 1], b[|b| - 1];
      assert x.name == x.(aliases := Nil).name &&
             x.port == x.(aliases := Nil).port && x.addr == x.(aliases := Nil).addr;
    }
  }

  /** A receiver files the record the sender would have filed for its own message: encoding and decoding
      lose nothing that the store keeps. */
  lemma WireKeepsRecord(m: Message)
    ensures SignedPayload.Unmarshal(SignedPayload.Marshal(m)).Some?
    ensures AnnouncedRecord(SignedPayload.Unmarshal(SignedPayload.Marshal(m)).value) == AnnouncedRecord(m)
  {
    SignedPayload.UnmarshalMarshal(m);
    var svcs := Contents(m.services);
    SameServicesSameRecord(Contents(SignedPayload.NormalMessage(m).services), svcs);
  }

  lemma PortReachesQuery(cfg: Config, dns: DnsConfig, es: seq<Timed>, i: nat, m: Message, s: Service, rs: seq<Record>,
                         now: int)
    requires StandsOn(cfg, es, m.hostname, i) && es[i].event.record == AnnouncedRecord(m)
    requires Offers(m, s) && ListsVisible(cfg, Run(cfg, es), now, rs)
    requires m.hostname in Run(cfg, es).records && Visible(cfg, Run(cfg, es).records[m.hostname], now)
    ensures OneFor(Response(SrvName(s.name, "tcp", dns), dns, rs),
                   AnswerFor(dns, m.hostname, Run(cfg, es).records[m.hostname].status, s.port))
  {
    OfferedPort(m, s);
    SrvCarriesAnnouncedPort(cfg, dns, es, m.hostname, i, m, s.name, rs, now);
  }

  lemma OfferedPort(m: Message, s: Service)
    requires Offers(m, s)
    ensures LastPort(m, s.name) == Some(s.port)
  {
    LastListedUnique(Contents(m.services), s);
  }

  /** The message lists the service, each name once, with a separable address and a port of 16 bits. */
  predicate Offers(m: Message, s: Service) {
    var svcs := Contents(m.services);
    && s in svcs && '.' !in s.name && Separable(s.addr) && 0 <= s.port < TWO_16
    && (forall a, b :: a in svcs && b in svcs && a.name == b.name ==> a == b)
  }

  /** From one host's service map to a client of another host's DNS server: the message is encoded,
      decoded, filed and queried, and the client is told the announced port. */
  lemma PortReachesClient(cfg: Config, dns: DnsConfig, es: seq<Timed>, i: nat, m: Message, got: Message, s: Service,
                          rs: seq<Record>, now: int)
    requires SignedPayload.Unmarshal(SignedPayload.Marshal(m)) == Some(got)
    requires StandsOn(cfg, es, m.hostname, i) && es[i].event.record == AnnouncedRecord(got)
    requires Offers(m, s) && ListsVisible(cfg, Run(cfg, es), now, rs)
    requires m.hostname in Run(cfg, es).records && Visible(cfg, Run(cfg, es).records[m.hostname], now)
    ensures OneFor(Response(SrvName(s.name, "tcp", dns), dns, rs),
                   AnswerFor(dns, m.hostname, Run(cfg, es).records[m.hostname].status, s.port))
  {
    WireKeepsRecord(m);
    PortReachesQuery(cfg, dns, es, i, m, s, rs, now);
  }

  lemma LastListedUnique(svcs: seq<Service>, s: Service)
    requires s in svcs && forall a, b :: a in svcs && b in svcs && a.name == b.name ==> a == b
    ensures LastListed(svcs, s.name) >= 0 && svcs[LastListed(svcs, s.name)] == s
  {
    var last := LastListed(svcs, s.name);
    var k :| 0 <= k < |svcs| && svcs[k] == s;
    assert last >= k;
    assert svcs[last] in svcs;
  }
}
