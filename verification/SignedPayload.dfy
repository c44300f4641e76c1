/**
 * The payload a sender signs against the payload a receiver rebuilds from the wire
 * (createAnnouncement and Listener.Start in internal/discovery/broadcast.go).
 *
 * Go distinguishes nil from empty slices, and `omitempty` drops both; JSON keeps null and [] apart.
 * The payloads must come out byte for byte equal all the same.
 */
module SignedPayload {
  import opened Common
  import opened Decimal
  import opened Json
  import opened Announcement

  // ----- encoding -----

  function Strings(ss: seq<string>): (r: seq<Value>)
    ensures |r| == |ss| && forall i :: 0 <= i < |r| ==> r[i] == Str(ss[i])
  {
    seq(|ss|, i requires 0 <= i < |ss| => Str(ss[i]))
  }

  function StringsValue(s: Slice<string>): Value {
    if s.Nil? then Null else Arr(Strings(s.elems))
  }

  function OmitEmpty(key: string, s: string): seq<Field> {
    if s == "" then [] else [Field(key, Str(s))]
  }

  function ServiceFields(s: Service): seq<Field> {
    [Field("name", Str(s.name)), Field("port", Num(s.port)), Field("addr", Str(s.addr))]
    + if Contents(s.aliases) == [] then [] else [Field("aliases", StringsValue(s.aliases))]
  }

  function ServicesOf(ss: seq<Service>): (r: seq<Value>)
    ensures |r| == |ss| && forall i :: 0 <= i < |r| ==> r[i] == Obj(ServiceFields(ss[i]))
  {
    seq(|ss|, i requires 0 <= i < |ss| => Obj(ServiceFields(ss[i])))
  }

  function ServicesValue(s: Slice<Service>): Value {
    if s.Nil? then Null else Arr(ServicesOf(s.elems))
  }

  function SecurityFields(ms: Gate.MessageSecurity): seq<Field> {
    OmitEmpty("signature", ms.signature) + OmitEmpty("signer", ms.signer) + OmitEmpty("nonce", ms.nonce)
    + [Field("timestamp", Num(ms.timestamp))]
  }

  /** The message as it goes on the wire. */
  function MessageFields(m: Message): seq<Field> {
    [ Field("type", Str(m.kind)), Field("message_id", Str(m.messageId)), Field("timestamp", Num(m.timestamp)),
      Field("hostname", Str(m.hostname)) ]
    + OmitEmpty("machine_id", m.machineId)
    + [Field("ips", StringsValue(m.ips)), Field("services", ServicesValue(m.services))]
    + (if m.signature.None? then [] else [Field("signature", Obj(SecurityFields(m.signature.value)))])
    + [Field("ttl", Num(m.ttl))]
  }

  /** The part that is signed: everything but the machine id and the signature. */
  function PayloadFields(m: Message): seq<Field> {
    [ Field("type", Str(m.kind)), Field("message_id", Str(m.messageId)), Field("timestamp", Num(m.timestamp)),
      Field("hostname", Str(m.hostname)), Field("ips", StringsValue(m.ips)),
      Field("services", ServicesValue(m.services)),
      Field("ttl", Num(m.ttl)) ]
  }

  function Marshal(m: Message): string {
    Write(Obj(MessageFields(m)))
  }

  function Payload(m: Message): string {
    Write(Obj(PayloadFields(m)))
  }

  // ----- decoding -----

  /** The value of the last field with that key. */
  function Lookup(fs: seq<Field>, key: string): Option<Value> {
    if fs == [] then None
    else if fs[|fs| - 1].key == key then Some(fs[|fs| - 1].value)
    else Lookup(fs[..|fs| - 1], key)
  }

  /** A missing or null field leaves the zero value; a value of another type is an error. */
  function GetString(v: Option<Value>): Option<string> {
    match v
    case None => Some("")
    case Some(Null) => Some("")
    case Some(Str(s)) => Some(s)
    case Some(_) => None
  }

  function GetInt(v: Option<Value>): Option<int> {
    match v
    case None => Some(0)
    case Some(Null) => Some(0)
    case Some(Num(n)) => Some(n)
    case Some(_) => None
  }

  function GetElems(vs: seq<Value>): Option<seq<string>> {
    if vs == [] then Some([])
    else
      var front, last := GetElems(vs[..|vs| - 1]), GetString(Some(vs[|vs| - 1]));
      if front.Some? && last.Some? then Some(front.value + [last.value]) else None
  }

  function GetStrings(v: Option<Value>): Option<Slice<string>> {
    match v
    case None => Some(Nil)
    case Some(Null) => Some(Nil)
    case Some(Arr(vs)) => (match GetElems(vs)
                           case None => None
                           case Some(ss) => Some(Elems(ss)))
    case Some(_) => None
  }

  function GetService(v: Value): Option<Service> {
    if !v.Obj? then None
    else
      var name, port := GetString(Lookup(v.fields, "name")), GetInt(Lookup(v.fields, "port"));
      var addr, aliases := GetString(Lookup(v.fields, "addr")), GetStrings(Lookup(v.fields, "aliases"));
      if name.Some? && port.Some? && addr.Some? && aliases.Some?
      then Some(Service(name.value, port.value, addr.value, aliases.value)) else None
  }

  function GetServiceElems(vs: seq<Value>): Option<seq<Service>> {
    if vs == [] then Some([])
    else
      var front, last := GetServiceElems(vs[..|vs| - 1]), GetService(vs[|vs| - 1]);
      if front.Some? && last.Some? then Some(front.value + [last.value]) else None
  }

  function GetServices(v: Option<Value>): Option<Slice<Service>> {
    match v
    case None => Some(Nil)
    case Some(Null) => Some(Nil)
    case Some(Arr(vs)) => (match GetServiceElems(vs)
                           case None => None
                           case Some(ss) => Some(Elems(ss)))
    case Some(_) => None
  }

  function GetSecurity(v: Option<Value>): Option<Option<Gate.MessageSecurity>> {
    match v
    case None => Some(None)
    case Some(Null) => Some(None)
    case Some(Obj(fs)) =>
      var sig, signer := GetString(Lookup(fs, "signature")), GetString(Lookup(fs, "signer"));
      var nonce, ts := GetString(Lookup(fs, "nonce")), GetInt(Lookup(fs, "timestamp"));
      if sig.Some? && signer.Some? && nonce.Some? && ts.Some?
      then Some(Some(Gate.MessageSecurity(sig.value, signer.value, nonce.value, ts.value))) else None
    case Some(_) => None
  }

  function GetMessage(fs: seq<Field>): Option<Message> {
    var kind, id := GetString(Lookup(fs, "type")), GetString(Lookup(fs, "message_id"));
    var ts, host := GetInt(Lookup(fs, "timestamp")), GetString(Lookup(fs, "hostname"));
    var machine, ips := GetString(Lookup(fs, "machine_id")), GetStrings(Lookup(fs, "ips"));
    var svcs, sig, ttl := GetServices(Lookup(fs, "services")),
                          GetSecurity(Lookup(fs, "signature")), GetInt(Lookup(fs, "ttl"));
    if kind.Some? && id.Some? && ts.Some? && host.Some? && machine.Some? &&
       ips.Some? && svcs.Some? && sig.Some? && ttl.Some?
    then Some(Message(kind.value, id.value, ts.value, host.value,
                      machine.value, ips.value, svcs.value, sig.value, ttl.value))
    else None
  }

  function Unmarshal(text: string): Option<Message> {
    var r := Read(text);
    if r.Some? && r.value.0.Obj? && r.value.1 == [] then GetMessage(r.value.0.fields) else None
  }

  // ----- field lookup -----

  lemma {:induction false} LookupFound(fs: seq<Field>, i: nat)
    requires i < |fs| && forall j :: i < j < |fs| ==> fs[j].key != fs[i].key
    ensures Lookup(fs, fs[i].key) == Some(fs[i].value)
  {
    var n := |fs| - 1;
    if i < n {
      assert fs[..n][i] == fs[i];
      LookupFound(fs[..n], i);
    }
  }

  lemma {:induction false} LookupMissing(fs: seq<Field>, key: string)
    requires forall j :: 0 <= j < |fs| ==> fs[j].key != key
    ensures Lookup(fs, key) == None
  {
    if fs != [] {
      LookupMissing(fs[..|fs| - 1], key);
    }
  }

  lemma {:induction false} GetWrittenStrings(ss: seq<string>)
    ensures GetElems(Strings(ss)) == Some(ss)
  {
    if ss != [] {
      var n := |ss| - 1;
      assert Strings(ss)[..n] == Strings(ss[..n]);
      GetWrittenStrings(ss[..n]);
      assert ss == ss[..n] + [ss[n]];
    }
  }

  lemma GetWrittenSlice(s: Slice<string>)
    ensures GetStrings(Some(StringsValue(s))) == Some(s)
  {
    if s.Elems? {
      GetWrittenStrings(s.elems);
    }
  }

  // ----- services -----

  /** Decoding cannot tell an empty alias list from a missing one. */
  function Normal(s: Service): Service {
    if Contents(s.aliases) == [] then s.(aliases := Nil) else s
  }

  lemma ServiceRoundTrip(s: Service)
    ensures GetService(Obj(ServiceFields(s))) == Some(Normal(s))
  {
    ServiceLookups(s);
    ServiceAliases(s);
  }

  lemma ServiceLookups(s: Service)
    ensures var fs := ServiceFields(s);
            && Lookup(fs, "name") == Some(Str(s.name)) && Lookup(fs, "port") == Some(Num(s.port))
            && Lookup(fs, "addr") == Some(Str(s.addr))
  {
    var fs := ServiceFields(s);
    assert forall j :: 3 <= j < |fs| ==> fs[j].key == "aliases";
    LookupFound(fs, 0);
    LookupFound(fs, 1);
    LookupFound(fs, 2);
  }

  lemma ServiceAliases(s: Service)
    ensures GetStrings(Lookup(ServiceFields(s), "aliases")) == Some(Normal(s).aliases)
  {
    var fs := ServiceFields(s);
    if Contents(s.aliases) == [] {
      LookupMissing(fs, "aliases");
    } else {
      LookupFound(fs, 3);
      GetWrittenSlice(s.aliases);
    }
  }

  lemma NormalSameFields(s: Service)
    ensures ServiceFields(Normal(s)) == ServiceFields(s)
  {
  }

  function NormalAll(ss: seq<Service>): (r: seq<Service>)
    ensures |r| == |ss| && forall i :: 0 <= i < |r| ==> r[i] == Normal(ss[i])
  {
    seq(|ss|, i requires 0 <= i < |ss| => Normal(ss[i]))
  }

  lemma GetServicesSnoc(front: seq<Value>, last: Value, ss: seq<Service>, s: Service)
    requires GetServiceElems(front) == Some(ss) && GetService(last) == Some(s)
    ensures GetServiceElems(front + [last]) == Some(ss + [s])
  {
    assert (front + [last])[..|front|] == front;
  }

  lemma ServicesSnoc(front: seq<Service>, s: Service)
    ensures ServicesOf(front + [s]) == ServicesOf(front) + [Obj(ServiceFields(s))]
    ensures NormalAll(front + [s]) == NormalAll(front) + [Normal(s)]
  {
  }

  lemma GetWrittenNext(front: seq<Service>, s: Service)
    requires GetServiceElems(ServicesOf(front)) == Some(NormalAll(front))
    ensures GetServiceElems(ServicesOf(front + [s])) == Some(NormalAll(front + [s]))
  {
    ServiceRoundTrip(s);
    GetServicesSnoc(ServicesOf(front), Obj(ServiceFields(s)), NormalAll(front), Normal(s));
    ServicesSnoc(front, s);
  }

  lemma {:induction false} GetWrittenServices(ss: seq<Service>)
    ensures GetServiceElems(ServicesOf(ss)) == Some(NormalAll(ss))
  {
    if ss == [] {
      GetWrittenNone(ss);
    } else {
      var front, s := ss[..|ss| - 1], ss[|ss| - 1];
      assert ss == front + [s];
      GetWrittenServices(front);
      GetWrittenNext(front, s);
    }
  }

  lemma GetWrittenNone(ss: seq<Service>)
    requires ss == []
    ensures GetServiceElems(ServicesOf(ss)) == Some(NormalAll(ss))
  {
    assert ServicesOf(ss) == [] && NormalAll(ss) == [];
  }

  function NormalSlice(s: Slice<Service>): Slice<Service> {
    if s.Nil? then Nil else Elems(NormalAll(s.elems))
  }

  lemma ServicesRoundTrip(s: Slice<Service>)
    ensures GetServices(Some(ServicesValue(s))) == Some(NormalSlice(s))
    ensures ServicesValue(NormalSlice(s)) == ServicesValue(s)
  {
    if s.Elems? {
      GetWrittenServices(s.elems);
      forall i | 0 <= i < |s.elems| { NormalSameFields(s.elems[i]); }
      assert ServicesOf(NormalAll(s.elems)) == ServicesOf(s.elems);
    }
  }

  // ----- signatures -----

  lemma {:induction false} LookupConcat(a: seq<Field>, b: seq<Field>, key: string)
    ensures Lookup(a + b, key) == if Lookup(b, key).Some? then Lookup(b, key) else Lookup(a, key)
  {
    if b == [] {
      assert a + b == a;
    } else {
      assert (a + b)[..|a + b| - 1] == a + b[..|b| - 1];
      LookupConcat(a, b[..|b| - 1], key);
    }
  }

  lemma LookupOmitEmpty(key: string, s: string)
    ensures Lookup(OmitEmpty(key, s), key) == if s == "" then None else Some(Str(s))
  {
    if s == "" {
      LookupMissing([], key);
    } else {
      LookupFound(OmitEmpty(key, s), 0);
    }
  }

  lemma LookupOmitted(a: seq<Field>, key: string, s: string, b: seq<Field>)
    requires forall j :: 0 <= j < |a| ==> a[j].key != key
    requires forall j :: 0 <= j < |b| ==> b[j].key != key
    ensures GetString(Lookup(a + OmitEmpty(key, s) + b, key)) == Some(s)
  {
    LookupMissing(a, key);
    LookupMissing(b, key);
    LookupOmitEmpty(key, s);
    LookupConcat(a, OmitEmpty(key, s), key);
    LookupConcat(a + OmitEmpty(key, s), b, key);
  }

  lemma SecurityRoundTrip(ms: Gate.MessageSecurity)
    ensures GetSecurity(Some(Obj(SecurityFields(ms)))) == Some(Some(ms))
  {
    var a, b, c := OmitEmpty("signature", ms.signature), OmitEmpty("signer", ms.signer), OmitEmpty("nonce", ms.nonce);
    var d := [Field("timestamp", Num(ms.timestamp))];
    var fs := SecurityFields(ms);
    assert fs == a + b + c + d;
    assert fs == a + b + (c + d);
    assert fs == [] + a + (b + c + d);
    LookupOmitted([], "signature", ms.signature, b + c + d);
    LookupOmitted(a, "signer", ms.signer, c + d);
    LookupOmitted(a + b, "nonce", ms.nonce, d);
    LookupFound(fs, |fs| - 1);
  }

  // ----- messages -----

  function NormalMessage(m: Message): Message {
    m.(services := NormalSlice(m.services))
  }

  lemma NormalSamePayload(m: Message)
    ensures Payload(NormalMessage(m)) == Payload(m)
  {
    ServicesRoundTrip(m.services);
  }

  /** Position of each field, given which optional fields are present. */
  lemma FieldPositions(m: Message)
    ensures var fs := MessageFields(m);
            var o, p := if m.machineId == "" then 0 else 1, if m.signature.None? then 0 else 1;
            && |fs| == 7 + o + p
            && fs[0] == Field("type", Str(m.kind)) && fs[1] == Field("message_id", Str(m.messageId))
            && fs[2] == Field("timestamp", Num(m.timestamp)) && fs[3] == Field("hostname", Str(m.hostname))
            && (o == 1 ==> fs[4] == Field("machine_id", Str(m.machineId)))
            && fs[4 + o] == Field("ips", StringsValue(m.ips))
            && fs[5 + o] == Field("services", ServicesValue(m.services))
            && (p == 1 ==> fs[6 + o] == Field("signature", Obj(SecurityFields(m.signature.value))))
            && fs[6 + o + p] == Field("ttl", Num(m.ttl))
  {
  }

  predicate DistinctKeys(fs: seq<Field>) {
    forall i, j :: 0 <= i < j < |fs| ==> fs[i].key != fs[j].key
  }

  lemma MessageKeysDistinct(m: Message)
    ensures DistinctKeys(MessageFields(m))
  {
    FieldPositions(m);
  }

  lemma LookupAt(fs: seq<Field>, i: nat)
    requires DistinctKeys(fs) && i < |fs|
    ensures Lookup(fs, fs[i].key) == Some(fs[i].value)
  {
    LookupFound(fs, i);
  }

  /** The fields that are always there. */
  lemma FixedFields(m: Message)
    ensures var fs := MessageFields(m);
            && Lookup(fs, "type") == Some(Str(m.kind)) && Lookup(fs, "message_id") == Some(Str(m.messageId))
            && Lookup(fs, "timestamp") == Some(Num(m.timestamp)) && Lookup(fs, "hostname") == Some(Str(m.hostname))
            && Lookup(fs, "ips") == Some(StringsValue(m.ips))
            && Lookup(fs, "services") == Some(ServicesValue(m.services))
            && Lookup(fs, "ttl") == Some(Num(m.ttl))
  {
    var fs := MessageFields(m);
    var o, p := if m.machineId == "" then 0 else 1, if m.signature.None? then 0 else 1;
    FieldPositions(m);
    MessageKeysDistinct(m);
    LookupAt(fs, 0);
    LookupAt(fs, 1);
    LookupAt(fs, 2);
    LookupAt(fs, 3);
    LookupAt(fs, 4 + o);
    LookupAt(fs, 5 + o);
    LookupAt(fs, 6 + o + p);
  }

  /** The fields that may be omitted. */
  lemma OptionalFields(m: Message)
    ensures GetString(Lookup(MessageFields(m), "machine_id")) == Some(m.machineId)
    ensures GetSecurity(Lookup(MessageFields(m), "signature")) == Some(m.signature)
  {
    var fs := MessageFields(m);
    FieldPositions(m);
    MessageKeysDistinct(m);
    if m.machineId == "" {
      LookupMissing(fs, "machine_id");
    } else {
      LookupAt(fs, 4);
    }
    if m.signature.None? {
      LookupMissing(fs, "signature");
    } else {
      LookupAt(fs, if m.machineId == "" then 6 else 7);
      SecurityRoundTrip(m.signature.value);
    }
  }

  /** The message survives the wire, up to empty alias lists. */
  lemma MessageRoundTrip(m: Message)
    ensures GetMessage(MessageFields(m)) == Some(NormalMessage(m))
  {
    FixedFields(m);
    OptionalFields(m);
    GetWrittenSlice(m.ips);
    ServicesRoundTrip(m.services);
  }

  lemma UnmarshalMarshal(m: Message)
    ensures Unmarshal(Marshal(m)) == Some(NormalMessage(m))
  {
    ReadWritten(Obj(MessageFields(m)), []);
    assert Marshal(m) + [] == Marshal(m);
    MessageRoundTrip(m);
  }

  /** Signed payload agreement: whatever the services and addresses are, the receiver decodes the
      message, finds the sender's signature, and rebuilds exactly the payload that was signed. */
  lemma PayloadAgreement(m: Message)
    ensures Unmarshal(Marshal(m)).Some?
    ensures var r := Unmarshal(Marshal(m)).value;
            Payload(r) == Payload(m) && r.signature == m.signature && r.messageId == m.messageId
  {
    UnmarshalMarshal(m);
    NormalSamePayload(m);
  }

  /** An announcement signed at `at` and received at `now` passes a peer that trusts the key exactly
      inside the freshness window. */
  lemma SignedAnnouncementAccepted(mac: Gate.Mac, sender: Gate.KeyManager, receiver: Gate.KeyManager, m: Message,
                                   nonce: string, at: int, now: int)
    requires sender.nodeID in receiver.trustedPeers
    requires receiver.trustedPeers[sender.nodeID] == sender.sharedSecret
    requires m.signature == Some(Gate.Sign(mac, sender, Payload(m), nonce, at))
    ensures Unmarshal(Marshal(m)).Some? && Unmarshal(Marshal(m)).value.signature.Some?
    ensures var r := Unmarshal(Marshal(m)).value;
            Gate.Verify(mac, receiver, Payload(r), r.signature.value, now) <==>
              Unix(at) * SECOND <= now < (Unix(at) + Gate.REPLAY_TTL + 1) * SECOND
  {
    PayloadAgreement(m);
    Gate.SignedIsAccepted(mac, sender, receiver, Payload(m), nonce, at, now);
  }

  // ----- what the signature covers -----

  /** Equal in everything the payload covers; empty and missing alias lists count as equal. */
  predicate SameCovered(a: Message, b: Message) {
    && a.kind == b.kind && a.messageId == b.messageId && a.timestamp == b.timestamp && a.hostname == b.hostname
    && a.ips == b.ips && NormalSlice(a.services) == NormalSlice(b.services) && a.ttl == b.ttl
  }

  lemma StringsDetermine(a: Slice<string>, b: Slice<string>)
    requires StringsValue(a) == StringsValue(b)
    ensures a == b
  {
    GetWrittenSlice(a);
    GetWrittenSlice(b);
  }

  lemma ServicesDetermine(a: Slice<Service>, b: Slice<Service>)
    ensures ServicesValue(a) == ServicesValue(b) <==> NormalSlice(a) == NormalSlice(b)
  {
    ServicesRoundTrip(a);
    ServicesRoundTrip(b);
  }

  lemma PayloadFieldsDetermine(a: Message, b: Message)
    requires PayloadFields(a) == PayloadFields(b)
    ensures SameCovered(a, b)
  {
    var fa, fb := PayloadFields(a), PayloadFields(b);
    assert forall i :: 0 <= i < |fa| ==> fa[i].value == fb[i].value;
    PayloadValues(a);
    PayloadValues(b);
    StringsDetermine(a.ips, b.ips);
    ServicesDetermine(a.services, b.services);
  }

  /** The payload's fields in order. */
  lemma PayloadValues(m: Message)
    ensures var fs := PayloadFields(m);
            && |fs| == 7
            && fs[0].value == Str(m.kind) && fs[1].value == Str(m.messageId) && fs[2].value == Num(m.timestamp)
            && fs[3].value == Str(m.hostname) && fs[4].value == StringsValue(m.ips)
            && fs[5].value == ServicesValue(m.services) && fs[6].value == Num(m.ttl)
  {
  }

  /** The payload is the same if and only if everything it covers is: nothing covered can be changed without
      changing the payload, and only the machine id and the signature itself are left out. */
  lemma PayloadDetermines(a: Message, b: Message)
    ensures Payload(a) == Payload(b) <==> SameCovered(a, b)
  {
    if Payload(a) == Payload(b) {
      ReadWritten(Obj(PayloadFields(a)), []);
      ReadWritten(Obj(PayloadFields(b)), []);
      assert Payload(a) + [] == Payload(a) && Payload(b) + [] == Payload(b);
      PayloadFieldsDetermine(a, b);
    }
    if SameCovered(a, b) {
      ServicesDetermine(a.services, b.services);
    }
  }

  /** A message with another's signature that differs in anything covered is accepted only if the
      authentication code of two different payloads is the same. */
  lemma ChangedNeedsCollision(mac: Gate.Mac, sender: Gate.KeyManager, receiver: Gate.KeyManager, m: Message,
                              changed: Message, nonce: string, at: int, now: int)
    requires m.signature == Some(Gate.Sign(mac, sender, Payload(m), nonce, at)) && changed.signature == m.signature
    requires sender.nodeID in receiver.trustedPeers
    requires receiver.trustedPeers[sender.nodeID] == sender.sharedSecret
    requires !SameCovered(m, changed)
    requires Gate.Verify(mac, receiver, Payload(changed), changed.signature.value, now)
    ensures Payload(m) != Payload(changed)
    ensures mac(sender.sharedSecret, nonce, Payload(m)) == mac(sender.sharedSecret, nonce, Payload(changed))
  {
    PayloadDetermines(m, changed);
  }

  // ----- the sender -----

  /** `ss` lists the services of `m`, each once, in some order. */
  ghost predicate ListsServices(ss: seq<Service>, m: map<string, Service>) {
    && (forall s :: s in ss ==> s.name in m && m[s.name] == s)
    && (forall k :: k in m ==> m[k] in ss)
    && (forall i, j :: 0 <= i < j < |ss| ==> ss[i].name != ss[j].name)
  }

  lemma ListsServicesAppend(ss: seq<Service>, m: map<string, Service>, x: Service)
    requires ListsServices(ss, m) && x.name !in m
    ensures ListsServices(ss + [x], m[x.name := x])
  {
    var m' := m[x.name := x];
    forall k | k in m'
      ensures m'[k] in ss + [x]
    {
      if k != x.name {
        assert m[k] in ss;
      }
    }
    forall i, j | 0 <= i < j < |ss + [x]|
      ensures (ss + [x])[i].name != (ss + [x])[j].name
    {
      assert ss[i] in ss;
    }
  }

  method CollectServices(services: map<string, Service>) returns (list: seq<Service>)
    requires forall k :: k in services ==> services[k].name == k
    ensures ListsServices(list, services)
  {
    list := [];
    var todo := services.Keys;
    while todo != {}
      invariant todo <= services.Keys
      invariant ListsServices(list, services - todo)
      decreases todo
    {
      var name :| name in todo;
      ListsServicesAppend(list, services - todo, services[name]);
      assert services - (todo - {name}) == (services - todo)[name := services[name]];
      list := list + [services[name]];
      todo := todo - {name};
    }
    assert services - {} == services;
  }

  /** Builds the announcement; services come out of their map in any order.  The signature covers the
      payload of the finished message.  Without a key, or when no nonce can be had, the message goes out
      unsigned. */
  method CreateAnnouncement(services: map<string, Service>, ips: Slice<string>, hostname: string, machineId: string,
                            keys: Option<Gate.KeyManager>, mac: Gate.Mac,
                            nonce: Option<string>, now: int, signedAt: int)
      returns (m: Message)
    requires forall k :: k in services ==> services[k].name == k
    ensures m.kind == "ANNOUNCE" && m.hostname == hostname && m.machineId == machineId && m.ips == ips && m.ttl == 3600
    ensures m.messageId == hostname + "-" + PrintInt(now) && m.timestamp == Unix(now)
    ensures m.services.Elems? && ListsServices(m.services.elems, services)
    ensures m.signature == if keys.None? || nonce.None? then None
                           else Some(Gate.Sign(mac, keys.value, Payload(m), nonce.value, signedAt))
  {
    var list := CollectServices(services);
    m := Message("ANNOUNCE", hostname + "-" + PrintInt(now), Unix(now),
                 hostname, machineId, ips, Elems(list), None, 3600);
    if keys.Some? {
      if nonce.None? {
        return;
      }
      m := m.(signature := Some(Gate.Sign(mac, keys.value, Payload(m), nonce.value, signedAt)));
    }
  }
}
