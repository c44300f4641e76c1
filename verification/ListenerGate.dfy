/**
 * What a datagram must pass before it is delivered: the duplicate filter and the signature check
 * (internal/discovery/ratelimit.go, internal/discovery/broadcast.go, internal/security/signing.go).
 *
 * One clock, in nanoseconds, is passed in as a parameter and each datagram is handled at one instant.
 * The message authentication code is an uninterpreted function.
 */
module ListenerGate {
  import opened Common

  /** Lifetime of a duplicate-filter entry, and the freshness window of a signature in seconds. */
  const FILTER_TTL: int := 300 * SECOND
  const REPLAY_TTL: int := 300

  // ----- signatures -----

  datatype MessageSecurity = MessageSecurity(signature: string, signer: string, nonce: string, timestamp: int)

  /** HMAC-SHA256 of nonce and message under a secret, in hex. */
  type Mac = (string, string, string) -> string

  datatype KeyManager = KeyManager(sharedSecret: string, nodeID: string, trustedPeers: map<string, string>)

  function Sign(mac: Mac, km: KeyManager, payload: string, nonce: string, now: int): MessageSecurity {
    MessageSecurity(mac(km.sharedSecret, nonce, payload), km.nodeID, nonce, Unix(now))
  }

  predicate Verify(mac: Mac, km: KeyManager, payload: string, ms: MessageSecurity, now: int) {
    && ms.signer in km.trustedPeers
    && !(Unix(now) - ms.timestamp > REPLAY_TTL)
    && !(Unix(now) < ms.timestamp)
    && ms.signature == mac(km.trustedPeers[ms.signer], ms.nonce, payload)
  }

  /** A peer that holds the signer's secret accepts a signed payload exactly inside the window. */
  lemma SignedIsAccepted(mac: Mac, signer: KeyManager, receiver: KeyManager, payload: string, nonce: string, at: int,
                         now: int)
    requires signer.nodeID in receiver.trustedPeers
    requires receiver.trustedPeers[signer.nodeID] == signer.sharedSecret
    ensures Verify(mac, receiver, payload, Sign(mac, signer, payload, nonce, at), now) <==>
            Unix(at) * SECOND <= now < (Unix(at) + REPLAY_TTL + 1) * SECOND
  {
  }

  // ----- the gate -----

  datatype Kind = Host | Time | Location

  /** A datagram as the reader sees it.  `header` is the type and message id, when they parse; `body`
      is the signed payload and the signature, when the whole message parses. */
  datatype Header = Header(kind: Kind, id: string)
  datatype Body = Body(payload: string, security: Option<MessageSecurity>)
  datatype Datagram = Datagram(header: Option<Header>, body: Option<Body>)

  datatype GateConfig = GateConfig(requireSigned: bool, keys: Option<KeyManager>)

  datatype Delivery = Delivery(header: Header, body: Body, at: int)

  datatype Gate = Gate(seen: map<string, int>, log: seq<Delivery>)

  datatype Event = Arrive(d: Datagram, at: int) | Cleanup(at: int)

  predicate Passes(mac: Mac, cfg: GateConfig, kind: Kind, body: Body, now: int) {
    || kind == Location
    || (&& !(cfg.requireSigned && body.security.None?)
        && (cfg.keys.Some? && body.security.Some? ==>
              Verify(mac, cfg.keys.value, body.payload, body.security.value, now)))
  }

  function Handle(mac: Mac, cfg: GateConfig, g: Gate, d: Datagram, now: int): Gate {
    if d.header.None? || d.header.value.id in g.seen then g
    else
      var seen := g.seen[d.header.value.id := now];
      if d.body.Some? && Passes(mac, cfg, d.header.value.kind, d.body.value, now)
      then Gate(seen, g.log + [Delivery(d.header.value, d.body.value, now)])
      else Gate(seen, g.log)
  }

  function Cleaned(seen: map<string, int>, now: int): map<string, int> {
    map id | id in seen && !(now - seen[id] > FILTER_TTL) :: seen[id]
  }

  function Next(mac: Mac, cfg: GateConfig, g: Gate, e: Event): Gate {
    match e
    case Arrive(d, at) => Handle(mac, cfg, g, d, at)
    case Cleanup(at) => g.(seen := Cleaned(g.seen, at))
  }

  class Listener {
    const cfg: GateConfig
    var seen: map<string, int>
    ghost var log: seq<Delivery>

    ghost function Abs(): Gate
      reads this
    {
      Gate(seen, log)
    }

    constructor (cfg: GateConfig)
      requires cfg.requireSigned ==> cfg.keys.Some?
      ensures this.cfg == cfg && Abs() == Gate(map[], [])
    {
      this.cfg := cfg;
      seen := map[];
      log := [];
    }

    /** `DuplicateFilter.Seen`. */
    method Seen(id: string, now: int) returns (dup: bool)
      modifies this`seen
      ensures dup == (id in old(seen))
      ensures seen == if dup then old(seen) else old(seen)[id := now]
    {
      if id !in seen {
        seen := seen[id := now];
        return false;
      }
      return true;
    }

    /** One tick of the filter's cleanup. */
    method CleanupTick(now: int)
      modifies this`seen
      ensures seen == Cleaned(old(seen), now)
    {
      var all := seen;
      var todo := all.Keys;
      while todo != {}
        invariant todo <= all.Keys
        invariant seen == map id | id in all && (id in todo || !(now - all[id] > FILTER_TTL)) :: all[id]
        decreases todo
      {
        var id :| id in todo;
        todo := todo - {id};
        if now - all[id] > FILTER_TTL {
          seen := seen - {id};
        }
      }
    }

    /** One datagram through the reader loop; returns what is sent on, if anything. */
    method HandleDatagram(mac: Mac, d: Datagram, now: int) returns (out: Option<Delivery>)
      modifies this
      ensures Abs() == Next(mac, cfg, old(Abs()), Arrive(d, now))
      ensures log == old(log) + if out.Some? then [out.value] else []
    {
      if d.header.None? {
        return None;
      }
      var dup := Seen(d.header.value.id, now);
      if dup {
        return None;
      }
      if d.body.None? {
        return None;
      }
      var body := d.body.value;
      if d.header.value.kind != Location {
        if cfg.requireSigned && body.security.None? {
          return None;
        }
        if cfg.keys.Some? && body.security.Some? {
          if !Verify(mac, cfg.keys.value, body.payload, body.security.value, now) {
            return None;
          }
        }
      }
      out := Some(Delivery(d.header.value, body, now));
      log := log + [out.value];
    }
  }

  // ----- runs -----

  function At(e: Event): int {
    e.at
  }

  predicate InOrder(es: seq<Event>) {
    forall i, j :: 0 <= i < j < |es| ==> At(es[i]) <= At(es[j])
  }

  function Run(mac: Mac, cfg: GateConfig, es: seq<Event>): Gate {
    if es == [] then Gate(map[], []) else Next(mac, cfg, Run(mac, cfg, es[..|es| - 1]), es[|es| - 1])
  }

  /** What the filter remembers about past deliveries at instant `now`: an id that is no longer in it
      was last delivered more than the lifetime ago. */
  ghost predicate Remembers(g: Gate, now: int) {
    && (forall k :: 0 <= k < |g.log| ==> g.log[k].at <= now)
    && (forall k :: 0 <= k < |g.log| && g.log[k].header.id in g.seen ==> g.log[k].at <= g.seen[g.log[k].header.id])
    && (forall k :: 0 <= k < |g.log| && g.log[k].header.id !in g.seen ==> now - g.log[k].at > FILTER_TTL)
  }

  ghost predicate Apart(log: seq<Delivery>) {
    forall i, j :: 0 <= i < j < |log| && log[i].header.id == log[j].header.id ==> log[j].at - log[i].at > FILTER_TTL
  }

  lemma NextRemembers(mac: Mac, cfg: GateConfig, g: Gate, e: Event, now: int)
    requires Remembers(g, now) && Apart(g.log) && now <= e.at
    ensures Remembers(Next(mac, cfg, g, e), e.at) && Apart(Next(mac, cfg, g, e).log)
  {
  }

  lemma {:induction false} RunRemembers(mac: Mac, cfg: GateConfig, es: seq<Event>)
    requires InOrder(es)
    ensures es == [] ==> Run(mac, cfg, es).log == []
    ensures es != [] ==> Remembers(Run(mac, cfg, es), es[|es| - 1].at)
    ensures Apart(Run(mac, cfg, es).log)
  {
    if es != [] {
      var front, e := es[..|es| - 1], es[|es| - 1];
      RunRemembers(mac, cfg, front);
      NextRemembers(mac, cfg, Run(mac, cfg, front), e, if front == [] then e.at else front[|front| - 1].at);
    }
  }

  /** Two deliveries of one message id are always more than the filter's lifetime apart. */
  lemma DeliveriesApart(mac: Mac, cfg: GateConfig, es: seq<Event>, i: nat, j: nat)
    requires InOrder(es)
    requires i < j < |Run(mac, cfg, es).log|
    requires Run(mac, cfg, es).log[i].header.id == Run(mac, cfg, es).log[j].header.id
    ensures Run(mac, cfg, es).log[j].at - Run(mac, cfg, es).log[i].at > 300 * SECOND
  {
    RunRemembers(mac, cfg, es);
  }

  /** Every delivery passed the checks at its instant, on the datagram that arrived then. */
  lemma {:induction false} DeliveriesPassed(mac: Mac, cfg: GateConfig, es: seq<Event>, k: nat)
    requires k < |Run(mac, cfg, es).log|
    ensures var x := Run(mac, cfg, es).log[k];
            && Passes(mac, cfg, x.header.kind, x.body, x.at)
            && Arrive(Datagram(Some(x.header), Some(x.body)), x.at) in es
  {
    var front, e := es[..|es| - 1], es[|es| - 1];
    if k < |Run(mac, cfg, front).log| {
      DeliveriesPassed(mac, cfg, front, k);
    }
  }

  /** Host and time messages with signing required. */
  predicate Guarded(cfg: GateConfig, x: Delivery) {
    cfg.requireSigned && cfg.keys.Some? && x.header.kind != Location
  }

  lemma DeliveredInWindow(mac: Mac, cfg: GateConfig, es: seq<Event>, k: nat)
    requires k < |Run(mac, cfg, es).log| && Guarded(cfg, Run(mac, cfg, es).log[k])
    ensures var x := Run(mac, cfg, es).log[k];
            && x.body.security.Some?
            && Verify(mac, cfg.keys.value, x.body.payload, x.body.security.value, x.at)
            && x.body.security.value.timestamp * SECOND <= x.at
            && x.at < (x.body.security.value.timestamp + REPLAY_TTL + 1) * SECOND
  {
    DeliveriesPassed(mac, cfg, es, k);
  }

  /** What every delivered host or time message satisfies, in every run.  When signing is required it is
      signed.  When keys are configured, a signature it carries is the code of its payload and nonce under
      the secret of a trusted peer, and is dated at most 300 seconds back and not in the future. */
  lemma DeliveredAuthentic(mac: Mac, cfg: GateConfig, es: seq<Event>, k: nat)
    requires k < |Run(mac, cfg, es).log| && Run(mac, cfg, es).log[k].header.kind != Location
    ensures var x := Run(mac, cfg, es).log[k];
            && (cfg.requireSigned ==> x.body.security.Some?)
            && (cfg.keys.Some? && x.body.security.Some? ==>
                  var ms, peers := x.body.security.value, cfg.keys.value.trustedPeers;
                  && ms.signer in peers
                  && ms.signature == mac(peers[ms.signer], ms.nonce, x.body.payload)
                  && 0 <= x.at / SECOND - ms.timestamp <= 300)
  {
    DeliveriesPassed(mac, cfg, es, k);
  }

  /** Two deliveries of the same signed envelope. */
  predicate SameEnvelope(x: Delivery, y: Delivery) {
    x.header == y.header && x.body == y.body
  }

  /** With signing required, no run delivers one signed envelope three times. */
  lemma AtMostTwice(mac: Mac, cfg: GateConfig, es: seq<Event>, i: nat, j: nat, k: nat)
    requires InOrder(es)
    requires i < j < k < |Run(mac, cfg, es).log|
    requires Guarded(cfg, Run(mac, cfg, es).log[i])
    ensures !(SameEnvelope(Run(mac, cfg, es).log[i], Run(mac, cfg, es).log[j])
              && SameEnvelope(Run(mac, cfg, es).log[j], Run(mac, cfg, es).log[k]))
  {
    var log := Run(mac, cfg, es).log;
    if SameEnvelope(log[i], log[j]) && SameEnvelope(log[j], log[k]) {
      DeliveriesApart(mac, cfg, es, i, j);
      DeliveriesApart(mac, cfg, es, j, k);
      DeliveredInWindow(mac, cfg, es, i);
      DeliveredInWindow(mac, cfg, es, k);
    }
  }

  /** Some run delivers the envelope at instant `t` and then once more. */
  ghost predicate RedeliveredAfter(mac: Mac, cfg: GateConfig, header: Header, body: Body, t: int) {
    exists es, i: nat, j: nat :: RedeliversIn(mac, cfg, es, header, body, t, i, j)
  }

  predicate RedeliversIn(mac: Mac, cfg: GateConfig, es: seq<Event>, header: Header, body: Body, t: int, i: nat,
                         j: nat) {
    var log := Run(mac, cfg, es).log;
    InOrder(es) && i < j < |log| && log[i] == Delivery(header, body, t) && SameEnvelope(log[i], log[j])
  }

  /** If the envelope is delivered in the last nanosecond of its signed second or later, no run delivers
      it again. */
  lemma AtMostOnceWhenLate(mac: Mac, cfg: GateConfig, es: seq<Event>, i: nat, j: nat)
    requires InOrder(es)
    requires i < j < |Run(mac, cfg, es).log|
    requires Guarded(cfg, Run(mac, cfg, es).log[i])
    requires var x := Run(mac, cfg, es).log[i];
             x.body.security.Some? ==> x.at + 1 >= (x.body.security.value.timestamp + 1) * SECOND
    ensures !SameEnvelope(Run(mac, cfg, es).log[i], Run(mac, cfg, es).log[j])
  {
    var log := Run(mac, cfg, es).log;
    if SameEnvelope(log[i], log[j]) {
      DeliveriesApart(mac, cfg, es, i, j);
      DeliveredInWindow(mac, cfg, es, i);
      DeliveredInWindow(mac, cfg, es, j);
    }
  }

  /** The envelope arrives, the filter forgets it as soon as it may, and it arrives again. */
  function ReplayRun(header: Header, body: Body, t: int): seq<Event> {
    var d := Datagram(Some(header), Some(body));
    [Arrive(d, t), Cleanup(t + FILTER_TTL + 1), Arrive(d, t + FILTER_TTL + 1)]
  }

  lemma ReplayDelivers(mac: Mac, cfg: GateConfig, header: Header, body: Body, t: int)
    requires Passes(mac, cfg, header.kind, body, t) && Passes(mac, cfg, header.kind, body, t + FILTER_TTL + 1)
    ensures Run(mac, cfg, ReplayRun(header, body, t)).log ==
            [Delivery(header, body, t), Delivery(header, body, t + FILTER_TTL + 1)]
  {
    var es := ReplayRun(header, body, t);
    var g1 := Next(mac, cfg, Gate(map[], []), es[0]);
    var g2 := Next(mac, cfg, g1, es[1]);
    assert es[..2][..1] == es[..1] && es[..1][..0] == [] && es[..2][1] == es[1];
    assert Run(mac, cfg, es[..1]) == g1;
    assert Run(mac, cfg, es[..2]) == g2;
    assert g2.seen == map[];
  }

  /** With signing required, an envelope that verifies when it is delivered at instant `t` can be
      delivered again in some run if and only if a nanosecond later it is still its signed second.
      This holds for every authentication code, key and envelope. */
  lemma TwiceExactly(mac: Mac, cfg: GateConfig, header: Header, body: Body, t: int)
    requires Guarded(cfg, Delivery(header, body, t)) && body.security.Some?
    requires Verify(mac, cfg.keys.value, body.payload, body.security.value, t)
    ensures RedeliveredAfter(mac, cfg, header, body, t) <==> t + 1 < (body.security.value.timestamp + 1) * SECOND
  {
    var signed := body.security.value.timestamp;
    if RedeliveredAfter(mac, cfg, header, body, t) {
      var es, i: nat, j: nat :| RedeliversIn(mac, cfg, es, header, body, t, i, j);
      if t + 1 >= (signed + 1) * SECOND {
        AtMostOnceWhenLate(mac, cfg, es, i, j);
      }
    }
    if t + 1 < (signed + 1) * SECOND {
      ReplayDelivers(mac, cfg, header, body, t);
      assert RedeliversIn(mac, cfg, ReplayRun(header, body, t), header, body, t, 0, 1);
    }
  }

  /** Every envelope delivered the instant it was signed can be delivered again, unless that was the
      last nanosecond of a second. */
  lemma FreshEnvelopeReplays(mac: Mac, cfg: GateConfig, signer: KeyManager, header: Header, payload: string,
                             nonce: string, at: int)
    requires cfg.requireSigned && cfg.keys.Some? && header.kind != Location
    requires signer.nodeID in cfg.keys.value.trustedPeers
    requires cfg.keys.value.trustedPeers[signer.nodeID] == signer.sharedSecret
    requires Unix(at + 1) == Unix(at)
    ensures RedeliveredAfter(mac, cfg, header, Body(payload, Some(Sign(mac, signer, payload, nonce, at))), at)
  {
    SignedIsAccepted(mac, signer, cfg.keys.value, payload, nonce, at, at);
    TwiceExactly(mac, cfg, header, Body(payload, Some(Sign(mac, signer, payload, nonce, at))), at);
  }
}
