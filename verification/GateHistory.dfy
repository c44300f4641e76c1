/**
 * When a message is delivered, read off the history of arrivals and cleanups alone.  The duplicate filter
 * runs before the message is decoded and its signature checked (internal/discovery/broadcast.go), so an
 * arrival that fails those checks blocks later ones all the same.
 */
module GateHistory {
  import opened Common
  import opened ListenerGate

  predicate ArrivalOf(e: Event, id: string) {
    e.Arrive? && e.d.header.Some? && e.d.header.value.id == id
  }

  /** Between the two events a cleanup finds arrival `j` older than the filter's lifetime. */
  ghost predicate Forgotten(es: seq<Event>, j: nat, k: nat) {
    exists c :: j < c < k <= |es| && es[c].Cleanup? && es[c].at - es[j].at > FILTER_TTL
  }

  /** Arrival `i` is taken for new: every earlier arrival of the id that was taken for new, valid or not,
      has been forgotten. */
  ghost predicate Registers(es: seq<Event>, i: nat, id: string) {
    && i < |es| && ArrivalOf(es[i], id)
    && forall j: nat :: j < i && Registers(es, j, id) ==> Forgotten(es, j, i)
  }

  lemma ForgottenSnoc(es: seq<Event>, e: Event, j: nat, k: nat)
    requires j < |es| && k <= |es|
    ensures Forgotten(es + [e], j, k) <==> Forgotten(es, j, k)
  {
    var all := es + [e];
    assert forall c :: 0 <= c < |es| ==> all[c] == es[c];
  }

  lemma ForgottenLast(es: seq<Event>, e: Event, j: nat)
    requires j < |es|
    ensures Forgotten(es + [e], j, |es| + 1) <==>
            Forgotten(es, j, |es|) || (e.Cleanup? && e.at - es[j].at > FILTER_TTL)
  {
    var all := es + [e];
    assert all[|es|] == e && forall c :: 0 <= c < |es| ==> all[c] == es[c];
  }

  lemma {:induction false} RegistersSnoc(es: seq<Event>, e: Event, i: nat, id: string)
    requires i < |es|
    ensures Registers(es + [e], i, id) <==> Registers(es, i, id)
    decreases i
  {
    var all := es + [e];
    assert all[i] == es[i];
    forall j: nat | j < i
      ensures Registers(all, j, id) <==> Registers(es, j, id)
      ensures Forgotten(all, j, i) <==> Forgotten(es, j, i)
    {
      RegistersSnoc(es, e, j, id);
      ForgottenSnoc(es, e, j, i);
    }
  }

  /** The arrival that the filter still knows the id by. */
  ghost predicate KnownBy(es: seq<Event>, id: string, j: nat) {
    Registers(es, j, id) && !Forgotten(es, j, |es|)
  }

  /** The filter after the events holds the id exactly when such an arrival exists, with its instant. */
  ghost predicate FilterMatches(es: seq<Event>, seen: map<string, int>, id: string) {
    && (id in seen <==> exists j: nat :: KnownBy(es, id, j))
    && (forall j: nat :: KnownBy(es, id, j) ==> id in seen && seen[id] == es[j].at)
  }

  lemma KnownBySnoc(es: seq<Event>, e: Event, id: string, j: nat)
    requires j < |es|
    ensures KnownBy(es + [e], id, j) <==> KnownBy(es, id, j) && !(e.Cleanup? && e.at - es[j].at > FILTER_TTL)
  {
    RegistersSnoc(es, e, j, id);
    ForgottenLast(es, e, j);
  }

  lemma RegistersLast(es: seq<Event>, e: Event, id: string)
    ensures Registers(es + [e], |es|, id) <==> ArrivalOf(e, id) && !exists j: nat :: KnownBy(es, id, j)
    ensures KnownBy(es + [e], id, |es|) <==> Registers(es + [e], |es|, id)
  {
    var all := es + [e];
    assert all[|es|] == e;
    forall j: nat | j < |es|
      ensures Registers(all, j, id) <==> Registers(es, j, id)
      ensures Forgotten(all, j, |es|) <==> Forgotten(es, j, |es|)
    {
      RegistersSnoc(es, e, j, id);
      ForgottenSnoc(es, e, j, |es|);
    }
    if j: nat :| KnownBy(es, id, j) {
      assert Registers(all, j, id) && !Forgotten(all, j, |es|);
    } else {
      assert forall j: nat :: j < |es| && Registers(all, j, id) ==> Forgotten(all, j, |es|) by {
        forall j: nat | j < |es| && Registers(all, j, id)
          ensures Forgotten(all, j, |es|)
        {
          assert !KnownBy(es, id, j);
        }
      }
    }
  }

  lemma KnownByBounds(es: seq<Event>, id: string, j: nat)
    requires KnownBy(es, id, j)
    ensures j < |es|
  {
  }

  lemma FilterMatchesNext(mac: Mac, cfg: GateConfig, es: seq<Event>, e: Event, g: Gate, id: string)
    requires FilterMatches(es, g.seen, id)
    ensures FilterMatches(es + [e], Next(mac, cfg, g, e).seen, id)
  {
    var all, seen' := es + [e], Next(mac, cfg, g, e).seen;
    RegistersLast(es, e, id);
    forall j: nat | j < |es|
      ensures KnownBy(all, id, j) <==> KnownBy(es, id, j) && !(e.Cleanup? && e.at - es[j].at > FILTER_TTL)
      ensures all[j] == es[j]
    {
      KnownBySnoc(es, e, id, j);
    }
    if id in seen' {
      if id in g.seen {
        var j: nat :| KnownBy(es, id, j);
        assert KnownBy(all, id, j);
      } else {
        assert KnownBy(all, id, |es|);
      }
    }
    forall j: nat | KnownBy(all, id, j)
      ensures id in seen' && seen'[id] == all[j].at
    {
      KnownByBounds(all, id, j);
    }
  }

  /** The duplicate filter after any run, on any clock. */
  lemma {:induction false} FilterIsHistory(mac: Mac, cfg: GateConfig, es: seq<Event>, id: string)
    ensures FilterMatches(es, Run(mac, cfg, es).seen, id)
  {
    if es != [] {
      var front, e := es[..|es| - 1], es[|es| - 1];
      assert es == front + [e];
      FilterIsHistory(mac, cfg, front, id);
      FilterMatchesNext(mac, cfg, front, e, Run(mac, cfg, front), id);
    }
  }

  // ----- deliveries -----

  /** Arrival `k` decodes, passes the checks at its instant, and is taken for new. */
  ghost predicate Delivers(mac: Mac, cfg: GateConfig, es: seq<Event>, k: nat) {
    && k < |es| && es[k].Arrive? && es[k].d.header.Some? && es[k].d.body.Some?
    && Passes(mac, cfg, es[k].d.header.value.kind, es[k].d.body.value, es[k].at)
    && Registers(es, k, es[k].d.header.value.id)
  }

  ghost function Deliveries(mac: Mac, cfg: GateConfig, es: seq<Event>, n: nat): seq<Delivery>
    requires n <= |es|
  {
    if n == 0 then []
    else
      Deliveries(mac, cfg, es, n - 1)
      + if Delivers(mac, cfg, es, n - 1)
        then [Delivery(es[n - 1].d.header.value, es[n - 1].d.body.value, es[n - 1].at)] else []
  }

  lemma DeliversSnoc(mac: Mac, cfg: GateConfig, es: seq<Event>, e: Event, k: nat)
    requires k < |es|
    ensures Delivers(mac, cfg, es + [e], k) <==> Delivers(mac, cfg, es, k)
  {
    assert (es + [e])[k] == es[k];
    if es[k].Arrive? && es[k].d.header.Some? {
      RegistersSnoc(es, e, k, es[k].d.header.value.id);
    }
  }

  lemma {:induction false} DeliveriesSnoc(mac: Mac, cfg: GateConfig, es: seq<Event>, e: Event, n: nat)
    requires n <= |es|
    ensures Deliveries(mac, cfg, es + [e], n) == Deliveries(mac, cfg, es, n)
  {
    if n > 0 {
      DeliveriesSnoc(mac, cfg, es, e, n - 1);
      DeliversSnoc(mac, cfg, es, e, n - 1);
      assert (es + [e])[n - 1] == es[n - 1];
    }
  }

  lemma DeliversLast(mac: Mac, cfg: GateConfig, es: seq<Event>, e: Event)
    ensures Delivers(mac, cfg, es + [e], |es|) <==>
            && e.Arrive? && e.d.header.Some? && e.d.body.Some?
            && Passes(mac, cfg, e.d.header.value.kind, e.d.body.value, e.at)
            && e.d.header.value.id !in Run(mac, cfg, es).seen
  {
    assert (es + [e])[|es|] == e;
    if e.Arrive? && e.d.header.Some? {
      var id := e.d.header.value.id;
      RegistersLast(es, e, id);
      FilterIsHistory(mac, cfg, es, id);
    }
  }

  /** What the listener delivers in any run is exactly what the history says: an arrival is delivered if and
      only if it passes and every earlier arrival of its id that was taken for new has been forgotten. */
  lemma {:induction false} LogIsHistory(mac: Mac, cfg: GateConfig, es: seq<Event>)
    ensures Run(mac, cfg, es).log == Deliveries(mac, cfg, es, |es|)
  {
    if es != [] {
      var front, e := es[..|es| - 1], es[|es| - 1];
      assert es == front + [e];
      LogIsHistory(mac, cfg, front);
      DeliveriesSnoc(mac, cfg, front, e, |front|);
      DeliversLast(mac, cfg, front, e);
    }
  }

  lemma {:induction false} DeliveredIsListed(mac: Mac, cfg: GateConfig, es: seq<Event>, n: nat, k: nat)
    requires k < n <= |es| && Delivers(mac, cfg, es, k)
    ensures Delivery(es[k].d.header.value, es[k].d.body.value, es[k].at) in Deliveries(mac, cfg, es, n)
  {
    if k < n - 1 {
      DeliveredIsListed(mac, cfg, es, n - 1, k);
    }
  }

  /** A valid message whose id has not arrived before is delivered. */
  lemma FirstArrivalDelivered(mac: Mac, cfg: GateConfig, es: seq<Event>, k: nat, header: Header, body: Body)
    requires k < |es| && es[k] == Arrive(Datagram(Some(header), Some(body)), es[k].at)
    requires Passes(mac, cfg, header.kind, body, es[k].at)
    requires forall j :: 0 <= j < k ==> !ArrivalOf(es[j], header.id)
    ensures Delivery(header, body, es[k].at) in Run(mac, cfg, es).log
  {
    LogIsHistory(mac, cfg, es);
    DeliveredIsListed(mac, cfg, es, |es|, k);
  }

  /** Exactly when a message whose id has not arrived before is delivered: location messages always; others
      signed if signing is required and, where keys are configured and the message is signed, with the code
      of a trusted peer and a date at most 300 seconds back and not in the future. */
  lemma FirstArrivalExactly(mac: Mac, cfg: GateConfig, es: seq<Event>, k: nat, header: Header, body: Body)
    requires k < |es| && es[k] == Arrive(Datagram(Some(header), Some(body)), es[k].at)
    requires forall j :: 0 <= j < k ==> !ArrivalOf(es[j], header.id)
    ensures Delivers(mac, cfg, es, k) <==>
            || header.kind == Location
            || (&& (cfg.requireSigned ==> body.security.Some?)
                && (cfg.keys.Some? && body.security.Some? ==>
                      var ms, peers := body.security.value, cfg.keys.value.trustedPeers;
                      && ms.signer in peers
                      && ms.signature == mac(peers[ms.signer], ms.nonce, body.payload)
                      && 0 <= es[k].at / SECOND - ms.timestamp <= 300))
  {
    assert Registers(es, k, header.id);
  }

  /** A first arrival of the id, even one that fails every check, keeps a valid message with that id from
      being delivered until a cleanup more than the filter's lifetime later. */
  lemma FirstArrivalBlocks(mac: Mac, cfg: GateConfig, es: seq<Event>, j: nat, k: nat, id: string)
    requires j < k < |es| && ArrivalOf(es[j], id) && ArrivalOf(es[k], id)
    requires forall i :: 0 <= i < j ==> !ArrivalOf(es[i], id)
    requires forall c :: j < c < k && es[c].Cleanup? ==> es[c].at - es[j].at <= FILTER_TTL
    ensures !Delivers(mac, cfg, es, k)
  {
    assert Registers(es, j, id);
    assert !Forgotten(es, j, k);
  }
}
