/**
 * Copies of one signed payload.  The authentication code covers the nonce and the payload; the date that
 * the freshness test reads is not covered (internal/security/signing.go), so copies of one payload can
 * carry different dates.  What the freshness window promises depends on how far apart these are.
 */
module SignedCopies {
  import opened Common
  import opened ListenerGate

  /** What the authentication code and the duplicate filter identify a message by. */
  datatype Signed = Signed(header: Header, payload: string, signature: string, signer: string, nonce: string)

  function Dated(c: Signed, date: int): Body {
    Body(c.payload, Some(MessageSecurity(c.signature, c.signer, c.nonce, date)))
  }

  predicate CopyOf(header: Header, body: Body, c: Signed) {
    header == c.header && body.security.Some? && body == Dated(c, body.security.value.timestamp)
  }

  /** Signing is required and a trusted peer's secret gives this signature. */
  predicate Authentic(mac: Mac, cfg: GateConfig, c: Signed) {
    && cfg.requireSigned && cfg.keys.Some? && c.header.kind != Location
    && c.signer in cfg.keys.value.trustedPeers
    && c.signature == mac(cfg.keys.value.trustedPeers[c.signer], c.nonce, c.payload)
  }

  /** A copy is accepted exactly inside the window of the date it carries. */
  lemma DatedPassesExactly(mac: Mac, cfg: GateConfig, c: Signed, date: int, now: int)
    requires Authentic(mac, cfg, c)
    ensures Passes(mac, cfg, c.header.kind, Dated(c, date), now) <==>
            date * SECOND <= now < (date + REPLAY_TTL + 1) * SECOND
  {
  }

  /** So a copy dated now is accepted at every instant. */
  lemma DatedNowPasses(mac: Mac, cfg: GateConfig, c: Signed, now: int)
    requires Authentic(mac, cfg, c)
    ensures Passes(mac, cfg, c.header.kind, Dated(c, Unix(now)), now)
  {
    DatedPassesExactly(mac, cfg, c, Unix(now), now);
  }

  // ----- runs of copies -----

  /** A copy with a date, handled at an instant. */
  datatype Sending = Sending(date: int, at: int)

  /** Each copy arrives right after a cleanup. */
  function CopyRun(c: Signed, sendings: seq<Sending>): seq<Event> {
    if sendings == [] then []
    else
      var last := sendings[|sendings| - 1];
      CopyRun(c, sendings[..|sendings| - 1])
      + [Cleanup(last.at), Arrive(Datagram(Some(c.header), Some(Dated(c, last.date))), last.at)]
  }

  /** The copies are fresh when they arrive, and more than the filter's lifetime apart. */
  predicate WellSpaced(sendings: seq<Sending>) {
    && (forall k :: 0 <= k < |sendings| ==>
          sendings[k].date * SECOND <= sendings[k].at < (sendings[k].date + REPLAY_TTL + 1) * SECOND)
    && (forall k :: 0 < k < |sendings| ==> sendings[k].at - sendings[k - 1].at > FILTER_TTL)
  }

  function CopyLog(c: Signed, sendings: seq<Sending>): (log: seq<Delivery>)
    ensures |log| == |sendings|
  {
    seq(|sendings|, k requires 0 <= k < |sendings| => Delivery(c.header, Dated(c, sendings[k].date), sendings[k].at))
  }

  lemma RunTwoMore(mac: Mac, cfg: GateConfig, es: seq<Event>, a: Event, b: Event)
    ensures Run(mac, cfg, es + [a, b]) == Next(mac, cfg, Next(mac, cfg, Run(mac, cfg, es), a), b)
  {
    var all := es + [a, b];
    assert all[..|all| - 1] == es + [a] && (es + [a])[..|es|] == es;
  }

  /** After a cleanup the next copy is delivered. */
  lemma NextCopy(mac: Mac, cfg: GateConfig, g: Gate, c: Signed, s: Sending)
    requires Authentic(mac, cfg, c) && s.date * SECOND <= s.at < (s.date + REPLAY_TTL + 1) * SECOND
    requires forall id :: id in g.seen ==> id == c.header.id && s.at - g.seen[id] > FILTER_TTL
    ensures var g' := Next(mac, cfg, Next(mac, cfg, g, Cleanup(s.at)),
                           Arrive(Datagram(Some(c.header), Some(Dated(c, s.date))), s.at));
            g'.log == g.log + [Delivery(c.header, Dated(c, s.date), s.at)] && g'.seen == map[c.header.id := s.at]
  {
    DatedPassesExactly(mac, cfg, c, s.date, s.at);
    assert Cleaned(g.seen, s.at) == map[];
  }

  lemma {:induction false} CopyRunDelivers(mac: Mac, cfg: GateConfig, c: Signed, sendings: seq<Sending>)
    requires Authentic(mac, cfg, c) && WellSpaced(sendings)
    ensures var g := Run(mac, cfg, CopyRun(c, sendings));
            && g.log == CopyLog(c, sendings)
            && g.seen == if sendings == [] then map[] else map[c.header.id := sendings[|sendings| - 1].at]
  {
    if sendings != [] {
      var front, last := sendings[..|sendings| - 1], sendings[|sendings| - 1];
      CopyRunDelivers(mac, cfg, c, front);
      RunTwoMore(mac, cfg, CopyRun(c, front), Cleanup(last.at),
                 Arrive(Datagram(Some(c.header), Some(Dated(c, last.date))), last.at));
      NextCopy(mac, cfg, Run(mac, cfg, CopyRun(c, front)), c, last);
      assert CopyLog(c, sendings) == CopyLog(c, front) + [Delivery(c.header, Dated(c, last.date), last.at)];
    }
  }

  lemma {:induction false} CopyRunInOrder(c: Signed, sendings: seq<Sending>)
    requires WellSpaced(sendings)
    ensures InOrder(CopyRun(c, sendings))
    ensures forall e :: e in CopyRun(c, sendings) ==> sendings != [] && At(e) <= sendings[|sendings| - 1].at
  {
    if sendings != [] {
      var front, last := sendings[..|sendings| - 1], sendings[|sendings| - 1];
      CopyRunInOrder(c, front);
      var es := CopyRun(c, front);
      assert forall i :: 0 <= i < |es| ==> es[i] in es && At(es[i]) <= last.at;
    }
  }

  lemma {:induction false} CopyRunDates(c: Signed, sendings: seq<Sending>, dates: iset<int>)
    requires forall k :: 0 <= k < |sendings| ==> sendings[k].date in dates
    ensures CopiesDated(CopyRun(c, sendings), c, dates)
  {
    if sendings != [] {
      CopyRunDates(c, sendings[..|sendings| - 1], dates);
    }
  }

  // ----- copies with arbitrary dates -----

  /** A copy every filter lifetime, each dated when it is sent. */
  function Redatings(t: int, n: nat): (r: seq<Sending>)
    ensures |r| == n && forall k :: 0 <= k < n ==> r[k].at == t + k * (FILTER_TTL + 1) && r[k].date == Unix(r[k].at)
  {
    seq(n, k => Sending(Unix(t + k * (FILTER_TTL + 1)), t + k * (FILTER_TTL + 1)))
  }

  /** With copies dated at will there is no bound: for every authentic payload, instant and number there is
      a run that delivers the payload that often. */
  lemma NoBoundAcrossDates(mac: Mac, cfg: GateConfig, c: Signed, t: int, n: nat) returns (es: seq<Event>)
    requires Authentic(mac, cfg, c)
    ensures InOrder(es) && |Run(mac, cfg, es).log| == n
    ensures forall x :: x in Run(mac, cfg, es).log ==> CopyOf(x.header, x.body, c) && x.at >= t
  {
    var sendings := Redatings(t, n);
    forall k | 0 < k < n
      ensures sendings[k].at - sendings[k - 1].at > FILTER_TTL
    {
      assert sendings[k].at == sendings[k - 1].at + (FILTER_TTL + 1);
    }
    es := CopyRun(c, sendings);
    CopyRunInOrder(c, sendings);
    CopyRunDelivers(mac, cfg, c, sendings);
  }

  // ----- the exact bound -----

  /** Every copy of `c` that arrives carries one of the dates. */
  ghost predicate CopiesDated(es: seq<Event>, c: Signed, dates: iset<int>) {
    forall e :: e in es && Carries(e, c) ==> e.d.body.value.security.value.timestamp in dates
  }

  /** A copy of `c` arrives. */
  predicate Carries(e: Event, c: Signed) {
    e.Arrive? && e.d.header.Some? && e.d.body.Some? && CopyOf(e.d.header.value, e.d.body.value, c)
  }

  predicate Copies(log: seq<Delivery>, c: Signed, i: nat, j: nat, k: nat) {
    && i < j < k < |log|
    && CopyOf(log[i].header, log[i].body, c) && CopyOf(log[j].header, log[j].body, c)
    && CopyOf(log[k].header, log[k].body, c)
  }

  /** No run whose copies carry those dates delivers three of them. */
  ghost predicate AtMostTwiceWithin(mac: Mac, cfg: GateConfig, c: Signed, dates: iset<int>) {
    forall es, i: nat, j: nat, k: nat ::
      InOrder(es) && CopiesDated(es, c, dates) ==> !Copies(Run(mac, cfg, es).log, c, i, j, k)
  }

  lemma DeliveredDate(mac: Mac, cfg: GateConfig, c: Signed, dates: iset<int>, es: seq<Event>, i: nat)
    requires Authentic(mac, cfg, c) && CopiesDated(es, c, dates)
    requires i < |Run(mac, cfg, es).log|
    requires CopyOf(Run(mac, cfg, es).log[i].header, Run(mac, cfg, es).log[i].body, c)
    ensures var x := Run(mac, cfg, es).log[i];
            var date := x.body.security.value.timestamp;
            date in dates && date * SECOND <= x.at < (date + REPLAY_TTL + 1) * SECOND
  {
    DeliveriesPassed(mac, cfg, es, i);
    DeliveredInWindow(mac, cfg, es, i);
  }

  lemma CloseDatesBound(mac: Mac, cfg: GateConfig, c: Signed, dates: iset<int>, es: seq<Event>, i: nat, j: nat, k: nat)
    requires Authentic(mac, cfg, c) && InOrder(es) && CopiesDated(es, c, dates)
    requires forall a, b :: a in dates && b in dates ==> b - a < REPLAY_TTL
    ensures !Copies(Run(mac, cfg, es).log, c, i, j, k)
  {
    if Copies(Run(mac, cfg, es).log, c, i, j, k) {
      DeliveriesApart(mac, cfg, es, i, j);
      DeliveriesApart(mac, cfg, es, j, k);
      DeliveredDate(mac, cfg, c, dates, es, i);
      DeliveredDate(mac, cfg, c, dates, es, k);
    }
  }

  /** Two copies with the early date and one with the late date. */
  function ThreeSendings(early: int, late: int): seq<Sending> {
    var first := early * SECOND;
    var second := first + FILTER_TTL + 1;
    var third := second + FILTER_TTL + 1;
    [Sending(early, first), Sending(early, second),
     Sending(late, if third < late * SECOND then late * SECOND else third)]
  }

  lemma ThreeSendingsSpaced(early: int, late: int)
    requires late - early >= REPLAY_TTL
    ensures WellSpaced(ThreeSendings(early, late))
  {
    var s := ThreeSendings(early, late);
    assert s[1].at - s[0].at > FILTER_TTL && s[2].at - s[1].at > FILTER_TTL;
  }

  lemma FarDatesBreak(mac: Mac, cfg: GateConfig, c: Signed, dates: iset<int>, early: int, late: int)
    requires Authentic(mac, cfg, c) && early in dates && late in dates && late - early >= REPLAY_TTL
    ensures !AtMostTwiceWithin(mac, cfg, c, dates)
  {
    var sendings := ThreeSendings(early, late);
    var es := CopyRun(c, sendings);
    ThreeSendingsSpaced(early, late);
    CopyRunInOrder(c, sendings);
    CopyRunDelivers(mac, cfg, c, sendings);
    CopyRunDates(c, sendings, dates);
    assert Copies(Run(mac, cfg, es).log, c, 0, 1, 2);
  }

  /** Copies of one signed payload are delivered at most twice in every run if and only if the dates they
      carry lie less than 300 s apart; copies as the sender made them all carry the same date. */
  lemma AtMostTwiceExactly(mac: Mac, cfg: GateConfig, c: Signed, dates: iset<int>)
    requires Authentic(mac, cfg, c)
    ensures AtMostTwiceWithin(mac, cfg, c, dates) <==>
            forall a, b :: a in dates && b in dates ==> b - a < REPLAY_TTL
  {
    if a, b :| a in dates && b in dates && b - a >= REPLAY_TTL {
      FarDatesBreak(mac, cfg, c, dates, a, b);
    } else {
      forall es, i: nat, j: nat, k: nat | InOrder(es) && CopiesDated(es, c, dates)
        ensures !Copies(Run(mac, cfg, es).log, c, i, j, k)
      {
        CloseDatesBound(mac, cfg, c, dates, es, i, j, k);
      }
    }
  }

  // ----- once more -----

  predicate DeliversAgain(log: seq<Delivery>, c: Signed, t: int, i: nat, j: nat) {
    && i < j < |log| && log[i].at == t
    && CopyOf(log[i].header, log[i].body, c) && CopyOf(log[j].header, log[j].body, c)
  }

  /** Some run whose copies carry those dates delivers one at instant `t` and another later. */
  ghost predicate AgainAfter(mac: Mac, cfg: GateConfig, c: Signed, dates: iset<int>, t: int) {
    exists es, i: nat, j: nat ::
      InOrder(es) && CopiesDated(es, c, dates) && DeliversAgain(Run(mac, cfg, es).log, c, t, i, j)
  }

  /** A copy delivered at instant `t` can be followed by another if and only if some date is not yet over a
      nanosecond later. */
  lemma AgainExactly(mac: Mac, cfg: GateConfig, c: Signed, dates: iset<int>, date: int, t: int)
    requires Authentic(mac, cfg, c) && date in dates
    requires date * SECOND <= t < (date + REPLAY_TTL + 1) * SECOND
    ensures AgainAfter(mac, cfg, c, dates, t) <==> exists d :: d in dates && t + 1 < (d + 1) * SECOND
  {
    if AgainAfter(mac, cfg, c, dates, t) {
      var es, i: nat, j: nat :|
        InOrder(es) && CopiesDated(es, c, dates) && DeliversAgain(Run(mac, cfg, es).log, c, t, i, j);
      DeliveriesApart(mac, cfg, es, i, j);
      DeliveredDate(mac, cfg, c, dates, es, j);
      assert Run(mac, cfg, es).log[j].body.security.value.timestamp in dates;
    }
    if d :| d in dates && t + 1 < (d + 1) * SECOND {
      OneMore(mac, cfg, c, dates, date, d, t);
    }
  }

  lemma OneMore(mac: Mac, cfg: GateConfig, c: Signed, dates: iset<int>, date: int, d: int, t: int)
    requires Authentic(mac, cfg, c) && date in dates && d in dates && t + 1 < (d + 1) * SECOND
    requires date * SECOND <= t < (date + REPLAY_TTL + 1) * SECOND
    ensures AgainAfter(mac, cfg, c, dates, t)
  {
    var next := t + FILTER_TTL + 1;
    var sendings := [Sending(date, t), Sending(d, if next < d * SECOND then d * SECOND else next)];
    var es := CopyRun(c, sendings);
    assert WellSpaced(sendings);
    CopyRunInOrder(c, sendings);
    CopyRunDelivers(mac, cfg, c, sendings);
    CopyRunDates(c, sendings, dates);
    assert DeliversAgain(Run(mac, cfg, es).log, c, t, 0, 1);
  }
}
