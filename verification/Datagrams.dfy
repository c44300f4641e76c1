/**
 * Announcements through the listener's read buffer (Listener.Start in internal/discovery/broadcast.go):
 * what does not fit the buffer is lost, and the decoder sees the beginning of the message.
 */
module Datagrams {
  import opened Common
  import opened JsonCut
  import opened Announcement
  import opened SignedPayload

  const READ_BUFFER: nat := 4096

  /** Bytes of a character in UTF-8. */
  function Width(c: char): (n: nat)
    ensures 1 <= n <= 4
  {
    if c < '\U{0080}' then 1 else if c < '\U{0800}' then 2 else if c < '\U{10000}' then 3 else 4
  }

  /** The bytes themselves, as section 3 of RFC 3629 lays them out. */
  function Utf8(c: char): (bs: seq<int>)
    ensures |bs| == Width(c)
  {
    var v := c as int;
    if v < 0x80 then [v]
    else if v < 0x800 then [0xC0 + v / 64, 0x80 + v % 64]
    else if v < 0x1_0000 then [0xE0 + v / 4096, 0x80 + v / 64 % 64, 0x80 + v % 64]
    else [0xF0 + v / 262144, 0x80 + v / 4096 % 64, 0x80 + v / 64 % 64, 0x80 + v % 64]
  }

  /** The code point that a lead byte and its continuation bytes stand for. */
  function Utf8Value(bs: seq<int>): int
    requires 1 <= |bs| <= 4
  {
    if |bs| == 1 then bs[0]
    else if |bs| == 2 then (bs[0] - 0xC0) * 64 + (bs[1] - 0x80)
    else if |bs| == 3 then (bs[0] - 0xE0) * 4096 + (bs[1] - 0x80) * 64 + (bs[2] - 0x80)
    else (bs[0] - 0xF0) * 262144 + (bs[1] - 0x80) * 4096 + (bs[2] - 0x80) * 64 + (bs[3] - 0x80)
  }

  /** A character's bytes stand for it, and only the first of them tells how many there are. */
  lemma Utf8RoundTrip(c: char)
    ensures Utf8Value(Utf8(c)) == c as int
    ensures var lead := Utf8(c)[0];
            |Utf8(c)| == if lead < 0x80 then 1 else if lead < 0xE0 then 2 else if lead < 0xF0 then 3 else 4
    ensures forall k :: 1 <= k < |Utf8(c)| ==> 0x80 <= Utf8(c)[k] < 0xC0
  {
    SixBits(c as int);
  }

  lemma SixBits(v: int)
    requires v >= 0
    ensures v / 4096 == v / 64 / 64 && v / 262144 == v / 64 / 64 / 64
    ensures v == v / 64 * 64 + v % 64
    ensures v / 64 == v / 64 / 64 * 64 + v / 64 % 64
    ensures v / 64 / 64 == v / 64 / 64 / 64 * 64 + v / 64 / 64 % 64
  {
  }

  function Bytes(s: string): nat {
    if s == [] then 0 else Width(s[0]) + Bytes(s[1..])
  }

  /** Each byte of a broken character decodes to the replacement character. */
  function Damaged(n: nat): (r: string)
    ensures |r| == n && forall i :: 0 <= i < n ==> r[i] == '\U{FFFD}'
  {
    seq(n, _ => '\U{FFFD}')
  }

  /** What the decoder sees of a text when `room` bytes of it arrive. */
  function Received(s: string, room: nat): string {
    if s == [] then []
    else if Width(s[0]) <= room then [s[0]] + Received(s[1..], room - Width(s[0]))
    else Damaged(room)
  }

  lemma {:induction false} FitsUnchanged(s: string, room: nat)
    requires Bytes(s) <= room
    ensures Received(s, room) == s
  {
    if s != [] {
      FitsUnchanged(s[1..], room - Width(s[0]));
      assert s == [s[0]] + s[1..];
    }
  }

  /** A text that does not fit arrives as a proper beginning and the remains of one character. */
  lemma {:induction false} CutText(s: string, room: nat) returns (p: string, n: nat)
    requires Bytes(s) > room
    ensures p < s && Received(s, room) == p + Damaged(n)
  {
    if Width(s[0]) <= room {
      var rest: string;
      rest, n := CutText(s[1..], room - Width(s[0]));
      p := [s[0]] + rest;
      assert s == [s[0]] + s[1..];
      assert [s[0]] + (rest + Damaged(n)) == p + Damaged(n);
    } else {
      p, n := [], room;
      assert [] + Damaged(room) == Damaged(room);
    }
  }

  /** An announcement is decoded by the receiver if and only if it fits the buffer: a longer one is never
      taken for another message. */
  lemma ReceivedExactly(m: Message)
    ensures Unmarshal(Received(Marshal(m), READ_BUFFER)) ==
            if Bytes(Marshal(m)) <= 4096 then Some(NormalMessage(m)) else None
  {
    if Bytes(Marshal(m)) <= READ_BUFFER {
      FitsUnchanged(Marshal(m), READ_BUFFER);
      UnmarshalMarshal(m);
    } else {
      var p, n := CutText(Marshal(m), READ_BUFFER);
      CutIsNoObject(MessageFields(m), p, Damaged(n));
    }
  }

  /** The receiver decodes the datagram and its signature verifies over the rebuilt payload. */
  predicate Accepted(mac: Gate.Mac, receiver: Gate.KeyManager, datagram: string, now: int) {
    var r := Unmarshal(datagram);
    r.Some? && r.value.signature.Some? && Gate.Verify(mac, receiver, Payload(r.value), r.value.signature.value, now)
  }

  /** From signing to acceptance: a trusting peer accepts an announcement signed at `at` and received at
      `now` if and only if it fits the buffer and the freshness window. */
  lemma AcceptedExactly(mac: Gate.Mac, sender: Gate.KeyManager, receiver: Gate.KeyManager, m: Message, nonce: string,
                        at: int, now: int)
    requires sender.nodeID in receiver.trustedPeers
    requires receiver.trustedPeers[sender.nodeID] == sender.sharedSecret
    requires m.signature == Some(Gate.Sign(mac, sender, Payload(m), nonce, at))
    ensures Accepted(mac, receiver, Received(Marshal(m), READ_BUFFER), now) <==>
            && Bytes(Marshal(m)) <= 4096
            && Unix(at) * SECOND <= now < (Unix(at) + Gate.REPLAY_TTL + 1) * SECOND
  {
    ReceivedExactly(m);
    NormalSamePayload(m);
    Gate.SignedIsAccepted(mac, sender, receiver, Payload(m), nonce, at, now);
  }
}
