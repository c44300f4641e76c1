/**
 * What the NSS module makes of a response as it comes out of the socket: JSON and a newline, cut off
 * where the buffer or the connection ends (read_response in libnss/nss_disco.c).
 */
module NssResponse {
  import opened NssScan

  // ----- cutting a text -----

  lemma MatchInCut(u: string, n: nat, k: nat, pat: string)
    requires n <= |u|
    ensures MatchAt(u[..n], k, pat) <==> MatchAt(u, k, pat) && k + |pat| <= n
  {
    if k + |pat| <= n {
      assert u[..n][k..k + |pat|] == u[k..k + |pat|];
    }
  }

  lemma StrstrCut(u: string, n: nat, pat: string)
    requires n <= |u|
    ensures var q := Strstr(u, 0, pat);
            Strstr(u[..n], 0, pat) == if q != -1 && q + |pat| <= n then q else -1
  {
    var q, q' := Strstr(u, 0, pat), Strstr(u[..n], 0, pat);
    forall k: nat { MatchInCut(u, n, k, pat); }
    if q' != -1 {
      assert MatchAt(u, q', pat);
    }
    if q != -1 && q + |pat| <= n {
      assert MatchAt(u[..n], q, pat);
    }
  }

  lemma StrchrCut(u: string, n: nat, from: nat, c: char)
    requires from <= n <= |u|
    ensures var i := Strchr(u, from, c);
            Strchr(u[..n], from, c) == if i != -1 && i < n then i else -1
  {
    var i := Strchr(u, from, c);
    if i != -1 && i < n {
      assert u[..n][from..i] == u[from..i];
      StrchrIs(u[..n], from, c, i);
    } else {
      var j := Strchr(u[..n], from, c);
      if j != -1 {
        assert u[..n][from..j] == u[from..j];
        StrchrIs(u, from, c, j);
      }
    }
  }

  lemma {:induction false} TurnCut(u: string, n: nat, p: nat, close: nat, validIp: string -> bool)
    requires p <= close < n <= |u|
    ensures TurnAt(u[..n], p, close, validIp) == TurnAt(u, p, close, validIp)
    decreases close - p
  {
    if p < close && u[p] != ']' {
      if Separator(u[p]) {
        TurnCut(u, n, p + 1, close, validIp);
      } else if u[p] == '"' {
        StrchrCut(u, n, p + 1, '"');
        var end := Strchr(u, p + 1, '"');
        if end != -1 && end < close {
          assert u[..n][p + 1..end] == u[p + 1..end];
        }
      }
    }
  }

  lemma {:induction false} ScanFromCut(u: string, n: nat, p: nat, close: nat, count: nat, validIp: string -> bool)
    requires close < n <= |u|
    ensures ScanFrom(u[..n], p, close, count, validIp) == ScanFrom(u, p, close, count, validIp)
    decreases |u| - p
  {
    if p < close && count < MAX_ADDRS {
      TurnCut(u, n, p, close, validIp);
      var t := TurnAt(u, p, close, validIp);
      if t.GoOn? {
        ScanFromCut(u, n, t.next, close, count, validIp);
        ScanFromCut(u, n, t.next, close, count + 1, validIp);
      }
    }
  }

  /** Where the bracket that the scanner takes for the end of the array is, or -1. */
  function ArrayEnd(u: string): (close: int)
    ensures -1 <= close < |u|
    ensures close != -1 ==> u[close] == ']'
  {
    var key := Strstr(u, 0, KEY);
    if key == -1 then -1
    else
      var open := Strchr(u, key, '[');
      if open == -1 then -1 else Strchr(u, open, ']')
  }

  /** Cut anywhere, a text yields all its addresses if the end of the array is still there, and none
      otherwise: never some of them, and never a wrong one. */
  lemma ScanCutExactly(u: string, n: nat, validIp: string -> bool)
    requires n <= |u|
    ensures Scan(u[..n], validIp) == if -1 < ArrayEnd(u) < n then Scan(u, validIp) else []
  {
    var key := Strstr(u, 0, KEY);
    StrstrCut(u, n, KEY);
    if key != -1 && key + |KEY| <= n {
      var open := Strchr(u, key, '[');
      StrchrCut(u, n, key, '[');
      if open != -1 && open < n {
        StrchrCut(u, n, open, ']');
        var close := Strchr(u, open, ']');
        if close != -1 && close < n {
          ScanFromCut(u, n, open + 1, close, 0, validIp);
        }
      }
    } else if key != -1 {
      KeyBeforeEnd(u, n);
    }
  }

  /** The key ends before the array does. */
  lemma KeyBeforeEnd(u: string, n: nat)
    requires Strstr(u, 0, KEY) != -1 && n < Strstr(u, 0, KEY) + |KEY|
    ensures !(-1 < ArrayEnd(u) < n)
  {
    var key := Strstr(u, 0, KEY);
    var part := u[key..key + |KEY|];
    assert part == KEY && '[' !in part;
    assert forall k :: key <= k < key + |KEY| ==> u[k] == part[k - key];
  }

  // ----- responses -----

  /** What the daemon writes to the socket. */
  function ResponseText(requestId: string, name: string, addrs: seq<string>): string {
    ResponseJson(requestId, name, addrs) + "\n"
  }

  lemma NewlineDoesNotMatter(json: string, validIp: string -> bool)
    ensures Scan(json + "\n", validIp) == Scan(json, validIp)
  {
    var u := json + "\n";
    assert u[..|json|] == json && u[..|u|] == u;
    ScanCutExactly(u, |json|, validIp);
    ScanCutExactly(u, |u|, validIp);
  }

  /** The scanner inverts the daemon's encoder: from every OK response it returns the first four valid
      addresses in order, whatever the host name is, as long as the quoted request id does not end in
      the key and the addresses need no escaping and contain no closing bracket. */
  lemma ScanInvertsEncoder(requestId: string, name: string, addrs: seq<string>, validIp: string -> bool)
    requires !HoldsKey(requestId)
    requires forall i :: 0 <= i < |addrs| ==> AddressText(addrs[i])
    ensures Scan(ResponseText(requestId, name, addrs), validIp) == FirstKept(addrs, MAX_ADDRS, validIp)
  {
    JsonScanned(requestId, name, addrs, validIp);
    NewlineDoesNotMatter(ResponseJson(requestId, name, addrs), validIp);
  }

  /** Text without blanks, of at most 63 characters. */
  predicate ShortText(a: string) {
    1 <= |a| <= 63 && ' ' !in a && '\t' !in a
  }

  lemma ShortTextKept(a: string, validIp: string -> bool)
    requires ShortText(a)
    ensures Kept(a, validIp) <==> validIp(a)
    ensures Trim(a) == a
  {
    assert a[0] in a && a[|a| - 1] in a;
  }

  /** Longer text is never taken for an address. */
  lemma LongTextSkipped(a: string, validIp: string -> bool)
    requires |a| >= 64 || a == ""
    ensures !Kept(a, validIp)
  {
  }

  function ValidOnes(addrs: seq<string>, validIp: string -> bool): seq<string> {
    if addrs == [] then []
    else (if validIp(addrs[0]) then [addrs[0]] else []) + ValidOnes(addrs[1..], validIp)
  }

  function FirstOf(addrs: seq<string>, n: nat): seq<string> {
    if |addrs| <= n then addrs else addrs[..n]
  }

  lemma {:induction false} FirstKeptValid(addrs: seq<string>, n: nat, validIp: string -> bool)
    requires forall i :: 0 <= i < |addrs| ==> ShortText(addrs[i])
    ensures FirstKept(addrs, n, validIp) == FirstOf(ValidOnes(addrs, validIp), n)
  {
    if addrs != [] && n > 0 {
      ShortTextKept(addrs[0], validIp);
      FirstKeptValid(addrs[1..], if validIp(addrs[0]) then n - 1 else n, validIp);
    }
  }

  /** From a response with short addresses the first four valid ones are read back as they are. */
  lemma ReadsFirstFour(requestId: string, name: string, addrs: seq<string>, validIp: string -> bool)
    requires !HoldsKey(requestId)
    requires forall i :: 0 <= i < |addrs| ==> AddressText(addrs[i]) && ShortText(addrs[i])
    ensures Scan(ResponseText(requestId, name, addrs), validIp) == FirstOf(ValidOnes(addrs, validIp), 4)
  {
    ScanInvertsEncoder(requestId, name, addrs, validIp);
    FirstKeptValid(addrs, 4, validIp);
  }

  /** What is found is sound for every text, well-formed or not: at most four addresses, each of them valid
      and of at most 63 characters. */
  lemma ScanIsSound(json: string, validIp: string -> bool)
    ensures |Scan(json, validIp)| <= 4
    ensures forall a :: a in Scan(json, validIp) ==> validIp(a) && |a| <= 63
  {
    if Scan(json, validIp) != [] {
      var p, close := ScanPlace(json, validIp);
      ScanFromSound(json, p, close, 0, validIp);
    }
  }

  lemma ScanPlace(json: string, validIp: string -> bool) returns (p: nat, close: nat)
    requires Scan(json, validIp) != []
    ensures close <= |json| && Scan(json, validIp) == ScanFrom(json, p, close, 0, validIp)
  {
    var open := Strchr(json, Strstr(json, 0, KEY), '[');
    p, close := open + 1, Strchr(json, open, ']');
  }

  lemma {:induction false} ScanFromSound(json: string, p: nat, close: nat, count: nat, validIp: string -> bool)
    requires close <= |json| && count <= 4
    ensures |ScanFrom(json, p, close, count, validIp)| <= 4 - count
    ensures forall a :: a in ScanFrom(json, p, close, count, validIp) ==> validIp(a) && |a| <= 63
    decreases |json| - p
  {
    if p < close && count < MAX_ADDRS {
      TurnSound(json, p, close, validIp);
      var t := TurnAt(json, p, close, validIp);
      if t.GoOn? {
        ScanFromSound(json, t.next, close, if t.addr.Some? then count + 1 else count, validIp);
      }
    }
  }

  lemma {:induction false} TurnSound(json: string, p: nat, close: nat, validIp: string -> bool)
    requires p <= close <= |json|
    ensures var t := TurnAt(json, p, close, validIp);
            t.GoOn? && t.addr.Some? ==> validIp(t.addr.value) && |t.addr.value| <= 63
    decreases close - p
  {
    if p < close && json[p] != ']' {
      if Separator(json[p]) {
        TurnSound(json, p + 1, close, validIp);
      } else if json[p] == '"' {
        var end := Strchr(json, p + 1, '"');
        if end != -1 && end < close {
          var left, right := TrimExactly(json[p + 1..end]);
        }
      }
    }
  }

  /** A response that does not fit the buffer, or breaks off, yields either exactly those addresses or
      none, according to whether the end of the array was received. */
  lemma CutResponse(requestId: string, name: string, addrs: seq<string>, validIp: string -> bool, n: nat)
    requires !HoldsKey(requestId) && n <= |ResponseText(requestId, name, addrs)|
    requires forall i :: 0 <= i < |addrs| ==> AddressText(addrs[i])
    ensures var u := ResponseText(requestId, name, addrs);
            Scan(u[..n], validIp) == if -1 < ArrayEnd(u) < n then FirstKept(addrs, MAX_ADDRS, validIp) else []
  {
    ScanInvertsEncoder(requestId, name, addrs, validIp);
    ScanCutExactly(ResponseText(requestId, name, addrs), n, validIp);
  }

  /** With an unsafe request id and a host named "[]", no address is found, whatever the response
      carries. */
  lemma RequestIdCanMislead(requestId: string, addrs: seq<string>, validIp: string -> bool)
    requires HoldsKey(requestId)
    ensures Scan(ResponseText(requestId, "[]", addrs), validIp) == []
  {
    JsonMisleads(requestId, addrs, validIp);
    NewlineDoesNotMatter(ResponseJson(requestId, "[]", addrs), validIp);
  }

  /** The request ids for which every response is read correctly are exactly those whose quoted form
      does not end in the key. */
  lemma SafeIdsExactly(requestId: string, addr: string, validIp: string -> bool)
    requires AddressText(addr) && Kept(addr, validIp)
    ensures !HoldsKey(requestId) <==>
            forall name, addrs: seq<string> :: (forall i :: 0 <= i < |addrs| ==> AddressText(addrs[i])) ==>
              Scan(ResponseText(requestId, name, addrs), validIp) == FirstKept(addrs, MAX_ADDRS, validIp)
  {
    if HoldsKey(requestId) {
      RequestIdCanMislead(requestId, [addr], validIp);
      assert Scan(ResponseText(requestId, "[]", [addr]), validIp) != FirstKept([addr], MAX_ADDRS, validIp);
    } else {
      forall name, addrs: seq<string> | forall i :: 0 <= i < |addrs| ==> AddressText(addrs[i])
        ensures Scan(ResponseText(requestId, name, addrs), validIp) == FirstKept(addrs, MAX_ADDRS, validIp)
      {
        ScanInvertsEncoder(requestId, name, addrs, validIp);
      }
    }
  }
}
