/**
 * The NSS module's JSON scanner (extract_json_addrs in libnss/nss_disco.c) against the daemon's
 * encoder (internal/nss/protocol.go).
 *
 * The scanner does not parse JSON: it searches for the key, then for brackets, then for quotes.  The
 * response is the text before the terminating NUL; `validIp` stands for validate_ip.
 */
module NssScan {
  import opened Common
  import opened Json
  import opened Decimal
  import SignedPayload

  const MAX_ADDRS := 4
  const ADDR_BUF := 64

  /** `strchr` from an offset: the first occurrence at or after it, or -1. */
  function Strchr(s: string, from: nat, c: char): (i: int)
    requires from <= |s|
    ensures i == -1 ==> c !in s[from..]
    ensures i != -1 ==> from <= i < |s| && s[i] == c && c !in s[from..i]
    decreases |s| - from
  {
    if from == |s| then -1
    else if s[from] == c then from
    else
      var i := Strchr(s, from + 1, c);
      assert s[from..] == [s[from]] + s[from + 1..];
      assert i != -1 ==> s[from..i] == [s[from]] + s[from + 1..i];
      i
  }

  predicate MatchAt(s: string, i: nat, pat: string) {
    i + |pat| <= |s| && s[i..i + |pat|] == pat
  }

  /** `strstr` from an offset: the first match at or after it, or -1. */
  function Strstr(s: string, from: nat, pat: string): (i: int)
    requires from <= |s|
    ensures i == -1 ==> forall k :: from <= k <= |s| ==> !MatchAt(s, k, pat)
    ensures i != -1 ==> from <= i <= |s| && MatchAt(s, i, pat) && forall k :: from <= k < i ==> !MatchAt(s, k, pat)
    decreases |s| - from
  {
    if MatchAt(s, from, pat) then from
    else if from == |s| then -1
    else Strstr(s, from + 1, pat)
  }

  // ----- what the scanner computes -----

  predicate Blank(c: char) {
    c == ' ' || c == '\t'
  }

  predicate Separator(c: char) {
    c == ' ' || c == '\t' || c == '\n' || c == ','
  }

  function TrimLeft(s: string): string {
    if s != [] && Blank(s[0]) then TrimLeft(s[1..]) else s
  }

  function TrimRight(s: string): string {
    if s != [] && Blank(s[|s| - 1]) then TrimRight(s[..|s| - 1]) else s
  }

  function Trim(s: string): string {
    TrimRight(TrimLeft(s))
  }

  /** The quoted text is kept: not empty, short enough, and a valid address once trimmed. */
  predicate Kept(a: string, validIp: string -> bool) {
    0 < |a| < ADDR_BUF && TrimLeft(a) != [] && validIp(Trim(a))
  }

  /** One turn of the scan: stop, or go on at `next`, possibly with an address. */
  datatype Turn = Stop | GoOn(next: nat, addr: Option<string>)

  function TurnAt(s: string, p: nat, close: nat, validIp: string -> bool): (t: Turn)
    requires p <= close <= |s|
    ensures t.GoOn? ==> p < t.next <= |s|
    decreases close - p
  {
    if p == close || s[p] == ']' then Stop
    else if Separator(s[p]) then TurnAt(s, p + 1, close, validIp)
    else if s[p] != '"' then GoOn(p + 1, None)
    else
      var end := Strchr(s, p + 1, '"');
      if end == -1 || end >= close then Stop else GoOn(end + 1, Outcome(s[p + 1..end], validIp))
  }

  /** What the scan makes of one quoted text. */
  function Outcome(a: string, validIp: string -> bool): Option<string> {
    if Kept(a, validIp) then Some(Trim(a)) else None
  }

  /** The addresses found between `p` and the closing bracket when `count` are already in hand. */
  function ScanFrom(s: string, p: nat, close: nat, count: nat, validIp: string -> bool): seq<string>
    requires close <= |s|
    decreases |s| - p
  {
    if p >= close || count >= MAX_ADDRS then []
    else
      match TurnAt(s, p, close, validIp)
      case Stop => []
      case GoOn(next, None) => ScanFrom(s, next, close, count, validIp)
      case GoOn(next, Some(a)) => [a] + ScanFrom(s, next, close, count + 1, validIp)
  }

  const KEY := "\"addrs\""

  function Scan(json: string, validIp: string -> bool): seq<string> {
    var key := Strstr(json, 0, KEY);
    if key == -1 then []
    else
      var open := Strchr(json, key, '[');
      if open == -1 then []
      else
        var close := Strchr(json, open, ']');
        if close == -1 then [] else ScanFrom(json, open + 1, close, 0, validIp)
  }

  predicate AllBlank(s: string) {
    forall i :: 0 <= i < |s| ==> s[i] == ' ' || s[i] == '\t'
  }

  /** Trimming takes blanks and tabs off both ends and leaves none there. */
  lemma TrimExactly(s: string) returns (left: string, right: string)
    ensures s == left + Trim(s) + right && AllBlank(left) && AllBlank(right)
    ensures var t := Trim(s);
            t != [] ==> t[0] != ' ' && t[0] != '\t' && t[|t| - 1] != ' ' && t[|t| - 1] != '\t'
  {
    left := TrimLeftExactly(s);
    right := TrimRightExactly(TrimLeft(s));
    assert s == left + (Trim(s) + right);
  }

  lemma {:induction false} TrimLeftExactly(s: string) returns (left: string)
    ensures s == left + TrimLeft(s) && AllBlank(left)
    ensures TrimLeft(s) != [] ==> TrimLeft(s)[0] != ' ' && TrimLeft(s)[0] != '\t'
  {
    left := [];
    if s != [] && Blank(s[0]) {
      var rest := TrimLeftExactly(s[1..]);
      left := [s[0]] + rest;
      assert s == [s[0]] + s[1..];
    }
  }

  lemma {:induction false} TrimRightExactly(s: string) returns (right: string)
    ensures s == TrimRight(s) + right && AllBlank(right)
    ensures var t := TrimRight(s);
            t != [] ==> t[0] == s[0] && t[|t| - 1] != ' ' && t[|t| - 1] != '\t'
  {
    right := [];
    if s != [] && Blank(s[|s| - 1]) {
      var rest := TrimRightExactly(s[..|s| - 1]);
      right := rest + [s[|s| - 1]];
      assert s == s[..|s| - 1] + [s[|s| - 1]];
    }
  }

  // ----- the code -----

  method TrimBlanks(a: string) returns (t: string)
    ensures t == Trim(a)
  {
    var start := 0;
    while start < |a| && Blank(a[start])
      invariant 0 <= start <= |a|
      invariant TrimLeft(a) == TrimLeft(a[start..])
    {
      assert a[start..][1..] == a[start + 1..];
      start := start + 1;
    }
    var trimmed := a[start..];
    var end := |trimmed|;
    assert trimmed[..end] == trimmed;
    while end > 0 && Blank(trimmed[end - 1])
      invariant 0 <= end <= |trimmed|
      invariant TrimRight(trimmed) == TrimRight(trimmed[..end])
    {
      assert trimmed[..end][..end - 1] == trimmed[..end - 1];
      end := end - 1;
    }
    t := trimmed[..end];
  }

  method SkipBlanks(json: string, from: nat, close: nat, ghost validIp: string -> bool) returns (p: nat)
    requires from <= close <= |json|
    ensures from <= p <= close && (p < close ==> !Separator(json[p]))
    ensures TurnAt(json, from, close, validIp) == TurnAt(json, p, close, validIp)
  {
    p := from;
    while p < close && Separator(json[p])
      invariant from <= p <= close
      invariant TurnAt(json, from, close, validIp) == TurnAt(json, p, close, validIp)
    {
      p := p + 1;
    }
  }

  method KeepAddress(text: string, validIp: string -> bool) returns (kept: bool, trimmed: string)
    ensures kept == Kept(text, validIp)
    ensures kept ==> trimmed == Trim(text)
  {
    kept, trimmed := false, "";
    if 0 < |text| < ADDR_BUF {
      trimmed := TrimBlanks(text);
      kept := TrimLeft(text) != [] && validIp(trimmed);
    }
  }

  /** One turn of the scanning loop. */
  method TakeTurn(json: string, p: nat, close: nat, validIp: string -> bool) returns (t: Turn)
    requires p < close <= |json|
    ensures t == TurnAt(json, p, close, validIp)
  {
    var q := SkipBlanks(json, p, close, validIp);
    if q >= close || json[q] == ']' {
      return Stop;
    }
    if json[q] != '"' {
      return GoOn(q + 1, None);
    }
    var end := Strchr(json, q + 1, '"');
    if end == -1 || end >= close {
      return Stop;
    }
    var kept, trimmed := KeepAddress(json[q + 1..end], validIp);
    t := GoOn(end + 1, if kept then Some(trimmed) else None);
  }

  lemma AfterTurn(s: string, p: nat, close: nat, count: nat,
                  validIp: string -> bool, rest: seq<string>, rest': seq<string>)
    requires p < close <= |s| && count < MAX_ADDRS && rest == ScanFrom(s, p, close, count, validIp)
    requires var t := TurnAt(s, p, close, validIp);
             t.GoOn? && rest' == ScanFrom(s, t.next, close, if t.addr.Some? then count + 1 else count, validIp)
    ensures var t := TurnAt(s, p, close, validIp);
            rest == if t.addr.Some? then [t.addr.value] + rest' else rest'
  {
  }

  lemma Shift(front: seq<string>, x: string, back: seq<string>)
    ensures front + ([x] + back) == front + [x] + back
  {
  }

  /** The loop over the bracketed part. */
  method ScanArray(json: string, start: nat, close: nat, validIp: string -> bool) returns (addrs: seq<string>)
    requires close <= |json|
    ensures addrs == ScanFrom(json, start, close, 0, validIp)
  {
    addrs := [];
    var p := start;
    ghost var all := ScanFrom(json, start, close, 0, validIp);
    ghost var rest := all;
    while p < close && |addrs| < MAX_ADDRS
      invariant rest == ScanFrom(json, p, close, |addrs|, validIp)
      invariant addrs + rest == all
      decreases |json| - p
    {
      var t := TakeTurn(json, p, close, validIp);
      if t.Stop? {
        return;
      }
      ghost var rest' := ScanFrom(json, t.next, close, if t.addr.Some? then |addrs| + 1 else |addrs|, validIp);
      AfterTurn(json, p, close, |addrs|, validIp, rest, rest');
      if t.addr.Some? {
        Shift(addrs, t.addr.value, rest');
        addrs := addrs + [t.addr.value];
      }
      p, rest := t.next, rest';
    }
  }

  method ExtractJsonAddrs(json: string, validIp: string -> bool) returns (addrs: seq<string>, ok: bool)
    ensures addrs == Scan(json, validIp) && ok == (addrs != [])
  {
    var arrayStart := Strstr(json, 0, KEY);
    if arrayStart == -1 {
      return [], false;
    }
    var open := Strchr(json, arrayStart, '[');
    if open == -1 {
      return [], false;
    }
    var close := Strchr(json, open, ']');
    if close == -1 {
      return [], false;
    }
    addrs := ScanArray(json, open + 1, close, validIp);
    ok := |addrs| > 0;
  }

  // ----- the scanner on an encoded address array -----

  /** Text the encoder writes as it is. */
  predicate PlainText(a: string) {
    forall i :: 0 <= i < |a| ==> EscapeChar(a[i]) == [a[i]]
  }

  predicate AddressText(a: string) {
    PlainText(a) && ']' !in a
  }

  lemma {:induction false} EscapePlain(a: string)
    requires PlainText(a)
    ensures Escape(a) == a
  {
    if a != [] {
      EscapePlain(a[1..]);
      assert a == [a[0]] + a[1..];
    }
  }

  lemma PlainHasNoQuote(a: string)
    requires PlainText(a)
    ensures '"' !in a
  {
  }

  /** The first `n` addresses that are kept, trimmed, in order. */
  function FirstKept(addrs: seq<string>, n: nat, validIp: string -> bool): seq<string> {
    if addrs == [] || n == 0 then []
    else if Kept(addrs[0], validIp) then [Trim(addrs[0])] + FirstKept(addrs[1..], n - 1, validIp)
    else FirstKept(addrs[1..], n, validIp)
  }

  /** The encoded addresses and the closing bracket. */
  function Items(addrs: seq<string>): string
    requires addrs != []
  {
    WriteItems(SignedPayload.Strings(addrs))
  }

  lemma ItemsShape(addrs: seq<string>)
    requires addrs != [] && PlainText(addrs[0])
    ensures Items(addrs) == ['"'] + addrs[0] + ['"'] + if |addrs| == 1 then "]" else "," + Items(addrs[1..])
  {
    EscapePlain(addrs[0]);
    var vs := SignedPayload.Strings(addrs);
    assert Write(vs[0]) == ['"'] + addrs[0] + ['"'];
    if |addrs| > 1 {
      assert vs[1..] == SignedPayload.Strings(addrs[1..]);
    }
  }

  lemma {:induction false} StrchrIs(s: string, from: nat, c: char, i: nat)
    requires from <= i < |s| && s[i] == c && c !in s[from..i]
    ensures Strchr(s, from, c) == i
    decreases i - from
  {
    if from < i {
      assert s[from..i][0] == s[from];
      assert s[from + 1..i] == s[from..i][1..];
      StrchrIs(s, from + 1, c, i);
    }
  }

  lemma SkipComma(s: string, p: nat, close: nat, count: nat, validIp: string -> bool)
    requires p + 1 < close <= |s| && s[p] == ','
    ensures ScanFrom(s, p, close, count, validIp) == ScanFrom(s, p + 1, close, count, validIp)
  {
    assert TurnAt(s, p, close, validIp) == TurnAt(s, p + 1, close, validIp);
  }

  lemma TurnQuoted(s: string, p: nat, close: nat, a: string, validIp: string -> bool)
    requires p + |a| + 2 <= close <= |s|
    requires s[p] == '"' && s[p + 1..p + 1 + |a|] == a && s[p + 1 + |a|] == '"' && '"' !in a
    ensures TurnAt(s, p, close, validIp) == GoOn(p + |a| + 2, Outcome(a, validIp))
  {
    StrchrIs(s, p + 1, '"', p + 1 + |a|);
  }

  predicate TextAt(s: string, p: nat, w: string) {
    p + |w| <= |s| && s[p..p + |w|] == w
  }

  lemma TextAtSplit(s: string, p: nat, a: string, b: string)
    requires TextAt(s, p, a + b)
    ensures TextAt(s, p, a) && TextAt(s, p + |a|, b)
  {
    var t := s[p..p + |a + b|];
    assert s[p..p + |a|] == t[..|a|] == a;
    assert s[p + |a|..p + |a| + |b|] == t[|a|..] == b;
  }

  lemma CharAt(s: string, p: nat, c: char)
    requires TextAt(s, p, [c])
    ensures s[p] == c
  {
    assert s[p] == s[p..p + 1][0];
  }

  lemma QuotedAt(s: string, p: nat, a: string)
    requires TextAt(s, p, ['"'] + a + ['"'])
    ensures s[p] == '"' && s[p + 1..p + 1 + |a|] == a && s[p + 1 + |a|] == '"'
  {
    TextAtSplit(s, p, ['"'] + a, ['"']);
    TextAtSplit(s, p, ['"'], a);
    CharAt(s, p, '"');
    CharAt(s, p + 1 + |a|, '"');
  }

  /** Where the parts of an encoded array are. */
  lemma ItemsAt(s: string, p: nat, addrs: seq<string>)
    requires addrs != [] && PlainText(addrs[0]) && TextAt(s, p, Items(addrs))
    ensures var a, next := addrs[0], p + |addrs[0]| + 2;
            && |Items(addrs)| == |a| + 2 + (if |addrs| == 1 then 1 else 1 + |Items(addrs[1..])|)
            && s[p] == '"' && s[p + 1..p + 1 + |a|] == a && s[p + 1 + |a|] == '"'
            && (|addrs| > 1 ==> s[next] == ',' && TextAt(s, next + 1, Items(addrs[1..])))
  {
    ItemsShape(addrs);
    var a := addrs[0];
    var quoted := ['"'] + a + ['"'];
    if |addrs| == 1 {
      TextAtSplit(s, p, quoted, "]");
    } else {
      var more := [','] + Items(addrs[1..]);
      TextAtSplit(s, p, quoted, more);
      TextAtSplit(s, p + |quoted|, [','], Items(addrs[1..]));
      CharAt(s, p + |quoted|, ',');
    }
    QuotedAt(s, p, a);
  }

  lemma NothingLeft(s: string, p: nat, close: nat, count: nat, validIp: string -> bool)
    requires close <= |s| && (p >= close || count >= MAX_ADDRS)
    ensures ScanFrom(s, p, close, count, validIp) == []
    ensures FirstKept([], MAX_ADDRS, validIp) == []
  {
  }

  /** Quoted texts separated by commas start at `p` and end just before `close`. */
  predicate ArrayAt(s: string, p: nat, close: nat, addrs: seq<string>)
    requires close < |s|
    decreases |addrs|
  {
    && addrs != [] && p + |addrs[0]| + 2 <= close
    && s[p] == '"' && s[p + 1..p + 1 + |addrs[0]|] == addrs[0] && s[p + 1 + |addrs[0]|] == '"' && '"' !in addrs[0]
    && var next := p + |addrs[0]| + 2;
       if |addrs| == 1 then next == close
       else next + 1 < close && s[next] == ',' && ArrayAt(s, next + 1, close, addrs[1..])
  }

  lemma {:induction false} ItemsAreArray(s: string, p: nat, addrs: seq<string>)
    requires addrs != [] && forall i :: 0 <= i < |addrs| ==> PlainText(addrs[i])
    requires TextAt(s, p, Items(addrs))
    ensures |Items(addrs)| >= 3 && ArrayAt(s, p, p + |Items(addrs)| - 1, addrs)
    decreases |addrs|
  {
    ItemsAt(s, p, addrs);
    PlainHasNoQuote(addrs[0]);
    if |addrs| > 1 {
      ItemsAreArray(s, p + |addrs[0]| + 3, addrs[1..]);
    }
  }

  lemma ScanCons(s: string, p: nat, close: nat, count: nat, next: nat, addrs: seq<string>, validIp: string -> bool)
    requires p < close <= |s| && count < MAX_ADDRS && addrs != []
    requires TurnAt(s, p, close, validIp) == GoOn(next, Outcome(addrs[0], validIp))
    requires var count' := if Kept(addrs[0], validIp) then count + 1 else count;
             ScanFrom(s, next, close, count', validIp) == FirstKept(addrs[1..], MAX_ADDRS - count', validIp)
    ensures ScanFrom(s, p, close, count, validIp) == FirstKept(addrs, MAX_ADDRS - count, validIp)
  {
  }

  lemma {:induction false} ScanItems(s: string, p: nat, close: nat, addrs: seq<string>, count: nat,
                                     validIp: string -> bool)
    requires close < |s| && ArrayAt(s, p, close, addrs) && count <= MAX_ADDRS
    ensures ScanFrom(s, p, close, count, validIp) == FirstKept(addrs, MAX_ADDRS - count, validIp)
    decreases |addrs|
  {
    if count == MAX_ADDRS {
      NothingLeft(s, p, close, count, validIp);
    } else {
      TurnQuoted(s, p, close, addrs[0], validIp);
      var next := p + |addrs[0]| + 2;
      var count' := if Kept(addrs[0], validIp) then count + 1 else count;
      if |addrs| == 1 {
        NothingLeft(s, next, close, count', validIp);
      } else {
        ScanItems(s, next + 1, close, addrs[1..], count', validIp);
        SkipComma(s, next, close, count', validIp);
      }
      ScanCons(s, p, close, count, next, addrs, validIp);
    }
  }

  // ----- finding the array -----

  lemma {:induction false} EscapedQuotes(s: string, i: nat)
    requires i < |Escape(s)| && Escape(s)[i] == '"'
    ensures i > 0 && Escape(s)[i - 1] == '\\'
    decreases |s|
  {
    var e, r := EscapeChar(s[0]), Escape(s[1..]);
    assert Escape(s) == e + r;
    if i < |e| {
      EscapedCharQuotes(s[0], i);
    } else {
      EscapedQuotes(s[1..], i - |e|);
    }
  }

  lemma EscapedCharQuotes(c: char, i: nat)
    requires i < |EscapeChar(c)| && EscapeChar(c)[i] == '"'
    ensures i == 1 && EscapeChar(c)[0] == '\\'
  {
  }

  const PREFIX := "{\"type\":\"OK\",\"request_id\":\""
  const NAME_KEY := ",\"name\":\""

  /** What comes before the closing quote of the last string ahead of the address array. */
  function NameTail(name: string): string {
    if name == "" then "" else NAME_KEY + Escape(name) + "\""
  }

  function Head(requestId: string, name: string): string {
    PREFIX + Escape(requestId) + "\"" + NameTail(name)
  }

  /** No quote of the text directly follows the letter s. */
  predicate NoQuoteAfterS(t: string) {
    forall i :: 0 < i < |t| && t[i] == '"' ==> t[i - 1] != 's'
  }

  lemma ConcatClean(a: string, e: string)
    requires NoQuoteAfterS(a)
    requires forall i :: 0 <= i < |e| && e[i] == '"' ==> i > 0 && e[i - 1] == '\\'
    ensures NoQuoteAfterS(a + e)
  {
    var t := a + e;
    assert forall i :: 0 <= i < |a| ==> t[i] == a[i];
    assert forall i :: |a| <= i < |t| ==> t[i] == e[i - |a|];
  }

  lemma NoQuoteAfterSEscaped(a: string, s: string)
    requires NoQuoteAfterS(a)
    ensures NoQuoteAfterS(a + Escape(s))
  {
    var e := Escape(s);
    forall i | 0 <= i < |e| && e[i] == '"'
      ensures i > 0 && e[i - 1] == '\\'
    {
      EscapedQuotes(s, i);
    }
    ConcatClean(a, e);
  }

  lemma LiteralsClean()
    ensures NoQuoteAfterS(PREFIX)
    ensures NoQuoteAfterS("\"" + NAME_KEY)
  {
  }

  /** A quote that follows the letter s lies outside a clean part of the text. */
  lemma OutsideClean(t: string, off: nat, z: string, c: nat)
    requires TextAt(t, off, z) && NoQuoteAfterS(z)
    requires off < c < |t| && t[c] == '"' && t[c - 1] == 's'
    ensures c >= off + |z|
  {
    var part := t[off..off + |z|];
    assert forall i :: off <= i < off + |z| ==> t[i] == part[i - off];
  }

  lemma QuoteAfterOne(x: string, c: nat)
    requires NoQuoteAfterS(x)
    requires 0 < c < |x| + 1 && (x + "\"")[c] == '"' && (x + "\"")[c - 1] == 's'
    ensures c == |x|
  {
    var h := x + "\"";
    assert h[..|x|] == x;
    OutsideClean(h, 0, x, c);
  }

  lemma QuoteAfterTwo(x: string, z: string, c: nat)
    requires NoQuoteAfterS(x) && NoQuoteAfterS(z)
    requires 0 < c < |x| + |z| + 1 && (x + z + "\"")[c] == '"' && (x + z + "\"")[c - 1] == 's'
    ensures c == |x| || c == |x| + |z|
  {
    var h := x + z + "\"";
    assert h[..|x|] == x && h[|x|..|x| + |z|] == z;
    OutsideClean(h, 0, x, c);
    if c > |x| {
      OutsideClean(h, |x|, z, c);
    }
  }

  lemma HeadParts(requestId: string, name: string)
    ensures var x := PREFIX + Escape(requestId);
            var z := "\"" + NAME_KEY + Escape(name);
            && NoQuoteAfterS(x) && NoQuoteAfterS(z)
            && Head(requestId, name) == if name == "" then x + "\"" else x + z + "\""
  {
    LiteralsClean();
    NoQuoteAfterSEscaped(PREFIX, requestId);
    NoQuoteAfterSEscaped("\"" + NAME_KEY, name);
    RegroupHead(PREFIX + Escape(requestId), Escape(name));
  }

  lemma RegroupHead(x: string, n: string)
    ensures x + "\"" + (NAME_KEY + n + "\"") == x + ("\"" + NAME_KEY + n) + "\""
    ensures x + "\"" + "" == x + "\""
  {
  }

  /** The only places in the head where a quote can follow the letter s. */
  lemma HeadQuotes(requestId: string, name: string, c: nat)
    requires 0 < c < |Head(requestId, name)|
    requires Head(requestId, name)[c] == '"' && Head(requestId, name)[c - 1] == 's'
    ensures c == |PREFIX + Escape(requestId)| || (name != "" && c == |Head(requestId, name)| - 1)
  {
    HeadParts(requestId, name);
    if name == "" {
      QuoteAfterOne(PREFIX + Escape(requestId), c);
    } else {
      QuoteAfterTwo(PREFIX + Escape(requestId), "\"" + NAME_KEY + Escape(name), c);
    }
  }

  /** The quoted request id ends in the scanner's key: it is "addrs", or ends in a quote and "addrs". */
  predicate HoldsKey(requestId: string) {
    EndsInKey("\"" + Escape(requestId))
  }

  predicate EndsInKey(t: string) {
    |t| >= 6 && t[|t| - 6..] == "\"addrs"
  }

  lemma LastLetters(x: string)
    requires EndsInKey(x)
    ensures forall k :: |x| - 5 <= k < |x| ==> x[k] != '"'
  {
    var last := x[|x| - 6..];
    assert forall k :: 1 <= k < 6 ==> last[k] != '"';
    forall k | |x| - 5 <= k < |x|
      ensures x[k] != '"'
    {
      assert x[k] == last[k - (|x| - 6)];
    }
  }

  lemma SuffixInside(a: string, t: string)
    requires |t| >= 6 && EndsInKey(a + t)
    ensures EndsInKey(t)
  {
    assert t[|t| - 6..] == (a + t)[|a + t| - 6..];
  }

  /** The key's letters directly before the closing quote of the request id are the id's own. */
  lemma KeyBeforeIdQuote(e: string, x: string)
    requires x == PREFIX + e && EndsInKey(x)
    ensures EndsInKey("\"" + e)
  {
    var a := PREFIX[..|PREFIX| - 1];
    assert x[|PREFIX| - 1] == '"' && x == a + ("\"" + e);
    LastLetters(x);
    SuffixInside(a, "\"" + e);
  }

  lemma MatchEndsInKey(h: string, x: string, e: string, q: nat)
    requires x <= h && x == PREFIX + e && MatchAt(h, q, KEY) && q + 6 == |x|
    ensures EndsInKey("\"" + e)
  {
    assert x == h[..|x|];
    assert x[q..] == h[q..q + |KEY|][..6] == "\"addrs";
    KeyBeforeIdQuote(e, x);
  }

  lemma HeadStarts(requestId: string, name: string)
    ensures PREFIX + Escape(requestId) <= Head(requestId, name)
  {
  }

  /** A match of the key inside the head ends at the closing quote of the name. */
  lemma HeadMatch(requestId: string, name: string, q: nat)
    requires !HoldsKey(requestId)
    requires MatchAt(Head(requestId, name), q, KEY)
    ensures name != "" && q + |KEY| == |Head(requestId, name)|
  {
    KeyChars(Head(requestId, name), q);
    HeadQuotes(requestId, name, q + 6);
    HeadStarts(requestId, name);
    if q + 6 == |PREFIX + Escape(requestId)| {
      MatchEndsInKey(Head(requestId, name), PREFIX + Escape(requestId), Escape(requestId), q);
    }
  }

  lemma KeyChars(t: string, q: nat)
    requires MatchAt(t, q, KEY)
    ensures t[q] == '"' && t[q + 5] == 's' && t[q + 6] == '"'
  {
    var m := t[q..q + |KEY|];
    assert m[0] == '"' && m[5] == 's' && m[6] == '"';
  }

  const ARRAY_START := ",\"addrs\":["

  /** Offsets inside the text that joins the head to the address array. */
  lemma ArrayStartChars(t: string, n: nat)
    requires TextAt(t, n, ARRAY_START)
    ensures t[n] == ',' && MatchAt(t, n + 1, KEY) && t[n + 9] == '['
    ensures t[n + 2] == 'a' && t[n + 3] == 'd' && t[n + 4] == 'd' && t[n + 5] == 'r' && t[n + 6] == 's'
    ensures '[' !in t[n..n + 9]
  {
    var m := t[n..n + |ARRAY_START|];
    assert m[0] == ',' && m[2] == 'a' && m[3] == 'd' && m[4] == 'd' && m[5] == 'r' && m[6] == 's' && m[9] == '[';
    ArrayStartParts();
    PartOf(t, n, ARRAY_START, 1, 8);
    PartOf(t, n, ARRAY_START, 0, 9);
  }

  lemma PartOf(t: string, n: nat, w: string, i: nat, j: nat)
    requires TextAt(t, n, w) && i <= j <= |w|
    ensures t[n + i..n + j] == w[i..j]
  {
    var a, b := t[n + i..n + j], w[i..j];
    assert |a| == |b|;
    forall k | 0 <= k < |a|
      ensures a[k] == b[k]
    {
      assert a[k] == t[n..n + |w|][i + k];
    }
  }

  lemma ArrayStartParts()
    ensures ARRAY_START[1..8] == KEY && '[' !in ARRAY_START[0..9]
  {
  }

  /** A match that starts before the array key ends before it. */
  lemma EarlyMatch(t: string, n: nat, q: nat)
    requires TextAt(t, n, ARRAY_START) && q < n + 1 && MatchAt(t, q, KEY)
    ensures q + |KEY| <= n
  {
    ArrayStartChars(t, n);
    KeyChars(t, q);
  }

  lemma NoBracketBetween(t: string, n: nat, q: nat)
    requires TextAt(t, n, ARRAY_START) && MatchAt(t, q, KEY)
    requires q == n + 1 || q + |KEY| == n
    ensures Strchr(t, q, '[') == n + 9
  {
    ArrayStartChars(t, n);
    assert '[' !in t[q..n + 9] by {
      if q == n + 1 {
        assert t[q..n + 9] == t[n..n + 9][1..];
      } else {
        assert t[q..n + 9] == t[q..q + |KEY|] + t[n..n + 9];
      }
    }
    StrchrIs(t, q, '[', n + 9);
  }

  lemma MatchInPrefix(h: string, t: string, q: nat)
    requires h <= t && MatchAt(t, q, KEY) && q + |KEY| <= |h|
    ensures MatchAt(h, q, KEY)
  {
    assert h == t[..|h|];
    assert h[q..q + |KEY|] == t[q..q + |KEY|];
  }

  /** Whatever the name is, the scanner's search for the key and then for a bracket ends at the bracket
      of the address array. */
  lemma FirstBracket(requestId: string, name: string, h: string, t: string)
    requires !HoldsKey(requestId)
    requires h == Head(requestId, name) && h <= t && TextAt(t, |h|, ARRAY_START)
    ensures Strstr(t, 0, KEY) != -1
    ensures Strchr(t, Strstr(t, 0, KEY), '[') == |h| + 9
  {
    var n := |h|;
    ArrayStartChars(t, n);
    var q := Strstr(t, 0, KEY);
    assert q != -1 && q <= n + 1;
    if q < n + 1 {
      EarlyMatch(t, n, q);
      MatchInPrefix(h, t, q);
      HeadMatch(requestId, name, q);
    }
    NoBracketBetween(t, n, q);
  }

  lemma MatchBeforeBrace(h: string, q: nat)
    requires MatchAt(h + "}", q, KEY)
    ensures MatchAt(h, q, KEY)
  {
    var t := h + "}";
    KeyChars(t, q);
    assert t[|h|] == '}';
    assert q + |KEY| <= |h|;
    assert h[q..q + |KEY|] == t[q..q + |KEY|];
  }

  /** A match at the very end is not followed by a bracket. */
  lemma NoBracketAfter(h: string, q: nat)
    requires MatchAt(h, q, KEY) && q + |KEY| == |h|
    ensures Strchr(h + "}", q, '[') == -1
  {
    var t := h + "}";
    assert t[q..] == KEY + "}";
    assert '[' !in t[q..];
    var i := Strchr(t, q, '[');
    assert forall k :: q <= k < |t| ==> t[k] == t[q..][k - q];
  }

  /** Without an address array there is nothing to find. */
  lemma NoArray(requestId: string, name: string, validIp: string -> bool)
    requires !HoldsKey(requestId)
    ensures Scan(Head(requestId, name) + "}", validIp) == []
  {
    var h := Head(requestId, name);
    var q := Strstr(h + "}", 0, KEY);
    if q != -1 {
      MatchBeforeBrace(h, q);
      HeadMatch(requestId, name, q);
      NoBracketAfter(h, q);
    }
  }

  // ----- the response -----

  /** The fields of an OK response that are not omitted. */
  function ResponseFields(requestId: string, name: string, addrs: seq<string>): seq<Field> {
    [Field("type", Str("OK")), Field("request_id", Str(requestId))]
    + SignedPayload.OmitEmpty("name", name)
    + if addrs == [] then [] else [Field("addrs", Arr(SignedPayload.Strings(addrs)))]
  }

  function ResponseJson(requestId: string, name: string, addrs: seq<string>): string {
    Write(Obj(ResponseFields(requestId, name, addrs)))
  }

  function ArrayTail(addrs: seq<string>): string {
    if addrs == [] then "}" else ARRAY_START + (Items(addrs) + "}")
  }

  lemma FieldsCons(f: Field, fs: seq<Field>)
    ensures WriteFields([f] + fs) ==
            WriteString(f.key) + ":" + Write(f.value) + if fs == [] then "}" else "," + WriteFields(fs)
  {
    assert ([f] + fs)[1..] == fs;
  }

  predicate Word(k: string) {
    forall i :: 0 <= i < |k| ==> 'a' <= k[i] <= 'z' || 'A' <= k[i] <= 'Z' || k[i] == '_'
  }

  lemma WriteWord(k: string)
    requires Word(k)
    ensures WriteString(k) == ['"'] + k + ['"']
  {
    EscapePlain(k);
  }

  /** The fields from the name on, closing brace included. */
  function TailFields(name: string, addrs: seq<string>): seq<Field> {
    SignedPayload.OmitEmpty("name", name)
    + if addrs == [] then [] else [Field("addrs", Arr(SignedPayload.Strings(addrs)))]
  }

  lemma AddrsText(addrs: seq<string>)
    requires addrs != []
    ensures "," + WriteFields([Field("addrs", Arr(SignedPayload.Strings(addrs)))]) == ArrayTail(addrs)
  {
    var f := Field("addrs", Arr(SignedPayload.Strings(addrs)));
    WriteWord(f.key);
    FieldsCons(f, []);
    assert [f] + [] == [f];
    JoinAddrs(Items(addrs));
  }

  lemma JoinAddrs(items: string)
    ensures "," + ((['"'] + "addrs" + ['"']) + ":" + ("[" + items) + "}") == ARRAY_START + (items + "}")
  {
    assert "," + (['"'] + "addrs" + ['"']) + ":" + "[" == ARRAY_START;
  }

  lemma NameText(name: string, fs: seq<Field>)
    requires name != ""
    ensures "," + WriteFields([Field("name", Str(name))] + fs) ==
            NameTail(name) + if fs == [] then "}" else "," + WriteFields(fs)
  {
    var f := Field("name", Str(name));
    WriteWord(f.key);
    FieldsCons(f, fs);
    JoinName(Escape(name), if fs == [] then "}" else "," + WriteFields(fs));
  }

  lemma JoinName(e: string, t: string)
    ensures "," + ((['"'] + "name" + ['"']) + ":" + (['"'] + e + ['"']) + t) == NAME_KEY + e + "\"" + t
  {
    assert "," + (['"'] + "name" + ['"']) + ":" + ['"'] == NAME_KEY;
  }

  lemma TailText(name: string, addrs: seq<string>)
    ensures (if TailFields(name, addrs) == [] then "}" else "," + WriteFields(TailFields(name, addrs)))
            == NameTail(name) + ArrayTail(addrs)
  {
    var last := if addrs == [] then [] else [Field("addrs", Arr(SignedPayload.Strings(addrs)))];
    assert (if last == [] then "}" else "," + WriteFields(last)) == ArrayTail(addrs) by {
      if addrs != [] {
        AddrsText(addrs);
      }
    }
    if name == "" {
      assert TailFields(name, addrs) == last;
      assert NameTail(name) + ArrayTail(addrs) == ArrayTail(addrs);
    } else {
      assert TailFields(name, addrs) == [Field("name", Str(name))] + last;
      NameText(name, last);
    }
  }

  lemma FirstFields(requestId: string, tail: seq<Field>)
    ensures WriteFields([Field("type", Str("OK"))] + ([Field("request_id", Str(requestId))] + tail)) ==
            (['"'] + "type" + ['"']) + ":" + (['"'] + "OK" + ['"'])
            + ("," + ((['"'] + "request_id" + ['"']) + ":" + (['"'] + Escape(requestId) + ['"'])
                      + if tail == [] then "}" else "," + WriteFields(tail)))
  {
    var f0, f1 := Field("type", Str("OK")), Field("request_id", Str(requestId));
    WriteWord(f0.key);
    WriteWord(f0.value.s);
    WriteWord(f1.key);
    FieldsCons(f1, tail);
    FieldsCons(f0, [f1] + tail);
  }

  /** The encoder's text, part by part. */
  lemma ResponseShape(requestId: string, name: string, addrs: seq<string>)
    ensures ResponseJson(requestId, name, addrs) == Head(requestId, name) + ArrayTail(addrs)
  {
    var tail := TailFields(name, addrs);
    var fs := [Field("type", Str("OK"))] + ([Field("request_id", Str(requestId))] + tail);
    assert ResponseJson(requestId, name, addrs) == "{" + WriteFields(fs) by {
      assert ResponseFields(requestId, name, addrs) == fs;
    }
    FirstFields(requestId, tail);
    TailText(name, addrs);
    JoinHead(Escape(requestId), NameTail(name), ArrayTail(addrs));
  }

  lemma JoinHead(e: string, n: string, t: string)
    ensures "{" + ((['"'] + "type" + ['"']) + ":" + (['"'] + "OK" + ['"'])
                   + ("," + ((['"'] + "request_id" + ['"']) + ":" + (['"'] + e + ['"']) + (n + t))))
            == PREFIX + e + "\"" + n + t
  {
    Flatten(['"'] + "type" + ['"'], ['"'] + "OK" + ['"'], ['"'] + "request_id" + ['"'], e, n, t);
    PrefixText();
  }

  lemma PrefixText()
    ensures "{" + (['"'] + "type" + ['"']) + ":" + (['"'] + "OK" + ['"']) + "," +
            (['"'] + "request_id" + ['"']) + ":" + ['"']
            == PREFIX
  {
  }

  lemma Flatten(a: string, b: string, c: string, e: string, n: string, t: string)
    ensures "{" + (a + ":" + b + ("," + (c + ":" + (['"'] + e + ['"']) + (n + t))))
            == ("{" + a + ":" + b + "," + c + ":" + ['"']) + e + "\"" + n + t
  {
  }

  // ----- the round trip -----

  lemma {:induction false} ItemsBracket(addrs: seq<string>)
    requires addrs != [] && forall i :: 0 <= i < |addrs| ==> AddressText(addrs[i])
    ensures var w := Items(addrs);
            |w| > 0 && w[|w| - 1] == ']' && ']' !in w[..|w| - 1]
    decreases |addrs|
  {
    ItemsShape(addrs);
    var w, quoted := Items(addrs), ['"'] + addrs[0] + ['"'];
    if |addrs| == 1 {
      assert w[..|w| - 1] == quoted;
    } else {
      var w' := Items(addrs[1..]);
      ItemsBracket(addrs[1..]);
      assert w[..|w| - 1] == quoted + "," + w'[..|w'| - 1];
    }
  }

  /** The whole response text around the address array. */
  predicate Around(t: string, h: string, w: string) {
    t == h + ARRAY_START + (w + "}")
  }

  lemma AroundParts(t: string, h: string, w: string)
    requires Around(t, h, w)
    ensures h <= t && TextAt(t, |h|, ARRAY_START) && TextAt(t, |h| + 10, w) && |h| + 10 + |w| < |t|
  {
    assert t[|h|..|h| + 10] == ARRAY_START;
    assert t[|h| + 10..|h| + 10 + |w|] == w;
  }

  lemma CloseBracketOf(t: string, open: nat, w: string)
    requires open < |t| && t[open] == '[' && TextAt(t, open + 1, w)
    requires |w| > 0 && w[|w| - 1] == ']' && ']' !in w[..|w| - 1]
    ensures Strchr(t, open, ']') == open + |w|
  {
    var part := t[open + 1..open + 1 + |w|];
    assert t[open + |w|] == part[|w| - 1];
    assert t[open..open + |w|] == [t[open]] + part[..|w| - 1];
    StrchrIs(t, open, ']', open + |w|);
  }

  lemma Associate(a: string, b: string, c: string)
    ensures a + (b + c) == a + b + c
  {
  }

  lemma ScanFinds(t: string, open: nat, close: nat, validIp: string -> bool)
    requires Strstr(t, 0, KEY) != -1 && Strchr(t, Strstr(t, 0, KEY), '[') == open && Strchr(t, open, ']') == close
    ensures Scan(t, validIp) == ScanFrom(t, open + 1, close, 0, validIp)
  {
  }

  lemma BracketOfArray(requestId: string, name: string, t: string, w: string)
    requires !HoldsKey(requestId) && Around(t, Head(requestId, name), w)
    ensures Strstr(t, 0, KEY) != -1
    ensures Strchr(t, Strstr(t, 0, KEY), '[') == |Head(requestId, name)| + 9
  {
    AroundParts(t, Head(requestId, name), w);
    FirstBracket(requestId, name, Head(requestId, name), t);
  }

  lemma ArrayInside(t: string, n: nat, close: nat, addrs: seq<string>)
    requires addrs != [] && forall i :: 0 <= i < |addrs| ==> AddressText(addrs[i])
    requires TextAt(t, n, ARRAY_START) && TextAt(t, n + 10, Items(addrs)) && close == n + 9 + |Items(addrs)|
    ensures close < |t| && ArrayAt(t, n + 10, close, addrs) && Strchr(t, n + 9, ']') == close
  {
    ArrayCloses(t, n, addrs);
    ItemsAreArray(t, n + 10, addrs);
  }

  lemma ArrayCloses(t: string, n: nat, addrs: seq<string>)
    requires addrs != [] && forall i :: 0 <= i < |addrs| ==> AddressText(addrs[i])
    requires TextAt(t, n, ARRAY_START) && TextAt(t, n + 10, Items(addrs))
    ensures Strchr(t, n + 9, ']') == n + 9 + |Items(addrs)|
  {
    ArrayStartChars(t, n);
    ItemsBracket(addrs);
    CloseBracketOf(t, n + 9, Items(addrs));
  }

  lemma ScanWithArray(t: string, h: string, addrs: seq<string>, validIp: string -> bool)
    requires addrs != [] && forall i :: 0 <= i < |addrs| ==> AddressText(addrs[i])
    requires Around(t, h, Items(addrs))
    requires Strstr(t, 0, KEY) != -1 && Strchr(t, Strstr(t, 0, KEY), '[') == |h| + 9
    ensures Scan(t, validIp) == FirstKept(addrs, MAX_ADDRS, validIp)
  {
    AroundParts(t, h, Items(addrs));
    ArrayInside(t, |h|, |h| + 9 + |Items(addrs)|, addrs);
    ScanClosed(t, |h| + 9, |h| + 9 + |Items(addrs)|, addrs, validIp);
  }

  lemma ScanClosed(t: string, open: nat, close: nat, addrs: seq<string>, validIp: string -> bool)
    requires Strstr(t, 0, KEY) != -1 && Strchr(t, Strstr(t, 0, KEY), '[') == open && Strchr(t, open, ']') == close
    requires close < |t| && ArrayAt(t, open + 1, close, addrs)
    ensures Scan(t, validIp) == FirstKept(addrs, MAX_ADDRS, validIp)
  {
    ScanFinds(t, open, close, validIp);
    ScanItems(t, open + 1, close, addrs, 0, validIp);
  }

  /** The scanner on the JSON of an OK response. */
  lemma JsonScanned(requestId: string, name: string, addrs: seq<string>, validIp: string -> bool)
    requires !HoldsKey(requestId)
    requires forall i :: 0 <= i < |addrs| ==> AddressText(addrs[i])
    ensures Scan(ResponseJson(requestId, name, addrs), validIp) == FirstKept(addrs, MAX_ADDRS, validIp)
  {
    ResponseShape(requestId, name, addrs);
    if addrs == [] {
      NoArray(requestId, name, validIp);
    } else {
      Associate(Head(requestId, name), ARRAY_START, Items(addrs) + "}");
      BracketOfArray(requestId, name, ResponseJson(requestId, name, addrs), Items(addrs));
      ScanWithArray(ResponseJson(requestId, name, addrs), Head(requestId, name), addrs, validIp);
    }
  }

  /** The ids the module itself sends, "byname-" or "byaddr-" and a process id, are safe. */
  lemma ClientIdsAreSafe(pid: nat)
    ensures !HoldsKey("byname-" + PrintNat(pid)) && !HoldsKey("byaddr-" + PrintNat(pid))
  {
    IdEndsInDigit("byname-", pid);
    IdEndsInDigit("byaddr-", pid);
  }

  predicate IdChar(c: char) {
    'a' <= c <= 'z' || c == '-' || IsDigit(c)
  }

  lemma IdIsPlain(id: string)
    requires forall i :: 0 <= i < |id| ==> IdChar(id[i])
    ensures Escape(id) == id
  {
    assert PlainText(id) by {
      forall i | 0 <= i < |id| { IdCharPlain(id[i]); }
    }
    EscapePlain(id);
  }

  lemma IdCharPlain(c: char)
    requires IdChar(c)
    ensures EscapeChar(c) == [c]
  {
  }

  lemma DigitAtEnd(id: string)
    requires id != [] && IsDigit(id[|id| - 1])
    ensures !EndsInKey("\"" + id)
  {
    var t := "\"" + id;
    if |t| >= 6 {
      assert t[|t| - 6..][5] == id[|id| - 1];
    }
  }

  lemma IdEndsInDigit(prefix: string, pid: nat)
    requires forall i :: 0 <= i < |prefix| ==> IdChar(prefix[i])
    ensures !HoldsKey(prefix + PrintNat(pid))
  {
    var id := prefix + PrintNat(pid);
    IdIsPlain(id);
    DigitAtEnd(id);
  }

  // ----- why the request id matters -----

  /** If the quoted request id ends in the key, that is where the search for the key stops. */
  lemma KeyInId(requestId: string, name: string, t: string, k: nat)
    requires name != "" && Head(requestId, name) <= t
    requires k + 6 == |PREFIX + Escape(requestId)| && MatchAt(t, k, KEY)
    ensures Strstr(t, 0, KEY) == k
  {
    var h := Head(requestId, name);
    HeadStarts(requestId, name);
    var q := Strstr(t, 0, KEY);
    if q < k {
      MatchInPrefix(h, t, q);
      KeyChars(h, q);
      HeadQuotes(requestId, name, q + 6);
    }
  }

  lemma IdEndsHead(e: string, x: string)
    requires x == PREFIX + e && EndsInKey("\"" + e)
    ensures |x| >= 6 && x + "\"" == x[..|x| - 6] + KEY
  {
    var a := PREFIX[..|PREFIX| - 1];
    assert PREFIX[|PREFIX| - 1] == '"';
    assert x == a + ("\"" + e);
    KeptSuffix(a, "\"" + e, "\"addrs", x);
    CloseKey(x[..|x| - 6]);
  }

  lemma KeptSuffix(a: string, t: string, w: string, x: string)
    requires |t| >= |w| && t[|t| - |w|..] == w && x == a + t
    ensures x == x[..|x| - |w|] + w
  {
    assert x[|x| - |w|..] == t[|t| - |w|..];
  }

  lemma CloseKey(p: string)
    ensures p + "\"addrs" + "\"" == p + KEY
  {
  }

  lemma BracketInName(p: string, rest: string, validIp: string -> bool)
    requires Strstr(p + KEY + NAME_KEY + "[]" + rest, 0, KEY) == |p|
    ensures Scan(p + KEY + NAME_KEY + "[]" + rest, validIp) == []
  {
    var m := p + KEY + NAME_KEY;
    var t := m + "[]" + rest;
    assert t[|p|..|m|] == KEY + NAME_KEY;
    assert '[' !in KEY && '[' !in NAME_KEY;
    StrchrIs(t, |p|, '[', |m|);
    assert t[|m|..|m| + 1] == "[";
    StrchrIs(t, |m|, ']', |m| + 1);
  }

  lemma SplitHead(x: string, p: string, tail: string)
    requires x + "\"" == p + KEY
    ensures x + "\"" + (NAME_KEY + "[]" + "\"") + tail == p + KEY + NAME_KEY + "[]" + ("\"" + tail)
  {
  }

  lemma HeadOfBrackets(requestId: string)
    ensures Head(requestId, "[]") == PREFIX + Escape(requestId) + "\"" + (NAME_KEY + "[]" + "\"")
  {
    assert PlainText("[]");
    EscapePlain("[]");
  }

  lemma MatchAfter(p: string, a: string, b: string, c: string)
    ensures MatchAt(p + KEY + a + b + c, |p|, KEY)
  {
    var t := p + KEY + a + b + c;
    assert t[|p|..|p| + |KEY|] == KEY;
  }

  lemma MisledScan(requestId: string, p: string, rest: string, validIp: string -> bool)
    requires |p| + 6 == |PREFIX + Escape(requestId)|
    requires Head(requestId, "[]") <= p + KEY + NAME_KEY + "[]" + rest
    ensures Scan(p + KEY + NAME_KEY + "[]" + rest, validIp) == []
  {
    MatchAfter(p, NAME_KEY, "[]", rest);
    KeyInId(requestId, "[]", p + KEY + NAME_KEY + "[]" + rest, |p|);
    BracketInName(p, rest, validIp);
  }

  lemma MisledText(requestId: string, p: string, tail: string)
    requires PREFIX + Escape(requestId) + "\"" == p + KEY
    ensures Head(requestId, "[]") + tail == p + KEY + NAME_KEY + "[]" + ("\"" + tail)
  {
    HeadOfBrackets(requestId);
    SplitHead(PREFIX + Escape(requestId), p, tail);
  }

  /** With such a request id the scanner takes a host named "[]" for the array. */
  lemma JsonMisleads(requestId: string, addrs: seq<string>, validIp: string -> bool)
    requires HoldsKey(requestId)
    ensures Scan(ResponseJson(requestId, "[]", addrs), validIp) == []
  {
    var x, tail := PREFIX + Escape(requestId), ArrayTail(addrs);
    IdEndsHead(Escape(requestId), x);
    var p := x[..|x| - 6];
    MisledText(requestId, p, tail);
    MisledScan(requestId, p, "\"" + tail, validIp);
    ResponseShape(requestId, "[]", addrs);
  }
}
