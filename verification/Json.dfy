/**
 * JSON text as Go's encoding/json writes it, and a reader for it.  Strings are sequences of Unicode
 * scalar values, that is, the valid UTF-8 strings.  The reader takes the compact form the writer
 * produces: it knows no white space, fractions or exponents.
 */
module Json {
  import opened Common
  import opened Decimal

  datatype Value =
    | Null
    | Num(n: int)
    | Str(s: string)
    | Arr(items: seq<Value>)
    | Obj(fields: seq<Field>)

  datatype Field = Field(key: string, value: Value)

  // ----- strings -----

  predicate IsHex(c: char) {
    '0' <= c <= '9' || 'a' <= c <= 'f' || 'A' <= c <= 'F'
  }

  function HexValue(c: char): (d: nat)
    requires IsHex(c)
    ensures d < 16
  {
    if c <= '9' then (c - '0') as nat
    else if c <= 'F' then (c - 'A') as nat + 10
    else (c - 'a') as nat + 10
  }

  function HexDigit(d: nat): (c: char)
    requires d < 16
    ensures IsHex(c) && HexValue(c) == d
  {
    if d < 10 then '0' + d as char else 'a' + (d - 10) as char
  }

  function Hex4(v: nat): string
    requires v < 0x1_0000
  {
    [HexDigit(v / 16 / 16 / 16), HexDigit(v / 16 / 16 % 16), HexDigit(v / 16 % 16), HexDigit(v % 16)]
  }

  /** Characters the writer replaces by a numeric escape: the other control characters, the HTML
      characters and the two line separators. */
  predicate NeedsHex(c: char) {
    c < ' ' || c == '<' || c == '>' || c == '&' || c == '\U{2028}' || c == '\U{2029}'
  }

  function EscapeChar(c: char): (r: string)
    ensures r != []
  {
    if c == '"' || c == '\\' then ['\\', c]
    else if c == '\n' then "\\n"
    else if c == '\r' then "\\r"
    else if c == '\t' then "\\t"
    else if c == '\U{0008}' then "\\b"
    else if c == '\U{000C}' then "\\f"
    else if NeedsHex(c) then "\\u" + Hex4(c as nat)
    else [c]
  }

  function Escape(s: string): string {
    if s == [] then [] else EscapeChar(s[0]) + Escape(s[1..])
  }

  /** What follows a backslash: the character it stands for and how much text it takes. */
  function ReadEscape(s: string): Option<(char, nat)> {
    if s == [] then None
    else if s[0] == '"' || s[0] == '\\' || s[0] == '/' then Some((s[0], 1))
    else if s[0] == 'n' then Some(('\n', 1))
    else if s[0] == 'r' then Some(('\r', 1))
    else if s[0] == 't' then Some(('\t', 1))
    else if s[0] == 'b' then Some(('\U{0008}', 1))
    else if s[0] == 'f' then Some(('\U{000C}', 1))
    else if s[0] == 'u' && |s| >= 5 then
      match ReadHex4(s[1..5])
      case None => None
      case Some(v) => Some((if 0xD800 <= v < 0xE000 then '\U{FFFD}' else v as char, 5))
    else None
  }

  function ReadHex4(s: string): (r: Option<nat>)
    requires |s| == 4
    ensures r.Some? ==> r.value < 0x1_0000
  {
    if IsHex(s[0]) && IsHex(s[1]) && IsHex(s[2]) && IsHex(s[3])
    then Some(HexValue(s[0]) * 4096 + HexValue(s[1]) * 256 + HexValue(s[2]) * 16 + HexValue(s[3]))
    else None
  }

  /** The string whose opening quote has been read, and the text after its closing quote. */
  function ReadString(s: string): (r: Option<(string, string)>)
    ensures r.Some? ==> |r.value.1| < |s|
    decreases |s|
  {
    if s == [] then None
    else if s[0] == '"' then Some(([], s[1..]))
    else if s[0] == '\\' then
      match ReadEscape(s[1..])
      case None => None
      case Some((c, n)) =>
        if n > |s[1..]| then None
        else
          (match ReadString(s[1..][n..])
           case None => None
           case Some((t, rest)) => Some(([c] + t, rest)))
    else
      match ReadString(s[1..])
      case None => None
      case Some((t, rest)) => Some(([s[0]] + t, rest))
  }

  lemma ReadHex4Written(v: nat)
    requires v < 0x1_0000
    ensures ReadHex4(Hex4(v)) == Some(v)
  {
    var a := v / 16;
    var b := a / 16;
    var c := b / 16;
    assert v == a * 16 + v % 16 && a == b * 16 + a % 16 && b == c * 16 + b % 16;
  }

  function Prepend(c: char, r: Option<(string, string)>): Option<(string, string)> {
    match r
    case None => None
    case Some((t, rest)) => Some(([c] + t, rest))
  }

  lemma ReadPlain(c: char, t: string)
    requires c != '"' && c != '\\'
    ensures ReadString([c] + t) == Prepend(c, ReadString(t))
  {
    assert ([c] + t)[1..] == t;
  }

  lemma ReadBackslash(s: string, c: char, n: nat, t: string)
    requires ReadEscape(s) == Some((c, n)) && n <= |s| && s[n..] == t
    ensures ReadString(['\\'] + s) == Prepend(c, ReadString(t))
  {
    assert (['\\'] + s)[1..] == s;
  }

  lemma ReadUnicode(c: char, t: string)
    requires NeedsHex(c)
    ensures ReadEscape("u" + Hex4(c as nat) + t) == Some((c, 5))
  {
    var h := Hex4(c as nat);
    ReadHex4Written(c as nat);
    JoinHex(h, t);
    ReadHexEscape("u" + h + t, c as nat);
  }

  lemma ReadHexEscape(s: string, v: nat)
    requires |s| >= 5 && s[0] == 'u' && v < 0xD800 && ReadHex4(s[1..5]) == Some(v)
    ensures ReadEscape(s) == Some((v as char, 5))
  {
  }

  lemma JoinHex(h: string, t: string)
    requires |h| == 4
    ensures var s := "u" + h + t;
            |s| >= 5 && s[0] == 'u' && s[1..5] == h && s[5..] == t && "\\u" + h + t == ['\\'] + s
  {
  }

  lemma ReadShort(c: char, t: string)
    requires |EscapeChar(c)| == 2
    ensures ReadString(EscapeChar(c) + t) == Prepend(c, ReadString(t))
  {
    var e := EscapeChar(c);
    var s := [e[1]] + t;
    assert e + t == ['\\'] + s;
    assert s[1..] == t;
    ReadBackslash(s, c, 1, t);
  }

  lemma LongEscape(c: char)
    requires |EscapeChar(c)| > 2
    ensures NeedsHex(c) && EscapeChar(c) == "\\u" + Hex4(c as nat)
  {
  }

  lemma ReadLong(c: char, h: string, t: string)
    requires NeedsHex(c) && h == Hex4(c as nat)
    ensures ReadString("\\u" + h + t) == Prepend(c, ReadString(t))
  {
    ReadUnicode(c, t);
    JoinHex(h, t);
    ReadBackslash("u" + h + t, c, 5, t);
  }

  lemma ReadEscapedChar(c: char, t: string)
    ensures ReadString(EscapeChar(c) + t) == Prepend(c, ReadString(t))
  {
    var e := EscapeChar(c);
    if |e| == 1 {
      ReadPlain(c, t);
    } else if |e| == 2 {
      ReadShort(c, t);
    } else {
      LongEscape(c);
      ReadLong(c, Hex4(c as nat), t);
    }
  }

  lemma {:induction false} ReadEscaped(s: string, rest: string)
    ensures ReadString(Escape(s) + ['"'] + rest) == Some((s, rest))
    decreases |s|
  {
    if s == [] {
      assert Escape(s) + ['"'] + rest == ['"'] + rest;
    } else {
      var tail := Escape(s[1..]) + ['"'] + rest;
      ReadEscaped(s[1..], rest);
      ReadEscapedChar(s[0], tail);
      assert Escape(s) + ['"'] + rest == EscapeChar(s[0]) + tail;
      assert s == [s[0]] + s[1..];
    }
  }

  /** The writer leaves no control character, HTML character or line separator in a string... */
  lemma {:induction false} EscapedIsSafe(s: string)
    ensures forall c :: c in Escape(s) ==>
              c >= ' ' && c != '<' && c != '>' && c != '&' && c != '\U{2028}' && c != '\U{2029}'
  {
    if s != [] {
      EscapedIsSafe(s[1..]);
      EscapedCharIsSafe(s[0]);
    }
  }

  lemma EscapedCharIsSafe(c: char)
    ensures forall d :: d in EscapeChar(c) ==>
              d >= ' ' && d != '<' && d != '>' && d != '&' && d != '\U{2028}' && d != '\U{2029}'
  {
    if |EscapeChar(c)| > 2 {
      LongEscape(c);
    }
  }

  /** ... and writes every other character, except quote and backslash, as it is. */
  lemma OrdinaryUnescaped(c: char)
    requires c >= ' ' && c != '<' && c != '>' && c != '&' && c != '\U{2028}' && c != '\U{2029}'
    ensures Escape([c]) == if c == '"' || c == '\\' then ['\\', c] else [c]
  {
    assert [c][1..] == [];
    assert EscapeChar(c) + [] == EscapeChar(c);
  }

  // ----- values -----

  function WriteString(s: string): string {
    ['"'] + Escape(s) + ['"']
  }

  function Write(v: Value): string
    decreases v, 1
  {
    match v
    case Null => "null"
    case Num(n) => PrintInt(n)
    case Str(s) => WriteString(s)
    case Arr(items) => if items == [] then "[]" else "[" + WriteItems(items)
    case Obj(fields) => if fields == [] then "{}" else "{" + WriteFields(fields)
  }

  /** The items and the closing bracket. */
  function WriteItems(items: seq<Value>): string
    requires items != []
    decreases items, 0
  {
    Write(items[0]) + if |items| == 1 then "]" else "," + WriteItems(items[1..])
  }

  /** The fields and the closing brace. */
  function WriteFields(fields: seq<Field>): string
    requires fields != []
    decreases fields, 0
  {
    WriteString(fields[0].key) + ":" + Write(fields[0].value) +
    if |fields| == 1 then "}" else "," + WriteFields(fields[1..])
  }

  function DigitsPrefix(s: string): (n: nat)
    ensures n <= |s| && AllDigits(s[..n]) && (n < |s| ==> !IsDigit(s[n]))
  {
    if s == [] || !IsDigit(s[0]) then 0
    else
      var n := DigitsPrefix(s[1..]);
      assert s[..n + 1] == [s[0]] + s[1..][..n];
      n + 1
  }

  function ReadNumber(s: string): (r: Option<(int, string)>)
    ensures r.Some? ==> |r.value.1| < |s|
  {
    if s != [] && s[0] == '-' then
      var n := DigitsPrefix(s[1..]);
      if n == 0 then None else Some((-(ParseNat(s[1..][..n]) as int), s[1..][n..]))
    else
      var n := DigitsPrefix(s);
      if n == 0 then None else Some((ParseNat(s[..n]) as int, s[n..]))
  }

  function Read(s: string): (r: Option<(Value, string)>)
    ensures r.Some? ==> |r.value.1| < |s|
    decreases |s|, 0
  {
    if s == [] then None
    else if s[0] == '"' then
      match ReadString(s[1..])
      case None => None
      case Some((t, rest)) => Some((Str(t), rest))
    else if s[0] == '[' then
      if |s| > 1 && s[1] == ']' then Some((Arr([]), s[2..]))
      else
        match ReadItems(s[1..])
        case None => None
        case Some((items, rest)) => Some((Arr(items), rest))
    else if s[0] == '{' then
      if |s| > 1 && s[1] == '}' then Some((Obj([]), s[2..]))
      else
        match ReadFields(s[1..])
        case None => None
        case Some((fields, rest)) => Some((Obj(fields), rest))
    else if s[0] == 'n' then
      if |s| >= 4 && s[..4] == "null" then Some((Null, s[4..])) else None
    else
      match ReadNumber(s)
      case None => None
      case Some((n, rest)) => Some((Num(n), rest))
  }

  function ReadItems(s: string): (r: Option<(seq<Value>, string)>)
    ensures r.Some? ==> |r.value.1| < |s|
    decreases |s|, 1
  {
    match Read(s)
    case None => None
    case Some((v, rest)) =>
      if rest == [] then None
      else if rest[0] == ']' then Some(([v], rest[1..]))
      else if rest[0] == ',' then
        match ReadItems(rest[1..])
        case None => None
        case Some((vs, rest')) => Some(([v] + vs, rest'))
      else None
  }

  function ReadFields(s: string): (r: Option<(seq<Field>, string)>)
    ensures r.Some? ==> |r.value.1| < |s|
    decreases |s|, 1
  {
    if s == [] || s[0] != '"' then None
    else
      match ReadString(s[1..])
      case None => None
      case Some((key, afterKey)) =>
        if afterKey == [] || afterKey[0] != ':' then None
        else
          match Read(afterKey[1..])
          case None => None
          case Some((v, rest)) =>
            if rest == [] then None
            else if rest[0] == '}' then Some(([Field(key, v)], rest[1..]))
            else if rest[0] == ',' then
              match ReadFields(rest[1..])
              case None => None
              case Some((fs, rest')) => Some(([Field(key, v)] + fs, rest'))
            else None
  }

  // ----- round trip -----

  /** What follows a number must not extend it. */
  predicate Ends(rest: string) {
    rest == [] || !IsDigit(rest[0])
  }

  lemma {:induction false} DigitsPrefixExact(a: string, rest: string)
    requires AllDigits(a) && Ends(rest)
    ensures DigitsPrefix(a + rest) == |a|
  {
    if a == [] {
      assert a + rest == rest;
    } else {
      assert (a + rest)[1..] == a[1..] + rest;
      DigitsPrefixExact(a[1..], rest);
    }
  }

  lemma ReadDigits(digits: string, rest: string)
    requires digits != [] && AllDigits(digits) && Ends(rest)
    ensures DigitsPrefix(digits + rest) == |digits|
    ensures (digits + rest)[..|digits|] == digits && (digits + rest)[|digits|..] == rest
    ensures IsDigit((digits + rest)[0])
  {
    DigitsPrefixExact(digits, rest);
    assert (digits + rest)[0] == digits[0];
  }

  lemma ReadPlus(digits: string, rest: string)
    requires digits != [] && AllDigits(digits) && Ends(rest)
    ensures ReadNumber(digits + rest) == Some((ParseNat(digits) as int, rest))
  {
    ReadDigits(digits, rest);
  }

  lemma ReadMinus(digits: string, rest: string)
    requires digits != [] && AllDigits(digits) && Ends(rest)
    ensures ReadNumber("-" + (digits + rest)) == Some((-(ParseNat(digits) as int), rest))
  {
    ReadDigits(digits, rest);
    TailOf("-", digits, rest);
    Reassociate("-", digits, rest);
    ReadSigned("-" + (digits + rest), digits + rest, digits, rest);
  }

  lemma ReadSigned(t: string, s: string, digits: string, rest: string)
    requires t != [] && t[0] == '-' && t[1..] == s && digits != [] && AllDigits(digits)
    requires DigitsPrefix(s) == |digits| && s[..|digits|] == digits && s[|digits|..] == rest
    ensures ReadNumber(t) == Some((-(ParseNat(digits) as int), rest))
  {
  }

  lemma ReadPrintedNumber(n: int, rest: string)
    requires Ends(rest)
    ensures ReadNumber(PrintInt(n) + rest) == Some((n, rest))
  {
    if n < 0 {
      ParsePrintNat(-n);
      ReadMinus(PrintNat(-n), rest);
      Reassociate("-", PrintNat(-n), rest);
    } else {
      ParsePrintNat(n);
      ReadPlus(PrintNat(n), rest);
    }
  }

  lemma Unquote(e: string, rest: string)
    ensures var t := ['"'] + e + ['"'] + rest;
            t[0] == '"' && t[1..] == e + ['"'] + rest
  {
  }

  lemma ReadWrittenString(s: string, rest: string)
    ensures var t := WriteString(s) + rest;
            t[0] == '"' && ReadString(t[1..]) == Some((s, rest))
  {
    ReadEscaped(s, rest);
    Unquote(Escape(s), rest);
  }

  lemma ReadStr(t: string, s: string, rest: string)
    requires t != [] && t[0] == '"' && ReadString(t[1..]) == Some((s, rest))
    ensures Read(t) == Some((Str(s), rest))
  {
  }

  lemma ReadArr(t: string, items: seq<Value>, rest: string)
    requires |t| > 1 && t[0] == '[' && t[1] != ']' && ReadItems(t[1..]) == Some((items, rest))
    ensures Read(t) == Some((Arr(items), rest))
  {
  }

  lemma ReadObj(t: string, fields: seq<Field>, rest: string)
    requires |t| > 1 && t[0] == '{' && t[1] != '}' && ReadFields(t[1..]) == Some((fields, rest))
    ensures Read(t) == Some((Obj(fields), rest))
  {
  }

  lemma ReadNum(t: string, n: int, rest: string)
    requires t != [] && (IsDigit(t[0]) || t[0] == '-') && ReadNumber(t) == Some((n, rest))
    ensures Read(t) == Some((Num(n), rest))
  {
  }

  lemma ReadEmpty(rest: string)
    ensures Read("null" + rest) == Some((Null, rest))
    ensures Read("[]" + rest) == Some((Arr([]), rest))
    ensures Read("{}" + rest) == Some((Obj([]), rest))
  {
    assert ("null" + rest)[..4] == "null" && ("null" + rest)[4..] == rest;
    assert ("[]" + rest)[2..] == rest && ("{}" + rest)[2..] == rest;
  }

  lemma ReadWrittenLeaf(v: Value, rest: string)
    requires Ends(rest) && (v.Null? || v.Num? || v.Str? || v == Arr([]) || v == Obj([]))
    ensures Read(Write(v) + rest) == Some((v, rest))
  {
    ReadEmpty(rest);
    if v.Num? {
      ReadPrintedNumber(v.n, rest);
      WriteStarts(v);
      ReadNum(PrintInt(v.n) + rest, v.n, rest);
    } else if v.Str? {
      ReadWrittenString(v.s, rest);
      ReadStr(WriteString(v.s) + rest, v.s, rest);
    }
  }

  lemma WrittenArr(items: seq<Value>, rest: string)
    requires items != []
    ensures var all := Write(Arr(items)) + rest;
            |all| > 1 && all[0] == '[' && all[1] != ']' && all[1..] == WriteItems(items) + rest
  {
    var all := Write(Arr(items)) + rest;
    assert all[1..] == WriteItems(items) + rest;
    WriteStarts(items[0]);
    assert all[1] == Write(items[0])[0];
  }

  lemma WrittenObj(fields: seq<Field>, rest: string)
    requires fields != []
    ensures var all := Write(Obj(fields)) + rest;
            |all| > 1 && all[0] == '{' && all[1] != '}' && all[1..] == WriteFields(fields) + rest
  {
    var all := Write(Obj(fields)) + rest;
    assert all[1..] == WriteFields(fields) + rest;
    assert all[1] == '"';
  }

  /** Reading what was written gives the value back and stops where the writing stopped. */
  lemma {:induction false} ReadWritten(v: Value, rest: string)
    requires Ends(rest)
    ensures Read(Write(v) + rest) == Some((v, rest))
    decreases v, 1
  {
    if v.Arr? && v.items != [] {
      ReadWrittenItems(v.items, rest);
      WrittenArr(v.items, rest);
      ReadArr(Write(v) + rest, v.items, rest);
    } else if v.Obj? && v.fields != [] {
      ReadWrittenFields(v.fields, rest);
      WrittenObj(v.fields, rest);
      ReadObj(Write(v) + rest, v.fields, rest);
    } else {
      ReadWrittenLeaf(v, rest);
    }
  }

  lemma WriteStarts(v: Value)
    ensures Write(v) != [] && Write(v)[0] != ']'
    ensures v.Num? ==> IsDigit(Write(v)[0]) || Write(v)[0] == '-'
  {
    if v.Num? {
      assert IsDigit(PrintInt(v.n)[0]) || PrintInt(v.n)[0] == '-';
    }
  }

  /** What follows the first item: the closing bracket, or a comma and the other items. */
  function AfterItem(items: seq<Value>): string
    requires items != []
  {
    if |items| == 1 then "]" else "," + WriteItems(items[1..])
  }

  lemma Reassociate(a: string, b: string, c: string)
    ensures (a + b) + c == a + (b + c)
  {
  }

  lemma WrittenItems(items: seq<Value>, rest: string)
    requires items != []
    ensures var t := AfterItem(items) + rest;
            && WriteItems(items) + rest == Write(items[0]) + t
            && t[0] == (if |items| == 1 then ']' else ',')
            && t[1..] == if |items| == 1 then rest else WriteItems(items[1..]) + rest
  {
    Reassociate(Write(items[0]), AfterItem(items), rest);
    if |items| > 1 {
      TailOf(",", WriteItems(items[1..]), rest);
    }
  }

  lemma ReadItemsStep(t: string, v: Value, tail: string)
    requires Read(t) == Some((v, tail)) && tail != []
    ensures tail[0] == ']' ==> ReadItems(t) == Some(([v], tail[1..]))
    ensures tail[0] == ',' && ReadItems(tail[1..]).Some? ==>
              ReadItems(t) == Some(([v] + ReadItems(tail[1..]).value.0, ReadItems(tail[1..]).value.1))
  {
  }

  lemma {:induction false} ReadWrittenItems(items: seq<Value>, rest: string)
    requires items != []
    ensures ReadItems(WriteItems(items) + rest) == Some((items, rest))
    decreases items, 0
  {
    var tail := AfterItem(items) + rest;
    WrittenItems(items, rest);
    ReadWritten(items[0], tail);
    ReadItemsStep(Write(items[0]) + tail, items[0], tail);
    SplitItems(items);
    if |items| > 1 {
      ReadWrittenItems(items[1..], rest);
    }
  }

  lemma SplitItems(items: seq<Value>)
    requires items != []
    ensures items == [items[0]] + items[1..]
    ensures |items| == 1 ==> items == [items[0]]
  {
  }

  lemma ReadFieldsStep(t: string, key: string, afterKey: string, v: Value, tail: string)
    requires t != [] && t[0] == '"' && ReadString(t[1..]) == Some((key, afterKey))
    requires afterKey != [] && afterKey[0] == ':' && Read(afterKey[1..]) == Some((v, tail)) && tail != []
    ensures tail[0] == '}' ==> ReadFields(t) == Some(([Field(key, v)], tail[1..]))
    ensures tail[0] == ',' && ReadFields(tail[1..]).Some? ==>
              ReadFields(t) == Some(([Field(key, v)] + ReadFields(tail[1..]).value.0, ReadFields(tail[1..]).value.1))
  {
  }

  /** What follows the first field: the closing brace, or a comma and the other fields. */
  function AfterField(fields: seq<Field>): string
    requires fields != []
  {
    if |fields| == 1 then "}" else "," + WriteFields(fields[1..])
  }

  lemma Regroup(k: string, v: string, t: string, rest: string)
    ensures (k + ":" + v + t) + rest == k + (":" + v + (t + rest))
    ensures (":" + v + (t + rest))[1..] == v + (t + rest)
  {
  }

  lemma TailOf(first: string, more: string, rest: string)
    requires |first| == 1
    ensures (first + more + rest)[1..] == more + rest
  {
  }

  lemma WrittenFields(fields: seq<Field>, rest: string)
    requires fields != []
    ensures var k, v, t := WriteString(fields[0].key), Write(fields[0].value), AfterField(fields);
            && WriteFields(fields) + rest == k + (":" + v + (t + rest))
            && (":" + v + (t + rest))[1..] == v + (t + rest)
            && (t + rest)[1..] == if |fields| == 1 then rest else WriteFields(fields[1..]) + rest
  {
    var k, v, t := WriteString(fields[0].key), Write(fields[0].value), AfterField(fields);
    assert WriteFields(fields) == k + ":" + v + t;
    Regroup(k, v, t, rest);
    if |fields| > 1 {
      TailOf(",", WriteFields(fields[1..]), rest);
    }
  }

  lemma SplitFields(fields: seq<Field>)
    requires fields != []
    ensures fields == [Field(fields[0].key, fields[0].value)] + fields[1..]
    ensures |fields| == 1 ==> fields == [Field(fields[0].key, fields[0].value)]
  {
  }

  lemma {:induction false} ReadWrittenFields(fields: seq<Field>, rest: string)
    requires fields != []
    ensures ReadFields(WriteFields(fields) + rest) == Some((fields, rest))
    decreases fields, 0
  {
    var key, v := fields[0].key, fields[0].value;
    var tail := AfterField(fields) + rest;
    var afterKey := ":" + Write(v) + tail;
    WrittenFields(fields, rest);
    ReadWrittenString(key, afterKey);
    ReadWritten(v, tail);
    if |fields| > 1 {
      ReadWrittenFields(fields[1..], rest);
    }
    ReadFieldsStep(WriteString(key) + afterKey, key, afterKey, v, tail);
    SplitFields(fields);
  }
}
