/**
 * Text that goes on and text that breaks off.  Reading a value does not depend on what follows it, so
 * no proper beginning of an encoded object is itself an object.
 */
module JsonCut {
  import opened Common
  import opened Decimal
  import opened Json

  // ----- text that goes on -----

  lemma EscapeLonger(s: string, x: string)
    requires ReadEscape(s).Some?
    ensures ReadEscape(s + x) == ReadEscape(s) && ReadEscape(s).value.1 <= |s|
  {
    if |s| >= 5 {
      assert (s + x)[1..5] == s[1..5];
    }
  }

  lemma {:induction false} StringLonger(s: string, x: string)
    requires ReadString(s).Some?
    ensures ReadString(s + x) == Some((ReadString(s).value.0, ReadString(s).value.1 + x))
    decreases |s|
  {
    assert (s + x)[1..] == s[1..] + x;
    if s[0] == '\\' {
      EscapeLonger(s[1..], x);
      var n := ReadEscape(s[1..]).value.1;
      assert (s[1..] + x)[n..] == s[1..][n..] + x;
      StringLonger(s[1..][n..], x);
    } else if s[0] != '"' {
      StringLonger(s[1..], x);
    }
  }

  lemma {:induction false} DigitsLonger(s: string, x: string)
    requires DigitsPrefix(s) < |s|
    ensures DigitsPrefix(s + x) == DigitsPrefix(s)
  {
    assert (s + x)[1..] == s[1..] + x;
    if IsDigit(s[0]) {
      DigitsLonger(s[1..], x);
    }
  }

  lemma DigitsThenRest(s: string, x: string)
    requires DigitsPrefix(s) < |s|
    ensures var n := DigitsPrefix(s);
            DigitsPrefix(s + x) == n && (s + x)[..n] == s[..n] && (s + x)[n..] == s[n..] + x
  {
    DigitsLonger(s, x);
  }

  lemma NumberLonger(s: string, x: string)
    requires ReadNumber(s).Some? && ReadNumber(s).value.1 != []
    ensures ReadNumber(s + x) == Some((ReadNumber(s).value.0, ReadNumber(s).value.1 + x))
  {
    if s[0] == '-' {
      assert (s + x)[1..] == s[1..] + x;
      DigitsThenRest(s[1..], x);
    } else {
      DigitsThenRest(s, x);
    }
  }

  /** The value is complete: only a number could still grow. */
  predicate Complete(r: (Value, string)) {
    r.1 != [] || !r.0.Num?
  }

  lemma ReadShortLonger(s: string, x: string)
    requires Read(s).Some? && Complete(Read(s).value) && s[0] != '[' && s[0] != '{'
    ensures Read(s + x) == Some((Read(s).value.0, Read(s).value.1 + x))
  {
    assert (s + x)[1..] == s[1..] + x;
    if s[0] == '"' {
      StringLonger(s[1..], x);
    } else if s[0] == 'n' {
      assert (s + x)[..4] == s[..4] && (s + x)[4..] == s[4..] + x;
    } else {
      NumberLonger(s, x);
    }
  }

  lemma {:induction false} ReadLonger(s: string, x: string)
    requires Read(s).Some? && Complete(Read(s).value)
    ensures Read(s + x) == Some((Read(s).value.0, Read(s).value.1 + x))
    decreases |s|, 0
  {
    if s[0] == '[' || s[0] == '{' {
      assert |s| > 1;
      assert (s + x)[1..] == s[1..] + x && (s + x)[2..] == s[2..] + x;
      if s[0] == '[' && s[1] != ']' {
        ItemsLonger(s[1..], x);
      } else if s[0] == '{' && s[1] != '}' {
        FieldsLonger(s[1..], x);
      }
    } else {
      ReadShortLonger(s, x);
    }
  }

  lemma {:induction false} ItemsLonger(s: string, x: string)
    requires ReadItems(s).Some?
    ensures ReadItems(s + x) == Some((ReadItems(s).value.0, ReadItems(s).value.1 + x))
    decreases |s|, 1
  {
    ReadLonger(s, x);
    var rest := Read(s).value.1;
    assert (rest + x)[1..] == rest[1..] + x;
    if rest[0] == ',' {
      ItemsLonger(rest[1..], x);
    }
  }

  lemma DropLonger(s: string, x: string)
    requires s != []
    ensures (s + x)[1..] == s[1..] + x && (s + x)[0] == s[0]
  {
  }

  /** The first field, taken apart. */
  lemma FirstField(s: string) returns (key: string, afterKey: string, v: Value, rest: string)
    requires ReadFields(s).Some?
    ensures s != [] && s[0] == '"' && ReadString(s[1..]) == Some((key, afterKey))
    ensures afterKey != [] && afterKey[0] == ':' && Read(afterKey[1..]) == Some((v, rest))
    ensures |afterKey| < |s| && 0 < |rest| < |afterKey| && (rest[0] == '}' || rest[0] == ',')
    ensures rest[0] == '}' ==> ReadFields(s) == Some(([Field(key, v)], rest[1..]))
    ensures rest[0] == ',' ==>
              ReadFields(rest[1..]).Some? &&
              ReadFields(s) == Some(([Field(key, v)] + ReadFields(rest[1..]).value.0, ReadFields(rest[1..]).value.1))
  {
    key, afterKey := ReadString(s[1..]).value.0, ReadString(s[1..]).value.1;
    v, rest := Read(afterKey[1..]).value.0, Read(afterKey[1..]).value.1;
  }

  lemma {:induction false} FieldsLonger(s: string, x: string)
    requires ReadFields(s).Some?
    ensures ReadFields(s + x) == Some((ReadFields(s).value.0, ReadFields(s).value.1 + x))
    decreases |s|, 1
  {
    var key, afterKey, v, rest := FirstField(s);
    DropLonger(s, x);
    StringLonger(s[1..], x);
    DropLonger(afterKey, x);
    ReadLonger(afterKey[1..], x);
    DropLonger(rest, x);
    if rest[0] == ',' {
      FieldsLonger(rest[1..], x);
    }
    ReadFieldsStep(s + x, key, afterKey + x, v, rest + x);
  }

  // ----- what is left is the end of the text -----

  predicate IsTail(rest: string, s: string) {
    |rest| <= |s| && s[|s| - |rest|..] == rest
  }

  lemma TailOfTail(a: string, b: string, s: string)
    requires IsTail(a, b) && IsTail(b, s)
    ensures IsTail(a, s)
  {
    assert s[|s| - |a|..] == s[|s| - |b|..][|b| - |a|..];
  }

  lemma DropIsTail(s: string, n: nat)
    requires n <= |s|
    ensures IsTail(s[n..], s)
  {
  }

  lemma {:induction false} StringTail(s: string)
    requires ReadString(s).Some?
    ensures IsTail(ReadString(s).value.1, s)
    decreases |s|
  {
    DropIsTail(s, 1);
    if s[0] == '\\' {
      var n := ReadEscape(s[1..]).value.1;
      DropIsTail(s[1..], n);
      StringTail(s[1..][n..]);
      TailOfTail(s[1..][n..], s[1..], s);
      TailOfTail(ReadString(s).value.1, s[1..][n..], s);
    } else if s[0] != '"' {
      StringTail(s[1..]);
      TailOfTail(ReadString(s).value.1, s[1..], s);
    }
  }

  lemma NumberTail(s: string)
    requires ReadNumber(s).Some?
    ensures IsTail(ReadNumber(s).value.1, s)
  {
    if s[0] == '-' {
      DropIsTail(s, 1);
      DropIsTail(s[1..], DigitsPrefix(s[1..]));
      TailOfTail(ReadNumber(s).value.1, s[1..], s);
    } else {
      DropIsTail(s, DigitsPrefix(s));
    }
  }

  lemma {:induction false} ReadTail(s: string)
    requires Read(s).Some?
    ensures IsTail(Read(s).value.1, s)
    decreases |s|, 0
  {
    var rest := Read(s).value.1;
    DropIsTail(s, 1);
    if s[0] == '"' {
      StringTail(s[1..]);
      TailOfTail(rest, s[1..], s);
    } else if s[0] == '[' && s[1] != ']' {
      ItemsTail(s[1..]);
      TailOfTail(rest, s[1..], s);
    } else if s[0] == '{' && s[1] != '}' {
      FieldsTail(s[1..]);
      TailOfTail(rest, s[1..], s);
    } else if s[0] == '[' || s[0] == '{' {
      DropIsTail(s, 2);
    } else if s[0] == 'n' {
      DropIsTail(s, 4);
    } else {
      NumberTail(s);
    }
  }

  lemma {:induction false} ItemsTail(s: string)
    requires ReadItems(s).Some?
    ensures IsTail(ReadItems(s).value.1, s)
    decreases |s|, 1
  {
    ReadTail(s);
    var rest := Read(s).value.1;
    DropIsTail(rest, 1);
    TailOfTail(rest[1..], rest, s);
    if rest[0] == ',' {
      ItemsTail(rest[1..]);
      TailOfTail(ReadItems(s).value.1, rest[1..], s);
    }
  }

  /** The text that is left follows a closing brace. */
  predicate AfterBrace(rest: string, s: string) {
    |rest| < |s| && s[|s| - |rest| - 1] == '}'
  }

  lemma AfterBraceOfTail(rest: string, t: string, s: string)
    requires IsTail(t, s) && AfterBrace(rest, t)
    ensures AfterBrace(rest, s)
  {
    assert s[|s| - |t|..][|t| - |rest| - 1] == s[|s| - |rest| - 1];
  }

  lemma {:induction false} FieldsTail(s: string)
    requires ReadFields(s).Some?
    ensures IsTail(ReadFields(s).value.1, s) && AfterBrace(ReadFields(s).value.1, s)
    decreases |s|, 1
  {
    var rest := FieldsStep(s);
    if rest[0] == ',' {
      var last := ReadFields(s).value.1;
      DropIsTail(rest, 1);
      TailOfTail(rest[1..], rest, s);
      FieldsTail(rest[1..]);
      TailOfTail(last, rest[1..], s);
      AfterBraceOfTail(last, rest[1..], s);
    } else {
      DropIsTail(rest, 1);
      TailOfTail(rest[1..], rest, s);
      AfterBraceOfTail(rest[1..], rest, s);
    }
  }

  /** What follows the first field. */
  lemma FieldsStep(s: string) returns (rest: string)
    requires ReadFields(s).Some?
    ensures IsTail(rest, s) && 0 < |rest| < |s| && (rest[0] == '}' || rest[0] == ',')
    ensures rest[0] == '}' ==> ReadFields(s).value.1 == rest[1..]
    ensures rest[0] == ',' ==> ReadFields(rest[1..]).Some? && ReadFields(s).value.1 == ReadFields(rest[1..]).value.1
    decreases |s|, 0
  {
    var key, afterKey, v, r := FirstField(s);
    rest := r;
    StringTail(s[1..]);
    ReadTail(afterKey[1..]);
    DropIsTail(s, 1);
    TailOfTail(afterKey, s[1..], s);
    DropIsTail(afterKey, 1);
    TailOfTail(afterKey[1..], afterKey, s);
    TailOfTail(rest, afterKey[1..], s);
  }

  lemma ObjectEndsInBrace(s: string)
    requires Read(s).Some? && Read(s).value.0.Obj?
    ensures AfterBrace(Read(s).value.1, s)
  {
    if s[1] != '}' {
      FieldsTail(s[1..]);
      DropIsTail(s, 1);
      AfterBraceOfTail(Read(s).value.1, s[1..], s);
    }
  }

  // ----- text that breaks off -----

  /** The text is one object and nothing else. */
  predicate IsObject(s: string) {
    Read(s).Some? && Read(s).value.0.Obj? && Read(s).value.1 == []
  }

  /** A proper beginning of an encoded object, with or without damage at its end, is not an object. */
  lemma CutIsNoObject(fields: seq<Field>, p: string, damage: string)
    requires p < Write(Obj(fields)) && (damage != [] ==> damage[|damage| - 1] != '}')
    ensures !IsObject(p + damage)
  {
    var all, x := Write(Obj(fields)), Write(Obj(fields))[|p|..];
    assert all + [] == all == p + x;
    ReadWritten(Obj(fields), []);
    if IsObject(p + damage) && damage != [] {
      ObjectEndsInBrace(p + damage);
    } else if IsObject(p + damage) {
      assert p + damage == p;
      ReadLonger(p, x);
    }
  }
}
