/** Decimal numerals: what `%d` prints and what `strconv.Atoi` reads back. */
module Decimal {

  predicate IsDigit(c: char) {
    '0' <= c <= '9'
  }

  predicate AllDigits(s: string) {
    forall i :: 0 <= i < |s| ==> IsDigit(s[i])
  }

  function DigitChar(d: nat): (c: char)
    requires d < 10
    ensures IsDigit(c) && DigitValue(c) == d
  {
    '0' + d as char
  }

  function DigitValue(c: char): nat
    requires IsDigit(c)
  {
    (c - '0') as nat
  }

  function PrintNat(n: nat): (s: string)
    ensures s != [] && AllDigits(s)
  {
    if n < 10 then [DigitChar(n)] else PrintNat(n / 10) + [DigitChar(n % 10)]
  }

  function PrintInt(n: int): string {
    if n < 0 then "-" + PrintNat(-n) else PrintNat(n)
  }

  function ParseNat(s: string): nat
    requires AllDigits(s)
  {
    if s == [] then 0 else 10 * ParseNat(s[..|s| - 1]) + DigitValue(s[|s| - 1])
  }

  /** `strconv.Atoi` with the error dropped: an optional sign and at least one digit, else 0. */
  function Atoi(s: string): int {
    if s != [] && (s[0] == '-' || s[0] == '+') then
      if s[1..] != [] && AllDigits(s[1..])
      then
        var n: int := ParseNat(s[1..]);
        if s[0] == '-' then -n else n
      else 0
    else if s != [] && AllDigits(s) then ParseNat(s)
    else 0
  }

  lemma {:induction false} ParsePrintNat(n: nat)
    ensures ParseNat(PrintNat(n)) == n
  {
    var s := PrintNat(n);
    if n < 10 {
      assert s[..0] == [];
    } else {
      ParsePrintNat(n / 10);
      assert s[..|s| - 1] == PrintNat(n / 10);
    }
  }

  lemma AtoiPrintInt(n: int)
    ensures Atoi(PrintInt(n)) == n
  {
    if n < 0 {
      ParsePrintNat(-n);
      assert PrintInt(n)[1..] == PrintNat(-n);
    } else {
      ParsePrintNat(n);
      assert IsDigit(PrintNat(n)[0]);
    }
  }
}
