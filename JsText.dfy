/** The JavaScript string primitives the two pages rely on: the decimal
    rendering of an integer-valued number (`toString` and template
    interpolation), `padStart` with a one-character pad, and the relational
    `<` on strings, which compares code unit by code unit. A reader for the
    decimal rendering is included so that its output can be shown to be
    unambiguous. */
module JsText {

  import opened Wrappers

  predicate IsDigit(c: char) {
    '0' <= c <= '9'
  }

  function DigitValue(c: char): (d: nat)
    requires IsDigit(c)
    ensures d < 10
  {
    (c as int) - ('0' as int)
  }

  function DigitChar(d: nat): (c: char)
    requires d < 10
    ensures IsDigit(c) && DigitValue(c) == d
  {
    (('0' as int) + d) as char
  }

  predicate AllDigits(s: string) {
    forall i :: 0 <= i < |s| ==> IsDigit(s[i])
  }

  /** The number a string of decimal digits denotes, most significant first. */
  function DecimalValue(s: string): nat
    requires AllDigits(s)
  {
    if s == [] then 0 else 10 * DecimalValue(s[..|s| - 1]) + DigitValue(s[|s| - 1])
  }

  /** `n.toString()` for a non-negative integer: the shortest decimal
      numeral, without leading zeros, that denotes `n`. */
  function NatToString(n: nat): (s: string)
    ensures 1 <= |s| && AllDigits(s)
    ensures |s| > 1 ==> s[0] != '0'
    ensures DecimalValue(s) == n
    decreases n
  {
    if n < 10 then
      [DigitChar(n)]
    else
      var prefix := NatToString(n / 10);
      var s := prefix + [DigitChar(n % 10)];
      assert s[..|s| - 1] == prefix;
      assert |prefix| == 1 ==> DecimalValue(prefix) == DigitValue(prefix[0]) by {
        if |prefix| == 1 { assert prefix[..0] == []; }
      }
      s
  }

  /** `i.toString()` for an integer-valued number: a minus sign exactly for
      negative values, then the numeral of the magnitude. */
  function IntToString(i: int): (s: string)
    ensures 1 <= |s|
    ensures (s[0] == '-') <==> i < 0
  {
    if i < 0 then "-" + NatToString(-i) else NatToString(i)
  }

  /** `s.padStart(len, [pad])`: `s` preceded by as many copies of `pad` as
      bring it to length `len`; `s` itself when it is already that long. */
  function PadStart(s: string, len: nat, pad: char): (r: string)
    ensures |r| == if |s| >= len then |s| else len
    ensures r[|r| - |s|..] == s
    ensures forall i :: 0 <= i < |r| - |s| ==> r[i] == pad
  {
    if |s| >= len then s else seq(len - |s|, _ => pad) + s
  }

  /** The relational `a < b` on two strings: the first position where they
      differ decides; a proper prefix is smaller than the longer string. */
  predicate StringLess(a: string, b: string): (r: bool)
    ensures r ==> a != b
    ensures |a| < |b| && a == b[..|a|] ==> r
  {
    if |b| == 0 then false
    else if |a| == 0 then true
    else if a[0] != b[0] then a[0] < b[0]
    else
      assert |a| < |b| && a == b[..|a|] ==> a[1..] == b[1..][..|a| - 1];
      StringLess(a[1..], b[1..])
  }

  /** No two strings are each less than the other. */
  lemma {:induction false} StringLessAsymmetric(a: string, b: string)
    ensures !(StringLess(a, b) && StringLess(b, a))
    decreases |a|
  {
    if |a| > 0 && |b| > 0 && a[0] == b[0] {
      StringLessAsymmetric(a[1..], b[1..]);
    }
  }

  /** Length of the longest run of digits at the front of `s`. */
  function DigitRun(s: string): (n: nat)
    ensures n <= |s| && AllDigits(s[..n])
    ensures n < |s| ==> !IsDigit(s[n])
  {
    if s == [] || !IsDigit(s[0]) then 0
    else
      var n := 1 + DigitRun(s[1..]);
      assert forall i :: 1 <= i < n ==> s[..n][i] == s[1..][..n - 1][i - 1];
      n
  }

  /** Reads a maximal non-empty run of digits; yields its value and what
      follows it. */
  function ReadNat(s: string): Option<(nat, string)> {
    var n := DigitRun(s);
    if n == 0 then None else Some((DecimalValue(s[..n]), s[n..]))
  }

  /** Reads an optional minus sign followed by a maximal non-empty run of
      digits; yields the integer read and what follows it. */
  function ReadInt(s: string): Option<(int, string)> {
    if |s| > 0 && s[0] == '-' then
      match ReadNat(s[1..])
      case None => None
      case Some((magnitude, rest)) => Some((-(magnitude as int), rest))
    else
      match ReadNat(s)
      case None => None
      case Some((magnitude, rest)) => Some((magnitude as int, rest))
  }

  lemma {:induction false} DigitRunOfNumeral(d: string, rest: string)
    requires AllDigits(d)
    requires rest == [] || !IsDigit(rest[0])
    ensures DigitRun(d + rest) == |d|
    decreases |d|
  {
    if d != [] {
      assert (d + rest)[1..] == d[1..] + rest;
      DigitRunOfNumeral(d[1..], rest);
    } else {
      assert d + rest == rest;
    }
  }

  /** Reading a numeral yields its value and what follows it. */
  lemma ReadNumeral(numeral: string, rest: string)
    requires 1 <= |numeral| && AllDigits(numeral)
    requires rest == [] || !IsDigit(rest[0])
    ensures ReadNat(numeral + rest) == Some((DecimalValue(numeral), rest))
  {
    var s := numeral + rest;
    DigitRunOfNumeral(numeral, rest);
    assert s[..|numeral|] == numeral;
    assert s[|numeral|..] == rest;
  }

  lemma ReadNegative(i: int, rest: string)
    requires i < 0
    requires rest == [] || !IsDigit(rest[0])
    ensures ReadInt("-" + NatToString(-i) + rest) == Some((i, rest))
  {
    var numeral := NatToString(-i);
    var s := "-" + numeral + rest;
    assert s[0] == '-' && s[1..] == numeral + rest;
    ReadNumeral(numeral, rest);
  }

  lemma ReadNonNegative(i: int, rest: string)
    requires i >= 0
    requires rest == [] || !IsDigit(rest[0])
    ensures ReadInt(NatToString(i) + rest) == Some((i, rest))
  {
    var numeral := NatToString(i);
    assert (numeral + rest)[0] == numeral[0];
    ReadNumeral(numeral, rest);
  }

  /** Reading back what `IntToString` wrote gives the same integer, as long
      as the numeral is not followed by another digit. */
  lemma ReadIntToString(i: int, rest: string)
    requires rest == [] || !IsDigit(rest[0])
    ensures ReadInt(IntToString(i) + rest) == Some((i, rest))
  {
    if i < 0 {
      ReadNegative(i, rest);
    } else {
      ReadNonNegative(i, rest);
    }
  }
}
