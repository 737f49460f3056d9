/** Decimal rendering of integers (Python's `str` of an integer) and the
    inverse parse of a bin label "<start>to<end><unit>". */
module Text {

  import opened Wrappers

  predicate IsDigit(c: char) {
    '0' <= c <= '9'
  }

  predicate AllDigits(s: string) {
    forall i :: 0 <= i < |s| ==> IsDigit(s[i])
  }

  function DigitChar(n: int): (c: char)
    requires 0 <= n < 10
    ensures IsDigit(c)
  {
    ['0', '1', '2', '3', '4', '5', '6', '7', '8', '9'][n]
  }

  function DigitValue(c: char): (n: int)
    requires IsDigit(c)
    ensures 0 <= n < 10
  {
    c as int - '0' as int
  }

  /** `str(n)` for a non-negative integer: decimal, no leading zeros. */
  function NatToString(n: nat): (s: string)
    ensures |s| > 0 && AllDigits(s)
  {
    if n < 10 then [DigitChar(n)] else NatToString(n / 10) + [DigitChar(n % 10)]
  }

  /** `str(n)` for any integer. */
  function IntToString(n: int): string {
    if n >= 0 then NatToString(n) else "-" + NatToString(-n)
  }

  /** The value of a string of decimal digits (most significant first). */
  function ParseNat(s: string): nat
    requires AllDigits(s)
  {
    if s == [] then 0 else ParseNat(s[..|s| - 1]) * 10 + DigitValue(s[|s| - 1])
  }

  /** The longest prefix of s made of digits. */
  function TakeDigits(s: string): (r: string)
    ensures AllDigits(r) && r <= s
    ensures |r| < |s| ==> !IsDigit(s[|r|])
  {
    if s != [] && IsDigit(s[0]) then [s[0]] + TakeDigits(s[1..]) else []
  }

  lemma {:induction false} ParseNatToString(n: nat)
    ensures ParseNat(NatToString(n)) == n
  {
    if n >= 10 {
      var s := NatToString(n);
      assert s[..|s| - 1] == NatToString(n / 10);
      ParseNatToString(n / 10);
    }
  }

  lemma {:induction false} TakeDigitsOfPrefix(d: string, rest: string)
    requires AllDigits(d)
    requires rest == [] || !IsDigit(rest[0])
    ensures TakeDigits(d + rest) == d
  {
    if d != [] {
      assert (d + rest)[1..] == d[1..] + rest;
      TakeDigitsOfPrefix(d[1..], rest);
    }
  }

  lemma NatToStringInjective(a: nat, b: nat)
    requires NatToString(a) == NatToString(b)
    ensures a == b
  {
    ParseNatToString(a);
    ParseNatToString(b);
  }

  /** Splits a label "<digits>to<digits><unit>" into its start, end and unit. */
  function ParseLabel(l: string): Option<(nat, nat, string)> {
    var a := TakeDigits(l);
    var r1 := l[|a|..];
    if a == [] || |r1| < 2 || r1[..2] != "to" then None
    else
      var r2 := r1[2..];
      var b := TakeDigits(r2);
      if b == [] then None else Some((ParseNat(a), ParseNat(b), r2[|b|..]))
  }

  lemma SuffixAfter(a: string, b: string)
    ensures (a + b)[|a|..] == b
  {
  }

  /** A label built from two non-negative offsets and a unit that does not
      start with a digit parses back to exactly those three parts. */
  lemma LabelRoundTrip(s: nat, e: nat, unit: string)
    requires unit == [] || !IsDigit(unit[0])
    ensures ParseLabel(NatToString(s) + "to" + NatToString(e) + unit) == Some((s, e, unit))
  {
    var ss, es := NatToString(s), NatToString(e);
    var r2 := es + unit;
    var r1 := "to" + r2;
    var l := ss + r1;
    assert ss + "to" + es + unit == l;
    TakeDigitsOfPrefix(ss, r1);
    SuffixAfter(ss, r1);
    assert r1[..2] == "to";
    SuffixAfter("to", r2);
    TakeDigitsOfPrefix(es, unit);
    SuffixAfter(es, unit);
    ParseNatToString(s);
    ParseNatToString(e);
  }
}
