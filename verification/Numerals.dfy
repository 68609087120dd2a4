/**
 Decimal numerals as the host language writes and reads them: `String(n)` and `Number.parseInt(s, 10)`
 for integers.
 */
module Numerals {
  import opened Common

  function DigitChar(d: nat): char
    requires d < 10
  {
    "0123456789"[d]
  }

  predicate IsDigit(c: char) {
    '0' <= c <= '9'
  }

  function DigitValue(c: char): nat
    requires IsDigit(c)
  {
    c as int - '0' as int
  }

  function Digits(n: nat): (s: string)
    ensures s != "" && forall i | 0 <= i < |s| :: IsDigit(s[i])
  {
    if n < 10 then [DigitChar(n)] else Digits(n / 10) + [DigitChar(n % 10)]
  }

  /** String(n). */
  function Numeral(n: int): string {
    if n < 0 then "-" + Digits(-n) else Digits(n)
  }

  predicate IsSpace(c: char) {
    c == ' ' || c == '\t' || c == '\n' || c == '\r'
  }

  function TrimStart(s: string): string {
    if s != "" && IsSpace(s[0]) then TrimStart(s[1..]) else s
  }

  /** The longest prefix of digits. */
  function DigitPrefix(s: string): (p: string)
    ensures p <= s && forall i | 0 <= i < |p| :: IsDigit(p[i])
  {
    if s != "" && IsDigit(s[0]) then [s[0]] + DigitPrefix(s[1..]) else ""
  }

  function ValueOf(s: string): nat
    requires forall i | 0 <= i < |s| :: IsDigit(s[i])
  {
    if s == "" then 0 else 10 * ValueOf(s[..|s| - 1]) + DigitValue(s[|s| - 1])
  }

  function ParseUnsigned(s: string): Option<nat> {
    var p := DigitPrefix(s);
    if p == "" then None else Some(ValueOf(p))
  }

  /** Number.parseInt(s, 10), None for NaN: leading space and a sign are read, what follows the digits ignored. */
  function ParseInt(s: string): Option<int> {
    var t := TrimStart(s);
    var negative := t != "" && t[0] == '-';
    var signed := negative || (t != "" && t[0] == '+');
    match ParseUnsigned(if signed then t[1..] else t)
    case None => None
    case Some(n) => if negative then Some(-(n as int)) else Some(n as int)
  }

  lemma {:induction false} AllDigits(s: string)
    requires forall i | 0 <= i < |s| :: IsDigit(s[i])
    ensures DigitPrefix(s) == s
  {
    if s != "" { AllDigits(s[1..]); }
  }

  lemma {:induction false} ValueOfDigits(n: nat)
    ensures ValueOf(Digits(n)) == n
  {
    if n >= 10 {
      ValueOfDigits(n / 10);
      assert Digits(n)[..|Digits(n)| - 1] == Digits(n / 10);
    }
  }

  lemma ParseDigits(n: nat)
    ensures ParseUnsigned(Digits(n)) == Some(n)
  {
    AllDigits(Digits(n));
    ValueOfDigits(n);
  }

  /** Without leading space, a minus sign negates and a leading digit is read as it stands. */
  lemma ParseSigned(s: string)
    requires s != ""
    ensures s[0] == '-' && ParseUnsigned(s[1..]).Some? ==> ParseInt(s) == Some(-(ParseUnsigned(s[1..]).value as int))
    ensures IsDigit(s[0]) && ParseUnsigned(s).Some? ==> ParseInt(s) == Some(ParseUnsigned(s).value as int)
  {
    if s[0] == '-' || IsDigit(s[0]) { assert TrimStart(s) == s; }
  }

  /** Reading back what was written gives the number, so distinct numbers have distinct numerals. */
  lemma ParseNumeral(n: int)
    ensures ParseInt(Numeral(n)) == Some(n)
  {
    var d := Digits(if n < 0 then -n else n);
    ParseDigits(if n < 0 then -n else n);
    assert IsDigit(d[0]);
    if n < 0 {
      assert ("-" + d)[1..] == d;
      ParseSigned("-" + d);
    } else {
      ParseSigned(d);
    }
  }

  lemma {:induction false} DigitsEnd(p: string, tail: string)
    requires forall i | 0 <= i < |p| :: IsDigit(p[i])
    requires tail == "" || !IsDigit(tail[0])
    ensures DigitPrefix(p + tail) == p
  {
    if p == "" {
      assert p + tail == tail;
    } else {
      assert (p + tail)[1..] == p[1..] + tail;
      DigitsEnd(p[1..], tail);
    }
  }

  /** What follows the digits is ignored. */
  lemma ParseIgnoresTheTail(n: nat, tail: string)
    requires tail == "" || !IsDigit(tail[0])
    ensures ParseInt(Numeral(n) + tail) == Some(n)
  {
    var s := Digits(n) + tail;
    DigitsEnd(Digits(n), tail);
    ValueOfDigits(n);
    assert s[0] == Digits(n)[0] && IsDigit(s[0]);
    ParseSigned(s);
  }

  /** Leading space and a plus sign are skipped. */
  lemma ParseSkips(n: nat, s: string)
    ensures ParseInt(" " + s) == ParseInt(s)
    ensures ParseInt("+" + Numeral(n)) == Some(n)
  {
    assert (" " + s)[1..] == s;
    assert ("+" + Numeral(n))[1..] == Numeral(n);
    ParseDigits(n);
  }

  /** The numerals are decimal, a minus sign comes first, and text without digits is no number. */
  lemma NumeralsAreDecimal(n: nat, d: nat, s: string)
    requires d < 10
    ensures Numeral(d) == ["0123456789"[d]]
    ensures n > 0 ==> Numeral(10 * n + d) == Numeral(n) + ["0123456789"[d]] && Numeral(-(n as int)) == "-" + Numeral(n)
    ensures s == "" || ('a' <= s[0] <= 'z') ==> ParseInt(s) == None
  {
  }
}
