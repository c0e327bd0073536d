/** Decimal text of integers: std::to_string, std::stoi, std::stoll and strtoll. */
module Decimal {
  import opened Common
  import opened Numerals

  const INT_MIN: int := -0x8000_0000
  const INT_MAX: int := 0x7fff_ffff
  const LONG_MIN: int := -0x8000_0000_0000_0000
  const LONG_MAX: int := 0x7fff_ffff_ffff_ffff

  type int32 = x: int | INT_MIN <= x <= INT_MAX
  type int64 = x: int | LONG_MIN <= x <= LONG_MAX

  predicate IsDigit(c: char) {
    '0' <= c <= '9'
  }

  predicate AllDigits(s: string) {
    forall i :: 0 <= i < |s| ==> IsDigit(s[i])
  }

  function DigitText(ds: seq<nat>): (s: string)
    requires Below(ds, 10)
    ensures |s| == |ds| && AllDigits(s)
  {
    seq(|ds|, i requires 0 <= i < |ds| => (48 + ds[i]) as char)
  }

  function DigitValues(s: string): (ds: seq<nat>)
    requires AllDigits(s)
    ensures |ds| == |s| && Below(ds, 10)
  {
    seq(|s|, i requires 0 <= i < |s| => s[i] as int - 48)
  }

  /** The number that a string of digits denotes. */
  function Number(s: string): nat
    requires AllDigits(s)
  {
    Value(DigitValues(s), 10)
  }

  function NatText(n: nat): (s: string)
    ensures AllDigits(s) && |s| > 0
  {
    DigitsMeaning(n, 10);
    DigitText(Digits(n, 10))
  }

  /** std::to_string */
  function ToString(n: int): string {
    if n < 0 then "-" + NatText(-n) else NatText(n)
  }

  function TrimLeft(s: string): string {
    if s != "" && IsSpace(s[0]) then TrimLeft(s[1..]) else s
  }

  function LeadingDigits(s: string): (d: string)
    ensures AllDigits(d)
  {
    if s != "" && IsDigit(s[0]) then [s[0]] + LeadingDigits(s[1..]) else ""
  }

  /** The integer at the start of a text, after white space and an optional sign; none without digits. */
  function Parse(s: string): Option<int> {
    var t := TrimLeft(s);
    var signed := t != "" && (t[0] == '-' || t[0] == '+');
    var d := LeadingDigits(if signed then t[1..] else t);
    if d == "" then None
    else
      var n: int := Number(d);
      Some(if signed && t[0] == '-' then -n else n)
  }

  /** std::stoi */
  function Stoi(s: string): Result<int32> {
    match Parse(s)
    case None => Err(InvalidArgument)
    case Some(n) => if INT_MIN <= n <= INT_MAX then Ok(n) else Err(OutOfRange)
  }

  /** std::stoll */
  function Stoll(s: string): Result<int64> {
    match Parse(s)
    case None => Err(InvalidArgument)
    case Some(n) => if LONG_MIN <= n <= LONG_MAX then Ok(n) else Err(OutOfRange)
  }

  /** strtoll: 0 without digits, clamped to the range. */
  function Strtoll(s: string): int64 {
    match Parse(s)
    case None => 0
    case Some(n) => if n < LONG_MIN then LONG_MIN else if n > LONG_MAX then LONG_MAX else n
  }

  lemma {:induction false} LeadingDigitsOfAll(s: string)
    requires AllDigits(s)
    ensures LeadingDigits(s) == s
  {
    if s != "" {
      LeadingDigitsOfAll(s[1..]);
    }
  }

  /** The digits of a number denote it, without a superfluous zero. */
  lemma NatTextMeaning(n: nat)
    ensures Number(NatText(n)) == n && (n > 0 ==> NatText(n)[0] != '0')
  {
    DigitsMeaning(n, 10);
    assert DigitValues(NatText(n)) == Digits(n, 10);
  }

  lemma ParseDigits(d: string)
    requires AllDigits(d) && d != ""
    ensures Parse(d) == Some(Number(d)) && Parse("-" + d) == Some(-(Number(d) as int))
  {
    LeadingDigitsOfAll(d);
    var t := "-" + d;
    assert t[1..] == d;
  }

  /** Reading back what to_string printed gives the number. */
  lemma ParseToString(n: int)
    ensures Parse(ToString(n)) == Some(n)
  {
    var m: nat := if n < 0 then -n else n;
    NatTextMeaning(m);
    ParseDigits(NatText(m));
  }

  /** Different integers print differently. */
  lemma ToStringInjective(m: int, n: int)
    requires ToString(m) == ToString(n)
    ensures m == n
  {
    ParseToString(m);
    ParseToString(n);
  }
}
