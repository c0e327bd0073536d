/** Hexadecimal text: single digits, byte strings (toHexString and fromHexString) and numbers. */
module Hex {
  import opened Common
  import opened Numerals

  predicate IsHexDigit(c: char) {
    '0' <= c <= '9' || 'a' <= c <= 'f' || 'A' <= c <= 'F'
  }

  predicate IsLowerHexDigit(c: char) {
    '0' <= c <= '9' || 'a' <= c <= 'f'
  }

  /** The value of a hex digit of either case. */
  function HexValue(c: char): (v: nat)
    ensures v < 16
  {
    if '0' <= c <= '9' then c as int - 48
    else if 'a' <= c <= 'f' then c as int - 87
    else if 'A' <= c <= 'F' then c as int - 55
    else 0
  }

  function HexSymbol(v: nat): (c: char)
    requires v < 16
    ensures IsLowerHexDigit(c) && HexValue(c) == v
  {
    if v < 10 then (48 + v) as char else (87 + v) as char
  }

  predicate AllHex(s: string) {
    forall i :: 0 <= i < |s| ==> IsHexDigit(s[i])
  }

  predicate LowerHex(s: string) {
    forall i :: 0 <= i < |s| ==> IsLowerHexDigit(s[i])
  }

  /** ASCII lower case, as std::tolower in the C locale. */
  function LowerChar(c: char): char {
    if 'A' <= c <= 'Z' then (c as int + 32) as char else c
  }

  function Lower(s: string): (r: string)
    ensures |r| == |s|
  {
    seq(|s|, i requires 0 <= i < |s| => LowerChar(s[i]))
  }

  /** The digit values of a hex string. */
  function HexDigits(s: string): (ds: seq<nat>)
    ensures |ds| == |s| && Below(ds, 16)
  {
    seq(|s|, i requires 0 <= i < |s| => HexValue(s[i]))
  }

  /** The number that a hex string denotes. */
  function HexNumber(s: string): nat {
    Value(HexDigits(s), 16)
  }

  function HexText(ds: seq<nat>): (s: string)
    requires Below(ds, 16)
    ensures |s| == |ds| && LowerHex(s) && HexDigits(s) == ds
  {
    seq(|ds|, i requires 0 <= i < |ds| => HexSymbol(ds[i]))
  }

  /** Lower-case hex text is determined by its digit values. */
  lemma HexTextOfDigits(s: string)
    requires LowerHex(s)
    ensures HexText(HexDigits(s)) == s
  {
  }

  /** A number in lower-case hex without leading zeros, and "0" for zero. */
  function HexNumeral(n: nat): string {
    DigitsMeaning(n, 16);
    HexText(Digits(n, 16))
  }

  /** Two lower-case hex digits for every byte. */
  function ToHex(bs: seq<byte>): (s: string)
    ensures |s| == 2 * |bs| && LowerHex(s)
  {
    seq(2 * |bs|, i requires 0 <= i < 2 * |bs| => HexSymbol(if i % 2 == 0 then bs[i / 2] / 16 else bs[i / 2] % 16))
  }

  /** The bytes of an even number of hex digits. */
  function OfHex(s: string): (bs: seq<byte>)
    requires |s| % 2 == 0
    ensures |bs| == |s| / 2
  {
    seq(|s| / 2, i requires 0 <= i < |s| / 2 => HexValue(s[2 * i]) * 16 + HexValue(s[2 * i + 1]))
  }

  /** Decoding undoes encoding. */
  lemma HexRoundTrip(bs: seq<byte>)
    ensures OfHex(ToHex(bs)) == bs
  {
    forall i | 0 <= i < |bs|
      ensures OfHex(ToHex(bs))[i] == bs[i]
    {
      assert (2 * i) / 2 == i && (2 * i) % 2 == 0 && (2 * i + 1) / 2 == i && (2 * i + 1) % 2 == 1;
    }
  }

  /** Encoding undoes decoding up to letter case. */
  lemma HexDecodeEncode(s: string)
    requires |s| % 2 == 0 && AllHex(s)
    ensures ToHex(OfHex(s)) == Lower(s)
    ensures LowerHex(s) ==> ToHex(OfHex(s)) == s
  {
    var bs := OfHex(s);
    forall i | 0 <= i < |s|
      ensures ToHex(bs)[i] == LowerChar(s[i])
    {
      assert IsHexDigit(s[i]);
      hide AllHex, IsHexDigit, HexSymbol, HexValue, LowerChar;
      var j := i / 2;
      assert bs[j] == HexValue(s[2 * j]) * 16 + HexValue(s[2 * j + 1]);
      Nibbles(HexValue(s[2 * j]), HexValue(s[2 * j + 1]));
      HexSymbolOfValue(s[i]);
    }
    assert ToHex(OfHex(s)) == Lower(s);
    if LowerHex(s) {
      assert Lower(s) == s;
    }
  }

  lemma Nibbles(hi: nat, lo: nat)
    requires lo < 16
    ensures (hi * 16 + lo) / 16 == hi && (hi * 16 + lo) % 16 == lo
  {
  }

  lemma HexSymbolOfValue(c: char)
    requires IsHexDigit(c)
    ensures HexSymbol(HexValue(c)) == LowerChar(c)
  {
  }

  lemma ToHexSnoc(bs: seq<byte>, b: byte)
    ensures ToHex(bs + [b]) == ToHex(bs) + [HexSymbol(b / 16), HexSymbol(b % 16)]
  {
    var l, r := ToHex(bs + [b]), ToHex(bs) + [HexSymbol(b / 16), HexSymbol(b % 16)];
    forall i | 0 <= i < |l|
      ensures l[i] == r[i]
    {
      assert i == 2 * (i / 2) + i % 2;
    }
  }

  method ToHexString(data: seq<byte>) returns (out: string)
    ensures out == ToHex(data)
  {
    out := "";
    for k := 0 to |data|
      invariant out == ToHex(data[..k])
    {
      ToHexSnoc(data[..k], data[k]);
      assert data[..k] + [data[k]] == data[..k + 1];
      out := out + [HexSymbol(data[k] / 16), HexSymbol(data[k] % 16)];
    }
    assert data[..|data|] == data;
  }

  /** Rejects exactly the odd lengths and the strings with a character that is not a hex digit. */
  method FromHexString(str: string) returns (r: Result<seq<byte>>)
    ensures r == if |str| % 2 == 0 && AllHex(str) then Ok(OfHex(str)) else Err(InvalidArgument)
  {
    if |str| % 2 != 0 {
      return Err(InvalidArgument);
    }
    var bytes: seq<byte> := [];
    var i := 0;
    while i < |str|
      invariant 0 <= i <= |str| && i % 2 == 0
      invariant AllHex(str[..i])
      invariant bytes == OfHex(str[..i])
    {
      if !IsHexDigit(str[i]) || !IsHexDigit(str[i + 1]) {
        return Err(InvalidArgument);
      }
      bytes := bytes + [HexValue(str[i]) * 16 + HexValue(str[i + 1])];
      i := i + 2;
    }
    assert str[..|str|] == str;
    return Ok(bytes);
  }
}
