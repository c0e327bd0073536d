/** Base64 as in section 4 of RFC 4648: toBase64, fromBase64, the strict form and the hex compositions. */
module Base64 {
  import opened Common
  import opened Numerals
  import opened Hex
  import opened Bits

  predicate IsSymbol(c: char) {
    'A' <= c <= 'Z' || 'a' <= c <= 'z' || '0' <= c <= '9' || c == '+' || c == '/'
  }

  /** The symbol of a 6-bit value: A-Z, a-z, 0-9, then + and /. */
  function Symbol(v: nat): (c: char)
    requires v < 64
    ensures IsSymbol(c) && Sextet(c) == v
  {
    if v < 26 then (v + 65) as char
    else if v < 52 then (v + 71) as char
    else if v < 62 then (v - 4) as char
    else if v == 62 then '+' else '/'
  }

  /** The decoding table: the 6-bit value of a symbol, and -1 for every other character. */
  function Sextet(c: char): (v: int)
    ensures -1 <= v < 64 && (v >= 0 <==> IsSymbol(c))
  {
    if 'A' <= c <= 'Z' then c as int - 65
    else if 'a' <= c <= 'z' then c as int - 71
    else if '0' <= c <= '9' then c as int + 4
    else if c == '+' then 62
    else if c == '/' then 63
    else -1
  }

  lemma SymbolOfSextet(c: char)
    requires IsSymbol(c)
    ensures Symbol(Sextet(c)) == c
  {
  }

  /** 2^k for the shift distances that the codec uses. */
  function Two(k: nat): (p: nat)
    requires k in {0, 6, 8, 12, 16, 18, 24}
    ensures p > 0
  {
    if k == 0 then 1 else if k == 6 then 64 else if k == 8 then 256 else if k == 12 then 4096
    else if k == 16 then 65536 else if k == 18 then 262144 else 16777216
  }

  function From<T>(s: seq<T>, i: nat): seq<T> {
    if i < |s| then s[i..] else []
  }

  // ----- encoding

  /** Up to three bytes as a 24-bit group, the missing bytes zero. */
  function Group24(block: seq<byte>): (v: nat)
    requires 1 <= |block| <= 3
    ensures v < 16777216
  {
    var b0: nat, b1: nat, b2: nat := block[0], if |block| > 1 then block[1] else 0, if |block| > 2 then block[2] else 0;
    b0 * 65536 + b1 * 256 + b2
  }

  /** The four 6-bit values of a 24-bit group. */
  function Quarters(v: nat): (vs: seq<nat>)
    requires v < 16777216
    ensures |vs| == 4 && Below(vs, 64)
  {
    [v / 262144, v / 4096 % 64, v / 64 % 64, v % 64]
  }

  /** Symbols filled up to four characters with padding. */
  function Padded(vs: seq<nat>): (s: string)
    requires |vs| <= 4 && Below(vs, 64)
    ensures |s| == 4
  {
    seq(4, j requires 0 <= j < 4 => if j < |vs| then Symbol(vs[j]) else '=')
  }

  function EncodeBlock(block: seq<byte>): (s: string)
    requires 1 <= |block| <= 3
    ensures |s| == 4
  {
    Padded(Quarters(Group24(block))[..|block| + 1])
  }

  function Encode(data: seq<byte>): string {
    if |data| == 0 then ""
    else
      var n := if |data| < 3 then |data| else 3;
      EncodeBlock(data[..n]) + Encode(data[n..])
  }

  lemma ValueOfFew(vs: seq<nat>, b: nat)
    requires |vs| <= 4
    ensures |vs| == 0 ==> Value(vs, b) == 0
    ensures |vs| == 1 ==> Value(vs, b) == vs[0]
    ensures |vs| == 2 ==> Value(vs, b) == vs[0] * b + vs[1]
    ensures |vs| == 3 ==> Value(vs, b) == (vs[0] * b + vs[1]) * b + vs[2]
    ensures |vs| == 4 ==> Value(vs, b) == ((vs[0] * b + vs[1]) * b + vs[2]) * b + vs[3]
  {
    if |vs| > 1 {
      ValueOfFew(vs[..|vs| - 1], b);
    } else if |vs| == 1 {
      assert vs[..0] == [];
    }
  }

  lemma BytesBelow(block: seq<byte>)
    ensures Below(block, 256)
  {
  }

  lemma BytesGroup(block: seq<byte>)
    requires 1 <= |block| <= 3
    ensures Value(block, 256) * Two((3 - |block|) * 8) == Group24(block)
  {
    ValueOfFew(block, 256);
  }

  /** Accumulating one more digit does not overflow 32 bits. */
  lemma AccumulateStep(vs: seq<nat>, v: nat, b: nat)
    requires |vs| <= 3 && Below(vs, b) && v < b && (b == 64 || (b == 256 && |vs| <= 2))
    ensures Or(Wrap32(Value(vs, b) * b), v) == Value(vs + [v], b)
  {
    hide Or;
    ValueSnoc(vs, v, b);
    ValueOfFew(vs, b);
    assert Value(vs, b) < 262144;
    SmallWrap(Value(vs, b) * b);
    assert Pow(2, 6) == 64 && Pow(2, 8) == 256;
    OrShifted(Value(vs, b), v, if b == 64 then 6 else 8);
  }

  lemma BlockSymbol(block: seq<byte>, j: nat)
    requires 1 <= |block| <= 3 && j < 4
    ensures EncodeBlock(block)[j] == if j <= |block| then Symbol(Group24(block) / Two(18 - j * 6) % 64) else '='
  {
    hide Group24;
    var v := Group24(block);
    assert v / 262144 % 64 == v / 262144;
  }

  /** One round of the encoding loop: up to three bytes from index i on. */
  method EncodeGroup(data: seq<byte>, i: nat) returns (symbols: string)
    requires i < |data|
    ensures symbols == EncodeBlock(data[i..][..if |data| - i < 3 then |data| - i else 3])
  {
    hide EncodeBlock, Group24, Symbol, Two, Wrap32, Or;
    ghost var n := if |data| - i < 3 then |data| - i else 3;
    ghost var block := data[i..][..n];
    var value, count := 0, 0;
    while count < 3 && i + count < |data|
      invariant 0 <= count <= n
      invariant value == Value(block[..count], 256)
    {
      BytesBelow(block[..count]);
      AccumulateStep(block[..count], block[count], 256);
      assert block[..count] + [block[count]] == block[..count + 1];
      value := Or(Wrap32(value * 256), data[i + count]);
      count := count + 1;
    }
    assert block[..n] == block && count == n;
    BytesGroup(block);
    value := Wrap32(value * Two((3 - count) * 8));
    assert value == Group24(block) by {
      SmallWrap(Group24(block));
    }
    symbols := "";
    for j := 0 to 4
      invariant symbols == EncodeBlock(block)[..j]
    {
      BlockSymbol(block, j);
      assert EncodeBlock(block)[..j + 1] == EncodeBlock(block)[..j] + [EncodeBlock(block)[j]];
      if j <= count {
        symbols := symbols + [Symbol(value / Two(18 - j * 6) % 64)];
      } else {
        symbols := symbols + "=";
      }
    }
  }

  method ToBase64(data: seq<byte>) returns (result: string)
    ensures result == Encode(data)
  {
    hide EncodeBlock;
    result := "";
    var i := 0;
    while i < |data|
      invariant 0 <= i
      invariant result + Encode(From(data, i)) == Encode(data)
    {
      var symbols := EncodeGroup(data, i);
      assert From(data, i)[if |data| - i < 3 then |data| - i else 3..] == From(data, i + 3);
      assert result + (symbols + Encode(From(data, i + 3))) == (result + symbols) + Encode(From(data, i + 3));
      result := result + symbols;
      i := i + 3;
    }
  }

  // ----- decoding

  /** The values of the alphabet characters of s, in order; padding and foreign characters are skipped. */
  function Sextets(s: string): (vs: seq<nat>)
    ensures |vs| <= |s| && Below(vs, 64)
  {
    if |s| == 0 then []
    else
      var v := Sextet(s[|s| - 1]);
      Sextets(s[..|s| - 1]) + if v >= 0 then [v] else []
  }

  /** Up to four 6-bit values as a 24-bit group, the missing ones zero. */
  function Group6(vs: seq<nat>): (v: nat)
    requires |vs| <= 4 && Below(vs, 64)
    ensures v < 16777216
  {
    (if |vs| > 0 then vs[0] * 262144 else 0) + (if |vs| > 1 then vs[1] * 4096 else 0)
    + (if |vs| > 2 then vs[2] * 64 else 0) + (if |vs| > 3 then vs[3] else 0)
  }

  /** All whole bytes of the group. */
  function DecodeSextets(vs: seq<nat>): (bs: seq<byte>)
    requires |vs| <= 4 && Below(vs, 64)
    ensures |bs| == if |vs| == 0 then 0 else |vs| - 1
  {
    var v := Group6(vs);
    [v / 65536, v / 256 % 256, v % 256][..if |vs| == 0 then 0 else |vs| - 1]
  }

  function Decode(s: string): seq<byte> {
    if |s| == 0 then []
    else
      var n := if |s| < 4 then |s| else 4;
      DecodeSextets(Sextets(s[..n])) + Decode(s[n..])
  }

  lemma AccumulatedGroup(vs: seq<nat>)
    requires |vs| <= 4 && Below(vs, 64)
    ensures Value(vs, 64) * Two((4 - |vs|) * 6) == Group6(vs)
  {
    ValueOfFew(vs, 64);
  }

  lemma SextetsStep(block: string, k: nat)
    requires k < |block| <= 4
    ensures Sextets(block[..k + 1]) ==
         if Sextet(block[k]) >= 0 then Sextets(block[..k]) + [Sextet(block[k])] else Sextets(block[..k])
  {
    assert block[..k + 1][..k] == block[..k];
  }

  lemma BlockByte(vs: seq<nat>, j: nat)
    requires |vs| <= 4 && Below(vs, 64) && j < |vs| - 1
    ensures DecodeSextets(vs)[j] == Group6(vs) / Two(16 - j * 8) % 256
  {
    hide Group6;
    var v := Group6(vs);
    assert v / 65536 % 256 == v / 65536;
  }

  /** One round of the decoding loop: up to four characters from index i on. */
  method DecodeGroup(str: string, i: nat) returns (bytes: seq<byte>)
    requires i < |str|
    ensures bytes == DecodeSextets(Sextets(str[i..][..if |str| - i < 4 then |str| - i else 4]))
  {
    hide DecodeSextets, Sextets, Group6, Two, Wrap32, Or;
    ghost var n := if |str| - i < 4 then |str| - i else 4;
    ghost var block := str[i..][..n];
    var value, count, j := 0, 0, 0;
    assert Sextets(block[..0]) == [] by {
      assert |Sextets(block[..0])| <= 0;
    }
    while j < 4 && i + j < |str|
      invariant 0 <= j <= n
      invariant count == |Sextets(block[..j])|
      invariant value == Value(Sextets(block[..j]), 64)
    {
      SextetsStep(block, j);
      if str[i + j] != '=' {
        var index := Sextet(str[i + j]);
        if index != -1 {
          AccumulateStep(Sextets(block[..j]), index, 64);
          value := Or(Wrap32(value * 64), index);
          count := count + 1;
        }
      }
      j := j + 1;
    }
    assert block[..n] == block;
    ghost var vs := Sextets(block);
    AccumulatedGroup(vs);
    value := Wrap32(value * Two((4 - count) * 6));
    assert value == Group6(vs) by {
      SmallWrap(Group6(vs));
    }
    bytes := [];
    j := 0;
    while j < count - 1
      invariant 0 <= j && (j <= count - 1 || j == 0)
      invariant bytes == DecodeSextets(vs)[..j]
    {
      BlockByte(vs, j);
      bytes := bytes + [value / Two(16 - j * 8) % 256];
      j := j + 1;
    }
    assert DecodeSextets(vs)[..j] == DecodeSextets(vs);
  }

  method FromBase64(str: string) returns (result: seq<byte>)
    ensures result == Decode(str)
  {
    hide DecodeSextets, Sextets;
    result := [];
    var i := 0;
    while i < |str|
      invariant 0 <= i
      invariant result + Decode(From(str, i)) == Decode(str)
    {
      var bytes := DecodeGroup(str, i);
      assert From(str, i)[if |str| - i < 4 then |str| - i else 4..] == From(str, i + 4);
      assert result + (bytes + Decode(From(str, i + 4))) == (result + bytes) + Decode(From(str, i + 4));
      result := result + bytes;
      i := i + 4;
    }
  }

  // ----- round trip

  lemma Sextets4(s: string)
    requires |s| == 4 && IsSymbol(s[0]) && IsSymbol(s[1])
    ensures Sextets(s) == [Sextet(s[0]), Sextet(s[1])] + (if IsSymbol(s[2]) then [Sextet(s[2])] else [])
                          + (if IsSymbol(s[3]) then [Sextet(s[3])] else [])
  {
    assert s[..3][..2] == s[..2] && s[..2][..1] == s[..1] && s[..1][..0] == [];
    assert Sextets(s[..1]) == [Sextet(s[0])];
    assert Sextets(s[..2]) == [Sextet(s[0]), Sextet(s[1])];
  }

  lemma DivTwice(v: nat)
    ensures v / 4096 == v / 64 / 64 && v / 262144 == v / 4096 / 64 && v / 65536 == v / 256 / 256
  {
  }

  lemma Split24(v: nat)
    requires v < 16777216
    ensures v / 262144 * 262144 + v / 4096 % 64 * 4096 + v / 64 % 64 * 64 + v % 64 == v
  {
    DivTwice(v);
  }

  lemma TrailingZeros(v: nat)
    ensures v % 65536 == 0 ==> v / 64 % 64 == v % 64 == 0
    ensures v % 256 == 0 ==> v % 64 == 0
  {
    if v % 65536 == 0 {
      var k := v / 65536;
      assert v == k * 1024 * 64;
      assert v / 64 == k * 16 * 64;
    }
  }

  lemma Join24(b0: nat, b1: nat, b2: nat)
    requires b0 < 256 && b1 < 256 && b2 < 256
    ensures var v := b0 * 65536 + b1 * 256 + b2; v / 65536 == b0 && v / 256 % 256 == b1 && v % 256 == b2
  {
  }

  lemma SextetsOfPadded(vs: seq<nat>)
    requires 2 <= |vs| <= 4 && Below(vs, 64)
    ensures Sextets(Padded(vs)) == vs
  {
    Sextets4(Padded(vs));
  }

  lemma QuartersGroup(v: nat, n: nat)
    requires v < 16777216 && 2 <= n <= 4
    requires n < 4 ==> v % 64 == 0
    requires n < 3 ==> v / 64 % 64 == 0
    ensures Group6(Quarters(v)[..n]) == v
  {
    Split24(v);
  }

  lemma GroupTail(block: seq<byte>)
    requires 1 <= |block| <= 3
    ensures |block| < 3 ==> Group24(block) % 64 == 0
    ensures |block| < 2 ==> Group24(block) / 64 % 64 == 0
  {
    var v := Group24(block);
    TrailingZeros(v);
    var b0: nat, b1: nat := block[0], if |block| > 1 then block[1] else 0;
    if |block| == 1 {
      assert v == b0 * 65536;
    } else if |block| == 2 {
      assert v == (b0 * 256 + b1) * 256;
    }
  }

  lemma SextetsOfBlock(block: seq<byte>)
    requires 1 <= |block| <= 3
    ensures |Sextets(EncodeBlock(block))| == |block| + 1 && Group6(Sextets(EncodeBlock(block))) == Group24(block)
  {
    hide Sextets, Padded, Quarters, Group24, Group6;
    SextetsOfPadded(Quarters(Group24(block))[..|block| + 1]);
    GroupTail(block);
    QuartersGroup(Group24(block), |block| + 1);
  }

  lemma BlockRoundTrip(block: seq<byte>)
    requires 1 <= |block| <= 3
    ensures DecodeSextets(Sextets(EncodeBlock(block))) == block
  {
    SextetsOfBlock(block);
    Join24(block[0], if |block| > 1 then block[1] else 0, if |block| > 2 then block[2] else 0);
  }

  /** fromBase64 undoes toBase64 on every byte sequence. */
  lemma {:induction false} EncodeDecode(data: seq<byte>)
    ensures Decode(Encode(data)) == data
  {
    hide EncodeBlock, DecodeSextets, Sextets;
    if |data| > 0 {
      var n := if |data| < 3 then |data| else 3;
      var s, t := EncodeBlock(data[..n]), Encode(data[n..]);
      assert (s + t)[..4] == s && (s + t)[4..] == t;
      BlockRoundTrip(data[..n]);
      EncodeDecode(data[n..]);
      assert data[..n] + data[n..] == data;
    }
  }

  lemma {:induction false} EncodeLength(data: seq<byte>)
    ensures |Encode(data)| == (|data| + 2) / 3 * 4
  {
    hide EncodeBlock;
    if |data| >= 3 {
      EncodeLength(data[3..]);
      assert |Encode(data)| == 4 + |Encode(data[3..])|;
      assert (|data| + 2) / 3 == 1 + (|data| - 3 + 2) / 3;
    } else if |data| > 0 {
      assert data[|data|..] == [];
    }
  }

  // ----- the strict form

  /** All symbols, then p padding characters. */
  predicate PaddedBy(s: string, p: nat) {
    && p <= |s|
    && (forall i :: 0 <= i < |s| - p ==> IsSymbol(s[i]))
    && (forall i :: |s| - p <= i < |s| ==> s[i] == '=')
  }

  /** Whole groups, with padding only at the end and at most two padding characters. */
  predicate Strict(s: string) {
    |s| > 0 && |s| % 4 == 0 && (PaddedBy(s, 0) || PaddedBy(s, 1) || PaddedBy(s, 2))
  }

  method IsStrictBase64(s: string) returns (strict: bool)
    ensures strict == Strict(s)
  {
    if |s| == 0 || |s| % 4 != 0 {
      return false;
    }
    var padding := 0;
    for i := 0 to |s|
      invariant 0 <= padding <= i && PaddedBy(s[..i], padding)
    {
      if s[i] == '=' {
        padding := padding + 1;
      } else {
        if padding > 0 {
          assert s[i - 1] == s[..i][i - 1] == '=';
          return false;
        }
        if !IsSymbol(s[i]) {
          return false;
        }
      }
    }
    assert s[..|s|] == s;
    if padding > 2 {
      assert s[|s| - 1] == s[|s| - 2] == s[|s| - 3] == '=';
    }
    return padding <= 2;
  }

  /** The pads of an encoding. */
  function Pads(n: nat): nat {
    if n % 3 == 0 then 0 else 3 - n % 3
  }

  lemma PaddedConcat(s: string, t: string, p: nat, q: nat)
    requires PaddedBy(s, p) && PaddedBy(t, q) && (p == 0 || t == "")
    ensures PaddedBy(s + t, p + q)
  {
  }

  lemma BlockPadded(block: seq<byte>)
    requires 1 <= |block| <= 3
    ensures PaddedBy(EncodeBlock(block), 3 - |block|)
  {
    hide Group24;
  }

  lemma PadsAfterGroup(n: nat)
    ensures n >= 3 ==> Pads(n) == Pads(n - 3)
    ensures 1 <= n < 3 ==> Pads(n) == 3 - n
    ensures Pads(0) == 0
  {
  }

  lemma {:induction false} EncodePadded(data: seq<byte>)
    ensures PaddedBy(Encode(data), Pads(|data|))
  {
    hide EncodeBlock, Pads;
    PadsAfterGroup(|data|);
    if |data| > 0 {
      var n := if |data| < 3 then |data| else 3;
      EncodePadded(data[n..]);
      EncodeLength(data[n..]);
      BlockPadded(data[..n]);
      PaddedConcat(EncodeBlock(data[..n]), Encode(data[n..]), 3 - n, Pads(|data[n..]|));
    }
  }

  /** Every non-empty encoding is strict. */
  lemma EncodeStrict(data: seq<byte>)
    requires |data| > 0
    ensures Strict(Encode(data))
  {
    hide Encode, PaddedBy;
    EncodePadded(data);
    EncodeLength(data);
  }

  lemma BlockValues(s: string, p: nat)
    requires |s| == 4 && p <= 2 && PaddedBy(s, p)
    ensures |Sextets(s)| == 4 - p && forall i :: 0 <= i < 4 - p ==> Sextets(s)[i] == Sextet(s[i])
  {
    Sextets4(s);
  }

  /** A strict string of length L with p pads decodes to 3L/4 - p bytes. */
  lemma {:induction false} StrictDecodeLength(s: string, p: nat)
    requires |s| > 0 && |s| % 4 == 0 && p <= 2 && PaddedBy(s, p)
    ensures |Decode(s)| == |s| / 4 * 3 - p
  {
    hide DecodeSextets, Sextets;
    if |s| == 4 {
      assert s[..4] == s;
      BlockValues(s, p);
    } else {
      BlockValues(s[..4], 0);
      StrictDecodeLength(s[4..], p);
    }
  }

  /** The bits that the padding cuts off the last symbol are zero. */
  predicate ZeroTail(s: string, p: nat)
    requires |s| >= 4 && p <= 2 && PaddedBy(s, p)
  {
    (p == 1 ==> Sextet(s[|s| - 2]) % 4 == 0) && (p == 2 ==> Sextet(s[|s| - 3]) % 16 == 0)
  }

  lemma JoinSextets(a: nat, b: nat, c: nat, d: nat)
    requires a < 64 && b < 64 && c < 64 && d < 64
    ensures var v := a * 262144 + b * 4096 + c * 64 + d;
            v / 262144 == a && v / 4096 % 64 == b && v / 64 % 64 == c && v % 64 == d
  {
    var v := a * 262144 + b * 4096 + c * 64 + d;
    DivTwice(v);
    assert v / 64 == a * 4096 + b * 64 + c;
    assert v / 4096 == a * 64 + b;
  }

  lemma JoinBytes(v: nat)
    requires v < 16777216
    ensures v / 65536 < 256 && v / 65536 * 65536 + v / 256 % 256 * 256 + v % 256 == v
  {
    DivTwice(v);
  }

  /** Encoding the whole bytes of four, three or two sextets keeps them, except for the cut-off bits. */
  lemma ReencodeSextets(vs: seq<nat>)
    requires 2 <= |vs| <= 4 && Below(vs, 64)
    ensures Group24(DecodeSextets(vs)) == vs[0] * 262144
              + (if |vs| == 2 then vs[1] / 16 * 16 else vs[1]) * 4096
              + (if |vs| == 3 then vs[2] / 4 * 4 else if |vs| == 4 then vs[2] else 0) * 64
              + (if |vs| == 4 then vs[3] else 0)
  {
    var v, bs := Group6(vs), DecodeSextets(vs);
    assert v < 16777216;
    assert Group24(bs) == v / 65536 * 65536 + (if |bs| > 1 then v / 256 % 256 * 256 else 0)
        + if |bs| > 2 then v % 256 else 0;
    hide Group24, DecodeSextets;
    JoinBytes(v);
    if |vs| == 2 {
      Cut2(vs[0], vs[1]);
    } else if |vs| == 3 {
      Cut3(vs[0] * 64 + vs[1], vs[2]);
    }
  }

  lemma Cut2(a: nat, b: nat)
    requires b < 64
    ensures (a * 262144 + b * 4096) / 65536 * 65536 == a * 262144 + b / 16 * 16 * 4096
  {
    var q, r := b / 16, b % 16;
    assert a * 262144 + b * 4096 == (a * 4 + q) * 65536 + r * 4096;
    assert (a * 262144 + b * 4096) / 65536 == a * 4 + q;
  }

  lemma Cut3(y: nat, c: nat)
    requires c < 64
    ensures var v := y * 4096 + c * 64; v / 65536 * 65536 + v / 256 % 256 * 256 == y * 4096 + c / 4 * 4 * 64
  {
    var v, q, r := y * 4096 + c * 64, c / 4, c % 4;
    assert v == (y * 16 + q) * 256 + r * 64;
    assert v / 256 == y * 16 + q;
    DivTwice(v);
  }

  lemma BlockDecodeEncode(s: string, p: nat)
    requires |s| == 4 && p <= 2 && PaddedBy(s, p)
    ensures |Sextets(s)| == 4 - p
    ensures EncodeBlock(DecodeSextets(Sextets(s))) == s <==> ZeroTail(s, p)
  {
    BlockValues(s, p);
    var vs := Sextets(s);
    hide DecodeSextets, Sextets;
    forall i | 0 <= i < 4 - p
      ensures Symbol(vs[i]) == s[i]
    {
      SymbolOfSextet(s[i]);
    }
    assert s == Padded(vs);
    var ws := Quarters(Group24(DecodeSextets(vs)))[..|vs|];
    SextetsOfPadded(vs);
    SextetsOfPadded(ws);
    hide Padded, Quarters, Group24;
    Requartered(vs);
    assert ws == vs <==> ZeroTail(s, p);
  }

  /** Decoding and quartering again clears the cut-off bits of the last sextet and nothing else. */
  lemma Requartered(vs: seq<nat>)
    requires 2 <= |vs| <= 4 && Below(vs, 64)
    ensures Quarters(Group24(DecodeSextets(vs)))[..|vs|]
         == vs[|vs| - 1 := if |vs| == 2 then vs[1] / 16 * 16 else if |vs| == 3 then vs[2] / 4 * 4 else vs[3]]
  {
    ReencodeSextets(vs);
    hide Group24, DecodeSextets;
    JoinSextets(vs[0], if |vs| == 2 then vs[1] / 16 * 16 else vs[1],
                if |vs| == 3 then vs[2] / 4 * 4 else if |vs| == 4 then vs[2] else 0, if |vs| == 4 then vs[3] else 0);
  }

  /** A strict string is the encoding of its own decoding exactly when its unused bits are zero. */
  lemma {:induction false} DecodeEncode(s: string, p: nat)
    requires |s| > 0 && |s| % 4 == 0 && p <= 2 && PaddedBy(s, p)
    ensures Encode(Decode(s)) == s <==> ZeroTail(s, p)
  {
    hide EncodeBlock, DecodeSextets, Sextets;
    var head, tail := s[..4], s[4..];
    var hs := DecodeSextets(Sextets(head));
    if |s| == 4 {
      assert head == s && tail == "" && hs + [] == hs && hs[..|hs|] == hs;
      BlockDecodeEncode(s, p);
      BlockValues(s, p);
      assert Encode(hs) == EncodeBlock(hs) + "" == EncodeBlock(hs);
    } else {
      BlockDecodeEncode(head, 0);
      BlockValues(head, 0);
      DecodeEncode(tail, p);
      var d := Decode(tail);
      assert (hs + d)[..3] == hs && (hs + d)[3..] == d;
      assert Encode(hs + d) == EncodeBlock(hs) + Encode(d) == head + Encode(d);
      assert head + tail == s;
      assert Encode(d) == (head + Encode(d))[4..];
    }
  }

  // ----- hex compositions

  /** hexToBase64: rejects what fromHexString rejects. */
  function HexToBase64(hex: string): Result<string> {
    if |hex| % 2 == 0 && AllHex(hex) then Ok(Encode(OfHex(hex))) else Err(InvalidArgument)
  }

  /** base64ToHex: lenient, as fromBase64. */
  function Base64ToHex(b64: string): string {
    ToHex(Decode(b64))
  }

  /** The compressed form of lower-case hex carries exactly that hex, is strict, and is a third shorter. */
  lemma HexBase64RoundTrip(hex: string)
    requires |hex| % 2 == 0 && LowerHex(hex)
    ensures HexToBase64(hex).Ok? && Base64ToHex(HexToBase64(hex).value) == hex
    ensures |HexToBase64(hex).value| == (|hex| / 2 + 2) / 3 * 4
    ensures |hex| > 0 ==> Strict(HexToBase64(hex).value)
  {
    EncodeDecode(OfHex(hex));
    EncodeLength(OfHex(hex));
    HexDecodeEncode(hex);
    if |hex| > 0 {
      EncodeStrict(OfHex(hex));
    }
  }

  const UPPER: string := "ABCDEFGHIJKLMNOPQRSTUVWXYZ"
  const LOWER: string := "abcdefghijklmnopqrstuvwxyz"
  const DECIMALS: string := "0123456789"
  const ALPHABET: string := UPPER + LOWER + DECIMALS + "+/"

  lemma LetterSymbols(i: nat)
    requires i < 26
    ensures |UPPER| == |LOWER| == 26 && Symbol(i) == UPPER[i] && Symbol(26 + i) == LOWER[i]
  {
  }

  lemma OtherSymbols(i: nat)
    requires i < 12
    ensures |DECIMALS| == 10 && Symbol(52 + i) == if i < 10 then DECIMALS[i] else "+/"[i - 10]
  {
  }

  lemma InFourth(a: string, b: string, c: string, d: string, v: nat)
    requires |a| == |b| == 26 && |c| == 10 && |d| == 2 && v < 64
    ensures |a + b + c + d| == 64
    ensures (a + b + c + d)[v] ==
            if v < 26 then a[v] else if v < 52 then b[v - 26] else if v < 62 then c[v - 52] else d[v - 62]
  {
  }

  /** The alphabet of section 4 of RFC 4648, symbol by symbol. */
  lemma Rfc4648Alphabet(v: nat)
    requires v < 64
    ensures |ALPHABET| == 64 && Symbol(v) == ALPHABET[v]
  {
    hide Symbol, UPPER, LOWER, DECIMALS;
    LetterSymbols(v % 26);
    OtherSymbols(if v < 52 then 0 else v - 52);
    InFourth(UPPER, LOWER, DECIMALS, "+/", v);
  }

  /** Test vectors of section 10 of RFC 4648, one for each amount of padding. */
  lemma Rfc4648Vectors()
    ensures Encode([0x66]) == "Zg==" && Encode([0x66, 0x6f]) == "Zm8=" && Encode([0x66, 0x6f, 0x6f]) == "Zm9v"
  {
    BlockVector([0x66], 0x66_0000, [25, 32], "Zg==");
    BlockVector([0x66, 0x6f], 0x66_6f00, [25, 38, 60], "Zm8=");
    BlockVector([0x66, 0x6f, 0x6f], 0x66_6f6f, [25, 38, 61, 47], "Zm9v");
  }

  lemma BlockVector(block: seq<byte>, v: nat, vs: seq<nat>, s: string)
    requires 1 <= |block| <= 3 && Group24(block) == v && Below(vs, 64)
    requires vs == Quarters(v)[..|block| + 1] && s == Padded(vs)
    ensures Encode(block) == s
  {
    hide Quarters, Group24, Padded;
    assert block[..|block|] == block && block[|block|..] == [] && Encode([]) == "";
  }
}
