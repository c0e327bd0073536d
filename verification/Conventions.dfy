/** Literal instances and small laws that fix conventions which two matching definitions could get wrong together. */
module Conventions {
  import opened Common
  import opened Numerals
  import opened Decimal
  import opened Hex
  import opened Base64
  import opened SecretEnvelope
  import opened BaseConvert
  import opened BigInt
  import opened Base17

  // ----- digits and symbols

  /** Byte order, digit order and symbols of hex. */
  lemma HexVector()
    ensures ToHex([0x01, 0x23, 0x45, 0x67, 0x89, 0xab, 0xcd, 0xef]) == "0123456789abcdef"
    ensures OfHex("89ABCDEF") == [0x89, 0xab, 0xcd, 0xef]
  {
  }

  lemma HexNumberVector()
    ensures HexNumber("1a") == 26 && HexNumeral(26) == "1a"
  {
    assert HexDigits("1a") == [1, 10] && [1, 10][..1] == [1] && [1][..0] == [];
    assert HexDigits("0") == [0] && [0][..0] == [];
    HexAddExact("1a", "0", "1a");
  }

  /** The decimal digits, and a sign in front. */
  lemma DecimalVector()
    ensures DigitText([0, 1, 2, 3, 4, 5, 6, 7, 8, 9]) == "0123456789"
    ensures ToString(907) == "907" && ToString(-907) == "-907" && ToString(0) == "0"
  {
    assert Digits(9, 10) == [9] && Digits(90, 10) == [9, 0] && Digits(907, 10) == [9, 0, 7];
    assert Digits(0, 10) == [0];
  }

  /** The 17 symbols and the value that each enumerates to. */
  lemma Base17Vector(v: nat)
    requires v < 17
    ensures |"0123456789abcdefg"| == 17 && Enumerated(["0123456789abcdefg"[v]]) == [v - 8]
  {
    var c := "0123456789abcdefg"[v];
    assert [c][..0] == "" && Enumerated("") == [];
    SymbolTable(v);
    assert SYMBOLS[v] == c;
  }

  /** The padded hash of a small number. */
  lemma PaddedVector()
    ensures ToBase17("ff") == seq(62, _ => '0') + "f0"
  {
    assert HexDigits("ff") == [15, 15] && [15, 15][..1] == [15] && [15][..0] == [];
    assert HexNumber("ff") == 255 && Digits(255, 17) == [15, 0];
    assert Numeral(255, 17, SYMBOLS) == "f0";
  }

  // ----- reading decimal integers

  /** White space in the C locale. */
  lemma SpaceSet(c: char)
    ensures IsSpace(c) <==> c in {' ', '\t', '\n', '\U{000B}', '\U{000C}', '\r'}
  {
  }

  predicate AllSpace(s: string) {
    forall i :: 0 <= i < |s| ==> IsSpace(s[i])
  }

  lemma {:induction false} TrimSpaces(w: string, s: string)
    requires AllSpace(w) && (s == "" || !IsSpace(s[0]))
    ensures TrimLeft(w + s) == s
  {
    if w == "" {
      assert w + s == s;
    } else {
      assert (w + s)[1..] == w[1..] + s && (w + s)[0] == w[0];
      TrimSpaces(w[1..], s);
    }
  }

  lemma {:induction false} DigitsThenRest(d: string, rest: string)
    requires AllDigits(d) && (rest == "" || !IsDigit(rest[0]))
    ensures LeadingDigits(d + rest) == d
  {
    if d == "" {
      assert d + rest == rest;
    } else {
      assert (d + rest)[1..] == d[1..] + rest && (d + rest)[0] == d[0];
      DigitsThenRest(d[1..], rest);
    }
  }

  /** An integer is read behind white space and an optional sign, up to the first character that is no digit. */
  lemma IntegerAtStart(w: string, d: string, rest: string)
    requires AllSpace(w) && d != "" && AllDigits(d) && (rest == "" || !IsDigit(rest[0]))
    ensures Parse(w + d + rest) == Parse(w + "+" + d + rest) == Some(Number(d))
    ensures Parse(w + "-" + d + rest) == Some(-(Number(d) as int))
  {
    hide Number;
    DigitsThenRest(d, rest);
    var plain, plus, minus := d + rest, "+" + d + rest, "-" + d + rest;
    assert w + d + rest == w + plain && w + "+" + d + rest == w + plus && w + "-" + d + rest == w + minus;
    assert IsDigit(plain[0]) && plus[1..] == plain && minus[1..] == plain;
    TrimSpaces(w, plain);
    TrimSpaces(w, plus);
    TrimSpaces(w, minus);
  }

  /** Without a digit there nothing is read. */
  lemma NoInteger(w: string, rest: string)
    requires AllSpace(w) && (rest == "" || !IsDigit(rest[0]))
    ensures rest == "" || (!IsSpace(rest[0]) && rest[0] != '+' && rest[0] != '-') ==> Parse(w + rest) == None
    ensures Parse(w + "+" + rest) == Parse(w + "-" + rest) == None
  {
    var plus, minus := "+" + rest, "-" + rest;
    assert w + "+" + rest == w + plus && w + "-" + rest == w + minus && plus[1..] == rest && minus[1..] == rest;
    TrimSpaces(w, plus);
    TrimSpaces(w, minus);
    if rest == "" || !IsSpace(rest[0]) {
      TrimSpaces(w, rest);
    }
  }

  /** A printed integer reads back within the width, and is out of range, or clamped, beyond it. */
  lemma PrintedReads(n: int)
    ensures Stoi(ToString(n)) == if INT_MIN <= n <= INT_MAX then Ok(n) else Err(OutOfRange)
    ensures Stoll(ToString(n)) == if LONG_MIN <= n <= LONG_MAX then Ok(n) else Err(OutOfRange)
    ensures LONG_MIN <= n <= LONG_MAX ==> Strtoll(ToString(n)) == n
    ensures n > LONG_MAX ==> Strtoll(ToString(n)) == 0x7fff_ffff_ffff_ffff
    ensures n < LONG_MIN ==> Strtoll(ToString(n)) == -0x8000_0000_0000_0000
  {
    ParseToString(n);
    hide Parse, ToString;
  }

  /** A text without an integer at its start is invalid, and 0 for strtoll. */
  lemma UnreadableText(s: string)
    requires Parse(s) == None
    ensures Stoi(s) == Err(InvalidArgument) && Stoll(s) == Err(InvalidArgument) && Strtoll(s) == 0
  {
    hide Parse;
  }

  // ----- base64 and base conversion

  lemma {:induction false} SextetsReplaced(s: string, i: nat)
    requires i < |s| && Sextet(s[i]) < 0
    ensures Sextets(s[i := '=']) == Sextets(s)
  {
    hide Sextet;
    assert Sextet('=') < 0 by {
      PadIsNoSymbol();
    }
    var t := |s| - 1;
    if i < t {
      assert s[i := '='][..t] == s[..t][i := '='];
      SextetsReplaced(s[..t], i);
    } else {
      assert s[i := '='][..t] == s[..t];
    }
  }

  lemma PadIsNoSymbol()
    ensures Sextet('=') < 0
  {
  }

  /** fromBase64 reads a foreign character as padding, wherever it stands. */
  lemma {:induction false} ForeignIsPadding(s: string, i: nat)
    requires i < |s| && Sextet(s[i]) < 0
    ensures Decode(s[i := '=']) == Decode(s)
    decreases |s|
  {
    hide Sextet, Sextets, DecodeSextets;
    var n := if |s| < 4 then |s| else 4;
    var r := s[i := '='];
    if i < n {
      assert r[..n] == s[..n][i := '='] && r[n..] == s[n..];
      SextetsReplaced(s[..n], i);
    } else {
      assert r[..n] == s[..n] && r[n..] == s[n..][i - n := '='];
      ForeignIsPadding(s[n..], i - n);
    }
  }

  /** Which characters are symbols at all. */
  lemma SymbolSet(c: char)
    ensures Sextet(c) >= 0 <==> 'A' <= c <= 'Z' || 'a' <= c <= 'z' || '0' <= c <= '9' || c == '+' || c == '/'
    ensures IsSymbol(c) <==> Sextet(c) >= 0
  {
  }

  /** Strict text: whole groups of symbols, of which only the last character or the last two may be pads. */
  lemma StrictPads(s: string)
    ensures Strict(s) <==>
      && |s| >= 4 && |s| % 4 == 0 && (forall i :: 0 <= i < |s| - 2 ==> Sextet(s[i]) >= 0)
      && (Sextet(s[|s| - 1]) >= 0 || s[|s| - 1] == '=')
      && (Sextet(s[|s| - 2]) >= 0 || (s[|s| - 2] == '=' && s[|s| - 1] == '='))
  {
    forall c
      ensures IsSymbol(c) <==> Sextet(c) >= 0
    {
      SymbolSet(c);
    }
    PadIsNoSymbol();
    hide Sextet, IsSymbol;
  }

  /** The envelope decoder accepts exactly what is whole groups of symbols and pads between white space. */
  lemma {:induction false} StripKeeps(s: string)
    ensures forall c :: c in Strip(s) <==> c in s && !IsSpace(c)
  {
    hide IsSpace;
    if s != "" {
      StripKeeps(s[..|s| - 1]);
      assert s == s[..|s| - 1] + [s[|s| - 1]];
    }
  }

  lemma EnvelopeAccepts(s: string)
    ensures EnvelopeDecode(s).Ok? <==>
      |Strip(s)| % 4 == 0 && forall c :: c in s ==> IsSpace(c) || c == '=' || Sextet(c) >= 0
    ensures EnvelopeDecode(s).Err? ==> EnvelopeDecode(s) == Err(DecryptionFailed)
  {
    StripKeeps(s);
    forall c
      ensures IsSymbol(c) <==> Sextet(c) >= 0
    {
      SymbolSet(c);
    }
    hide Strip, Decode, Sextet, IsSymbol, IsSpace;
  }

  /** charsetBaseConvert accepts exactly an empty input, and hex to a base from 2 to 256 that the table covers. */
  lemma ConvertAccepts(hex: string, baseFrom: nat, baseTo: nat, table: Option<string>)
    ensures Convert(hex, baseFrom, baseTo, table).Ok? <==>
      hex == "" || (table.Some? && baseFrom == 16 && 2 <= baseTo <= 256 && baseTo <= |table.value| && AllHex(hex))
    ensures Convert(hex, baseFrom, baseTo, table).Err? ==> Convert(hex, baseFrom, baseTo, table) == Err(InvalidArgument)
    ensures Convert("", baseFrom, baseTo, table) == Ok("")
  {
    hide Numeral, AllHex;
  }
}
