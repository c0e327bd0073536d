/** The second base64 codec, of the secret envelope: it skips white space and rejects what fromBase64 tolerates. */
module SecretEnvelope {
  import opened Common
  import opened Numerals
  import opened Base64
  import opened Bits

  function Strip(s: string): string {
    if |s| == 0 then ""
    else Strip(s[..|s| - 1]) + if IsSpace(s[|s| - 1]) then "" else [s[|s| - 1]]
  }

  /** A base64 symbol or padding. */
  predicate Admitted(c: char) {
    IsSymbol(c) || c == '='
  }

  predicate Clean(s: string) {
    forall c :: c in s ==> Admitted(c)
  }

  /** The envelope decoder agrees with fromBase64 on the stripped text, wherever it does not throw. */
  function EnvelopeDecode(s: string): Result<seq<byte>> {
    var clean := Strip(s);
    if |clean| % 4 == 0 && Clean(clean) then Ok(Decode(clean)) else Err(DecryptionFailed)
  }

  /** The inner loops are those of toBase64, statement for statement. */
  method EncodeBase64(data: seq<byte>) returns (result: string)
    ensures result == Encode(data)
  {
    hide EncodeBlock;
    result := "";
    var i := 0;
    while i < |data|
      invariant 0 <= i
      invariant result + Encode(From(data, i)) == Encode(data)
    {
      var symbols := EncodeGroup(data, i);
      assert From(data, i)[if |data| - i < 3 then |data| - i else 3..] == From(data, i + 3);
      assert result + (symbols + Encode(From(data, i + 3))) == (result + symbols) + Encode(From(data, i + 3));
      result := result + symbols;
      i := i + 3;
    }
  }

  /** One round of the decoding loop: the four characters from index i on. */
  method DecodeQuad(clean: string, i: nat) returns (r: Result<seq<byte>>)
    requires i + 4 <= |clean|
    ensures r == if Clean(clean[i..i + 4]) then Ok(DecodeSextets(Sextets(clean[i..i + 4]))) else Err(DecryptionFailed)
  {
    hide DecodeSextets, Sextets, Group6, Two, Wrap32, Value, Or;
    ghost var block := clean[i..i + 4];
    var val, count, j := 0, 0, 0;
    assert Sextets(block[..0]) == [] && Value(Sextets(block[..0]), 64) == 0 by {
      assert |Sextets(block[..0])| <= 0;
      ValueOfFew([], 64);
    }
    while j < 4
      invariant 0 <= j <= 4 && Clean(block[..j])
      invariant count == |Sextets(block[..j])|
      invariant val == Value(Sextets(block[..j]), 64)
    {
      SextetsStep(block, j);
      var c := clean[i + j];
      assert c == block[j];
      if c != '=' {
        var idx := Sextet(c);
        if idx == -1 {
          assert c in block && !Admitted(c);
          return Err(DecryptionFailed);
        }
        AccumulateStep(Sextets(block[..j]), idx, 64);
        val := Or(Wrap32(val * 64), idx);
        count := count + 1;
      }
      j := j + 1;
    }
    assert block[..4] == block;
    ghost var vs := Sextets(block);
    AccumulatedGroup(vs);
    val := Wrap32(val * Two((4 - count) * 6));
    SmallWrap(Group6(vs));
    var bytes: seq<byte> := [];
    j := 0;
    while j + 1 < count
      invariant 0 <= j && (j + 1 <= count || j == 0)
      invariant bytes == DecodeSextets(vs)[..j]
    {
      BlockByte(vs, j);
      bytes := bytes + [val / Two(16 - j * 8) % 256];
      j := j + 1;
    }
    assert DecodeSextets(vs)[..j] == DecodeSextets(vs);
    return Ok(bytes);
  }

  /** The filtering loop of the decoder. */
  method StripSpace(str: string) returns (clean: string)
    ensures clean == Strip(str)
  {
    clean := "";
    for k := 0 to |str|
      invariant clean == Strip(str[..k])
    {
      assert str[..k + 1][..k] == str[..k];
      if !IsSpace(str[k]) {
        clean := clean + [str[k]];
      }
    }
    assert str[..|str|] == str;
  }

  method DecodeBase64(str: string) returns (r: Result<seq<byte>>)
    ensures r == EnvelopeDecode(str)
  {
    hide DecodeSextets, Sextets, Strip, Decode, Clean;
    if |str| == 0 {
      StripNothing("");
      CleanEmpty();
      return Ok([]);
    }
    var clean := StripSpace(str);
    if |clean| % 4 != 0 {
      return Err(DecryptionFailed);
    }
    var result: seq<byte> := [];
    var i := 0;
    CleanEmpty();
    assert clean[0..] == clean && clean[..0] == "";
    while i < |clean|
      invariant 0 <= i <= |clean| && (|clean| - i) % 4 == 0
      invariant Clean(clean[..i])
      invariant result + Decode(clean[i..]) == Decode(clean)
    {
      var quad := DecodeQuad(clean, i);
      CleanParts(clean, i);
      if quad.Err? {
        return Err(DecryptionFailed);
      }
      assert result + (quad.value + Decode(clean[i + 4..])) == (result + quad.value) + Decode(clean[i + 4..]);
      result := result + quad.value;
      i := i + 4;
    }
    assert clean[..i] == clean && clean[i..] == "" && result + [] == result;
    return Ok(result);
  }

  lemma CleanEmpty()
    ensures Clean("") && Decode("") == []
  {
  }

  lemma CleanParts(clean: string, i: nat)
    requires i + 4 <= |clean|
    ensures Clean(clean[..i]) && Clean(clean[i..i + 4]) ==> Clean(clean[..i + 4])
    ensures Clean(clean) ==> Clean(clean[i..i + 4])
    ensures Decode(clean[i..]) == DecodeSextets(Sextets(clean[i..i + 4])) + Decode(clean[i + 4..])
  {
    hide DecodeSextets, Sextets;
    assert clean[..i + 4] == clean[..i] + clean[i..i + 4];
    assert clean[i..][..4] == clean[i..i + 4] && clean[i..][4..] == clean[i + 4..];
  }

  lemma {:induction false} StripNothing(s: string)
    requires forall i :: 0 <= i < |s| ==> !IsSpace(s[i])
    ensures Strip(s) == s
  {
    if |s| > 0 {
      StripNothing(s[..|s| - 1]);
    }
  }

  /** On strict strings the two decoders agree. */
  lemma StrictDecodersAgree(s: string)
    requires Strict(s)
    ensures EnvelopeDecode(s) == Ok(Decode(s))
  {
    assert Clean(s);
    StripNothing(s);
  }

  /** Decoding an encoding gives the data back, whatever white space was put into it. */
  lemma EnvelopeRoundTrip(data: seq<byte>, text: string)
    requires Strip(text) == Encode(data)
    ensures EnvelopeDecode(text) == Ok(data)
  {
    EncodeDecode(data);
    if |data| > 0 {
      EncodeStrict(data);
      assert Clean(Strip(text));
    }
  }
}
