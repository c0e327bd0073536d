/** What keys, chain values, addresses and bundles are made of: the questions put to SHAKE256, and when two inputs
    always lead to the same key. */
module KeyDerivation {
  import opened Common
  import opened Numerals
  import opened Hex
  import opened BigInt
  import opened Ots

  // ----- the questions

  /** What SHAKE256 is asked first for the key of a sum of secret and position. */
  function KeySponge(sum: nat, token: string, version: int): string {
    if version == 2 then "KnishIO-OTS-v2|" + HexNumeral(sum) + "|" + token else HexNumeral(sum) + token
  }

  predicate HexInputs(secret: string, position: string) {
    secret != "" && position != "" && AllHex(secret) && AllHex(position)
  }

  function KeySum(secret: string, position: string): nat {
    HexNumber(secret) + HexNumber(position)
  }

  /** The key is the answer to the hex of the answer to the sponge: 1024 bytes first, then 1024 or 4096. */
  lemma KeyIsSecondAnswer(xof: Xof, secret: string, token: string, position: string, version: int, a: seq<byte>,
                          b: seq<byte>)
    requires HexInputs(secret, position) && version in {1, 2}
    requires xof(KeySponge(KeySum(secret, position), token, version), 1024) == a
    requires xof(ToHex(a), if version == 2 then 4096 else 1024) == b
    ensures WalletKey(xof, secret, token, position, version) == Ok(ToHex(b))
  {
    hide HexNumber, HexNumeral;
  }

  /** A secret or position that is no hex stands for the hex of its 128 or 32 bytes. */
  lemma TextsAreHashed(xof: Xof, secret: string, token: string, position: string, version: int)
    ensures !AllHex(secret) ==>
      WalletKey(xof, secret, token, position, version)
      == WalletKey(xof, ToHex(xof(secret, 128)), token, position, version)
    ensures !AllHex(position) ==>
      WalletKey(xof, secret, token, position, version)
      == WalletKey(xof, secret, token, ToHex(xof(position, 32)), version)
  {
    hide WalletKey;
    if !AllHex(secret) {
      SecretIsHashed(xof, secret, token, position, version);
    }
    if !AllHex(position) {
      PositionIsHashed(xof, secret, token, position, version);
    }
  }

  lemma SecretIsHashed(xof: Xof, secret: string, token: string, position: string, version: int)
    requires !AllHex(secret)
    ensures WalletKey(xof, secret, token, position, version)
         == WalletKey(xof, ToHex(xof(secret, 128)), token, position, version)
  {
    LowerIsHex(ToHex(xof(secret, 128)));
    assert ShakeHex(xof, secret, 1024) == ToHex(xof(secret, 128)) && secret != "" && AllHex("");
    hide ShakeHex, AllHex, HexNumber, HexNumeral;
  }

  lemma PositionIsHashed(xof: Xof, secret: string, token: string, position: string, version: int)
    requires !AllHex(position)
    ensures WalletKey(xof, secret, token, position, version)
         == WalletKey(xof, secret, token, ToHex(xof(position, 32)), version)
  {
    LowerIsHex(ToHex(xof(position, 32)));
    assert ShakeHex(xof, position, 256) == ToHex(xof(position, 32)) && position != "" && AllHex("");
    hide ShakeHex, AllHex, HexNumber, HexNumeral;
  }

  /** A chain step asks for 64 bytes, a bundle for 32, and an address for 1024 and then 32. */
  lemma AnswersAre(xof: Xof, s: string, a: seq<byte>, b: seq<byte>)
    ensures xof(s, 64) == a ==> ChainStep(xof, s) == ToHex(a)
    ensures xof(s, 32) == a ==> BundleHash(xof, s) == ToHex(a)
    ensures xof(s, 1024) == a && xof(ToHex(a), 32) == b ==> AddressOfEnds(xof, s) == ToHex(b)
  {
    hide ToHex;
  }

  // ----- different questions can be told apart

  const ONES: string := ToHex(Answer(true, 1024))
  const NONES: string := ToHex(Answer(false, 1024))

  function Answer(one: bool, n: nat): (bs: seq<byte>)
    ensures |bs| == n
  {
    seq(n, _ => if one then 1 else 0)
  }

  /** A function of SHAKE256's type that answers ones to a marked text and to its own first answer, zeros otherwise. */
  ghost function Marking(marked: string): Xof {
    (s: string, n: nat) => seq(n, _ => if s == marked || s == ONES then 1 else 0)
  }

  lemma MarkingAnswers(marked: string, s: string, bits: nat)
    requires bits > 0 && bits % 8 == 0
    ensures ShakeHex(Marking(marked), s, bits) == ToHex(Answer(s == marked || s == ONES, bits / 8))
  {
    hide ToHex, ONES;
    assert Marking(marked)(s, bits / 8) == Answer(s == marked || s == ONES, bits / 8);
  }

  /** The double hash of keys and addresses. */
  function Twice(xof: Xof, s: string, bits: nat): string
    requires bits > 0 && bits % 8 == 0
  {
    ShakeHex(xof, ShakeHex(xof, s, 8192), bits)
  }

  lemma AnswersDiffer(n: nat)
    requires n > 0
    ensures ToHex(Answer(true, n)) != ToHex(Answer(false, n))
  {
    assert ToHex(Answer(true, n))[1] == '1' && ToHex(Answer(false, n))[1] == '0';
  }

  lemma MarkingTells(marked: string, other: string, bits: nat)
    requires marked != other && other != ONES && marked != NONES && bits > 0 && bits % 8 == 0
    ensures Twice(Marking(marked), marked, bits) != Twice(Marking(marked), other, bits)
  {
    AnswersDiffer(1024);
    AnswersDiffer(bits / 8);
    hide ToHex, Answer, Marking, ShakeHex;
    MarkingAnswers(marked, marked, 8192);
    MarkingAnswers(marked, other, 8192);
    MarkingAnswers(marked, ONES, bits);
    MarkingAnswers(marked, NONES, bits);
  }

  /** Two texts have the same double hash whatever SHAKE256 answers only if they are the same. */
  lemma TwiceTellsApart(x: string, y: string, bits: nat)
    requires x != y && bits > 0 && bits % 8 == 0
    ensures exists xof: Xof :: Twice(xof, x, bits) != Twice(xof, y, bits)
  {
    AnswersDiffer(1024);
    if y != ONES && x != NONES {
      MarkingTells(x, y, bits);
    } else {
      MarkingTells(y, x, bits);
    }
  }

  /** So with an address, a chain step and a bundle: each covers all of its input. */
  lemma InputsTellApart(x: string, y: string)
    ensures (forall xof: Xof :: AddressOfEnds(xof, x) == AddressOfEnds(xof, y)) <==> x == y
    ensures (forall xof: Xof :: ChainStep(xof, x) == ChainStep(xof, y)) <==> x == y
    ensures (forall xof: Xof :: BundleHash(xof, x) == BundleHash(xof, y)) <==> x == y
  {
    if x != y {
      TwiceTellsApart(x, y, 256);
      var xof: Xof :| Twice(xof, x, 256) != Twice(xof, y, 256);
      assert AddressOfEnds(xof, x) != AddressOfEnds(xof, y);
      OnceTellsApart(x, y, 512);
      var step: Xof :| ShakeHex(step, x, 512) != ShakeHex(step, y, 512);
      assert ChainStep(step, x) != ChainStep(step, y);
      OnceTellsApart(x, y, 256);
      var bundle: Xof :| ShakeHex(bundle, x, 256) != ShakeHex(bundle, y, 256);
      assert BundleHash(bundle, x) != BundleHash(bundle, y);
    }
  }

  lemma OnceTellsApart(x: string, y: string, bits: nat)
    requires x != y && bits > 0 && bits % 8 == 0
    ensures exists xof: Xof :: ShakeHex(xof, x, bits) != ShakeHex(xof, y, bits)
  {
    AnswersDiffer(bits / 8);
    var marked := if y != ONES then x else y;
    hide ToHex, Answer, Marking, ShakeHex;
    MarkingAnswers(marked, x, bits);
    MarkingAnswers(marked, y, bits);
    assert ShakeHex(Marking(marked), x, bits) != ShakeHex(Marking(marked), y, bits);
  }

  // ----- when two keys are always one

  lemma KeyIsTwice(xof: Xof, secret: string, token: string, position: string, version: int)
    requires HexInputs(secret, position) && version in {1, 2}
    ensures WalletKey(xof, secret, token, position, version)
         == Ok(Twice(xof, KeySponge(KeySum(secret, position), token, version), if version == 2 then 32768 else 8192))
  {
    hide ShakeHex, HexNumber, HexNumeral;
  }

  /** Two keys of hex inputs agree whatever SHAKE256 answers if and only if their versions and sponges do. */
  lemma KeysAgree(s: string, t: string, p: string, v: int, s': string, t': string, p': string, v': int)
    requires HexInputs(s, p) && HexInputs(s', p') && v in {1, 2} && v' in {1, 2}
    ensures (forall xof: Xof :: WalletKey(xof, s, t, p, v) == WalletKey(xof, s', t', p', v'))
       <==> v == v' && KeySponge(KeySum(s, p), t, v) == KeySponge(KeySum(s', p'), t', v')
  {
    hide Twice, KeySponge, KeySum, Marking;
    forall xof: Xof
      ensures WalletKey(xof, s, t, p, v)
           == Ok(Twice(xof, KeySponge(KeySum(s, p), t, v), if v == 2 then 32768 else 8192))
      ensures WalletKey(xof, s', t', p', v')
           == Ok(Twice(xof, KeySponge(KeySum(s', p'), t', v'), if v' == 2 then 32768 else 8192))
    {
      KeyIsTwice(xof, s, t, p, v);
      KeyIsTwice(xof, s', t', p', v');
    }
    hide WalletKey;
    if v != v' {
      KeyLengths(Marking(""), s, t, p, v, s', t', p', v');
    } else if KeySponge(KeySum(s, p), t, v) != KeySponge(KeySum(s', p'), t', v') {
      var bits := if v == 2 then 32768 else 8192;
      TwiceTellsApart(KeySponge(KeySum(s, p), t, v), KeySponge(KeySum(s', p'), t', v'), bits);
      var xof: Xof :| Twice(xof, KeySponge(KeySum(s, p), t, v), bits)
                      != Twice(xof, KeySponge(KeySum(s', p'), t', v'), bits);
      assert WalletKey(xof, s, t, p, v) != WalletKey(xof, s', t', p', v');
    }
  }

  lemma KeyLengths(xof: Xof, s: string, t: string, p: string, v: int, s': string, t': string, p': string, v': int)
    requires s != "" && p != "" && s' != "" && p' != "" && v in {1, 2} && v' in {1, 2} && v != v'
    ensures WalletKey(xof, s, t, p, v) != WalletKey(xof, s', t', p', v')
  {
  }

  lemma NumeralsDiffer(m: nat, n: nat)
    requires HexNumeral(m) == HexNumeral(n)
    ensures m == n
  {
    DigitsMeaning(m, 16);
    DigitsMeaning(n, 16);
  }

  /** Version 2 keeps sum and token apart: its keys always agree only if both do. */
  lemma Version2KeysAgree(s: string, t: string, p: string, s': string, t': string, p': string)
    requires HexInputs(s, p) && HexInputs(s', p')
    ensures (forall xof: Xof :: WalletKey(xof, s, t, p, 2) == WalletKey(xof, s', t', p', 2))
       <==> KeySum(s, p) == KeySum(s', p') && t == t'
  {
    KeysAgree(s, t, p, 2, s', t', p', 2);
    hide WalletKey, KeySum;
    var i, i' := HexNumeral(KeySum(s, p)), HexNumeral(KeySum(s', p'));
    if KeySponge(KeySum(s, p), t, 2) == KeySponge(KeySum(s', p'), t', 2) {
      CutAtBar(i, t, i', t');
      NumeralsDiffer(KeySum(s, p), KeySum(s', p'));
    }
  }

  lemma CutAtBar(i: string, t: string, i': string, t': string)
    requires LowerHex(i) && LowerHex(i')
    requires "KnishIO-OTS-v2|" + i + "|" + t == "KnishIO-OTS-v2|" + i' + "|" + t'
    ensures i == i' && t == t'
  {
    var x, y := i + "|" + t, i' + "|" + t';
    assert "KnishIO-OTS-v2|" + i + "|" + t == "KnishIO-OTS-v2|" + x;
    assert "KnishIO-OTS-v2|" + i' + "|" + t' == "KnishIO-OTS-v2|" + y;
    assert ("KnishIO-OTS-v2|" + x)[15..] == x && ("KnishIO-OTS-v2|" + y)[15..] == y;
    assert forall k :: 0 <= k < |i| ==> x[k] == i[k] && IsLowerHexDigit(x[k]);
    assert forall k :: 0 <= k < |i'| ==> y[k] == i'[k] && IsLowerHexDigit(y[k]);
    assert x[|i|] == '|' && y[|i'|] == '|';
    assert x[..|i|] == i && y[..|i'|] == i' && x[|i| + 1..] == t && y[|i'| + 1..] == t';
  }

  /** Version 1 glues them: its keys always agree if and only if the glued texts do. For one sum that means the same
      token, and for one token the same sum. */
  lemma Version1KeysAgree(s: string, t: string, p: string, s': string, t': string, p': string)
    requires HexInputs(s, p) && HexInputs(s', p')
    ensures (forall xof: Xof :: WalletKey(xof, s, t, p, 1) == WalletKey(xof, s', t', p', 1))
       <==> HexNumeral(KeySum(s, p)) + t == HexNumeral(KeySum(s', p')) + t'
    ensures KeySum(s, p) == KeySum(s', p') ==>
      ((forall xof: Xof :: WalletKey(xof, s, t, p, 1) == WalletKey(xof, s', t', p', 1)) <==> t == t')
    ensures t == t' ==>
      ((forall xof: Xof :: WalletKey(xof, s, t, p, 1) == WalletKey(xof, s', t', p', 1)) <==>
        KeySum(s, p) == KeySum(s', p'))
  {
    KeysAgree(s, t, p, 1, s', t', p', 1);
    hide WalletKey, KeySum;
    var i, i' := HexNumeral(KeySum(s, p)), HexNumeral(KeySum(s', p'));
    if i + t == i' + t' {
      assert (i + t)[..|i|] == i && (i' + t')[..|i'|] == i';
      assert (i + t)[|i|..] == t && (i' + t')[|i'|..] == t';
      if i == i' {
        NumeralsDiffer(KeySum(s, p), KeySum(s', p'));
      }
    }
  }

  /** So a version 1 key can be shared: sum 1a with token "b" and sum 1 with token "ab". */
  lemma Version1KeyShared()
    ensures forall xof: Xof :: WalletKey(xof, "1a", "b", "0", 1) == WalletKey(xof, "1", "ab", "0", 1)
    ensures exists xof: Xof :: WalletKey(xof, "1a", "b", "0", 2) != WalletKey(xof, "1", "ab", "0", 2)
  {
    assert HexDigits("1a") == [1, 10] && HexDigits("1") == [1] && HexDigits("0") == [0];
    assert Value([], 16) == 0 && [1, 10][..1] == [1] && [1][..0] == [] && [0][..0] == [];
    assert HexNumber("1a") == 26 && HexNumber("1") == 1 && HexNumber("0") == 0;
    HexAddExact("1a", "0", "1a");
    HexAddExact("1", "0", "1");
    assert "1a" + "b" == "1ab" == "1" + "ab";
    Version1KeysAgree("1a", "b", "0", "1", "ab", "0");
    Version2KeysAgree("1a", "b", "0", "1", "ab", "0");
  }
}
