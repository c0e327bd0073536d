/** What signing writes into a molecule's atoms and what verification accepts, as functions of the atoms. */
module Signing {
  import opened Common
  import opened Hex
  import opened Base64
  import opened Json
  import opened Chunks
  import opened Base17
  import opened Normalize
  import opened Ots
  import opened Atom
  import opened AtomHash

  /** The normalized symbols of a hash. */
  ghost function Symbols64(hash: string): (norm: seq<int8>)
    requires Signable(hash)
    ensures |norm| == 64 && InRange(norm)
  {
    EnumeratedComplete(hash);
    NormalizedMeaning(Enumerated(hash));
    Normalized(Enumerated(hash))
  }

  /** The hex signature of a hash under a key. */
  ghost function KeySignature(xof: Xof, hash: string, key: string): (hex: string)
    requires Signable(hash) && IsKey(key)
    ensures IsKey(hex) && |hex| == |key|
  {
    SignatureShape(xof, key, Symbols64(hash));
    SignatureHex(xof, key, Symbols64(hash))
  }

  /** The signature as it is cut up: hex, or its base64 form. */
  ghost function SignatureText(xof: Xof, hash: string, key: string, compressed: bool): (text: string)
    requires Signable(hash) && IsKey(key)
    ensures text != ""
  {
    var hex := KeySignature(xof, hash, key);
    HexBase64RoundTrip(hex);
    if compressed then HexToBase64(hex).value else hex
  }

  /** One fragment per leading atom; the other atoms keep theirs. */
  function Fragmented(atoms: seq<Atom>, parts: seq<string>): (r: seq<Atom>)
    ensures |r| == |atoms|
  {
    seq(|atoms|, i requires 0 <= i < |atoms| => if i < |parts| then atoms[i].(otsFragment := parts[i]) else atoms[i])
  }

  /** The signature's fragments for n atoms. */
  ghost function SignatureParts(xof: Xof, hash: string, key: string, compressed: bool, n: nat): (parts: seq<string>)
    requires Signable(hash) && IsKey(key) && n > 0
    ensures 1 <= |parts| <= n
  {
    var text := SignatureText(xof, hash, key, compressed);
    FragmentsFit(text, n);
    Pieces(text, CeilDiv(|text|, n))
  }

  /** All fragments, glued together. */
  function Fragments(atoms: seq<Atom>): string {
    if atoms == [] then "" else Fragments(atoms[..|atoms| - 1]) + atoms[|atoms| - 1].otsFragment
  }

  /** The signing key of a molecule, from its first atom. */
  function SigningKey(xof: Xof, atoms: seq<Atom>, secret: string, version: int): (key: Result<string>)
    requires atoms != []
    ensures key.Ok? ==> IsKey(key.value)
  {
    WalletKey(xof, secret, atoms[0].token, atoms[0].position, version)
  }

  ghost function SignedAtoms(xof: Xof, dump: Json -> string, atoms: seq<Atom>, key: string, compressed: bool): seq<Atom>
    requires atoms != [] && IsKey(key)
  {
    HashIsSignable(xof, dump, atoms);
    Fragmented(atoms, SignatureParts(xof, HashBase17(xof, dump, atoms), key, compressed, |atoms|))
  }

  /** Text of 2048 or 8192 characters is taken as hex; any other text must strictly decode to hex of such a length. */
  function OtsHex(text: string): (hex: Result<string>)
    ensures hex.Ok? ==> |hex.value| == 2048 || |hex.value| == 8192
  {
    if |text| == 2048 || |text| == 8192 then Ok(text)
    else if !Strict(text) then Err(SignatureMalformed)
    else
      var hex := Base64ToHex(text);
      if |hex| == 2048 || |hex| == 8192 then Ok(hex) else Err(SignatureMalformed)
  }

  lemma OtsPieces(ots: string)
    requires |ots| == 2048 || |ots| == 8192
    ensures |Pieces(ots, 128)| == if |ots| == 8192 then 64 else 16
  {
    PiecesUniform(ots, 128, if |ots| == 8192 then 64 else 16);
  }

  /** verifyOts */
  ghost function OtsVerdict(xof: Xof, atoms: seq<Atom>, hash: string): Result<()> {
    if atoms == [] then Err(AtomsNotFound)
    else if !Signable(hash) then Err(SignatureMalformed)
    else
      match OtsHex(Fragments(atoms))
      case Err(e) => Err(e)
      case Ok(ots) =>
        OtsPieces(ots);
        if RecoveredAddress(xof, ots, Symbols64(hash)) == atoms[0].walletAddress then Ok(()) else Err(SignatureMismatch)
  }

  /** What verifyOts takes for a signature: 2048 or 8192 characters as they are, and strict base64 of 1024 or 4096
      bytes as their hex. Anything else, and a hash that is not signable, is malformed. */
  lemma OtsReports(xof: Xof, atoms: seq<Atom>, hash: string)
    requires atoms != []
    ensures var text := Fragments(atoms);
            var asHex, asBytes := |text| in {2048, 8192}, Strict(text) && |Decode(text)| in {1024, 4096};
            && (OtsVerdict(xof, atoms, hash) == Err(SignatureMalformed) <==>
                  !Signable(hash) || !(asHex || asBytes))
            && (OtsVerdict(xof, atoms, hash) in {Ok(()), Err(SignatureMalformed), Err(SignatureMismatch)})
            && (asHex ==> OtsHex(text) == Ok(text))
            && (!asHex && asBytes ==> OtsHex(text) == Ok(ToHex(Decode(text))))
  {
    hide Fragments, Strict, Decode, RecoveredAddress, Symbols64, Signable;
  }

  /** The form that is cut up: the hex itself, or compressed its strict base64, a third shorter. */
  lemma TextForm(xof: Xof, hash: string, key: string)
    requires Signable(hash) && IsKey(key)
    ensures SignatureText(xof, hash, key, false) == KeySignature(xof, hash, key)
    ensures |SignatureText(xof, hash, key, false)| == |key|
    ensures Strict(SignatureText(xof, hash, key, true))
    ensures |SignatureText(xof, hash, key, true)| == (|key| / 2 + 2) / 3 * 4
  {
    HexBase64RoundTrip(KeySignature(xof, hash, key));
    hide KeySignature, HexToBase64, Strict;
  }

  /** The fragments are pieces of the least size with which they fit the atoms. */
  lemma PartsAreLeast(xof: Xof, hash: string, key: string, compressed: bool, n: nat, size: nat)
    requires Signable(hash) && IsKey(key) && n > 0 && size > 0
    ensures var text := SignatureText(xof, hash, key, compressed);
            && CeilDiv(|text|, n) > 0
            && SignatureParts(xof, hash, key, compressed, n) == Pieces(text, CeilDiv(|text|, n))
            && (|Pieces(text, size)| <= n <==> size >= CeilDiv(|text|, n))
  {
    var text := SignatureText(xof, hash, key, compressed);
    FragmentsFit(text, n);
    LeastFragmentSize(text, n, size);
  }

  // ----- fragments

  lemma {:induction false} FragmentsOfSigned(atoms: seq<Atom>, parts: seq<string>)
    requires |parts| <= |atoms|
    ensures Fragments(Fragmented(atoms, parts)) == Concat(parts) + Fragments(atoms[|parts|..])
    decreases |atoms|
  {
    if atoms == [] {
      ConcatNone();
      assert parts == [] && Fragmented(atoms, parts) == [] && atoms[|parts|..] == [];
    } else {
      hide *;
      var t := |atoms| - 1;
      FragmentsLast(atoms, parts);
      if |parts| == |atoms| {
        FragmentsOfSigned(atoms[..t], parts[..t]);
        assert atoms[..t][t..] == [] && atoms[|parts|..] == [];
        LastPart(parts);
        NothingGlued();
        assert Concat(parts[..t]) + "" == Concat(parts[..t]);
      } else {
        FragmentsOfSigned(atoms[..t], parts);
        RestSnoc(atoms, |parts|);
        Reglued(Concat(parts), Fragments(atoms[..t][|parts|..]), atoms[t].otsFragment);
      }
    }
  }

  lemma Reglued(a: string, b: string, c: string)
    ensures (a + b) + c == a + (b + c)
  {
  }

  lemma LastPart(parts: seq<string>)
    requires parts != []
    ensures Concat(parts) == Concat(parts[..|parts| - 1]) + parts[|parts| - 1]
  {
    ConcatSnoc(parts[..|parts| - 1], parts[|parts| - 1]);
    assert parts == parts[..|parts| - 1] + [parts[|parts| - 1]];
  }

  lemma RestSnoc(atoms: seq<Atom>, n: nat)
    requires n < |atoms|
    ensures var t := |atoms| - 1;
            Fragments(atoms[n..]) == Fragments(atoms[..t][n..]) + atoms[t].otsFragment
  {
    var t, rest := |atoms| - 1, atoms[n..];
    FragmentsSnoc(rest);
    assert rest[..|rest| - 1] == atoms[..t][n..];
  }

  lemma NothingGlued()
    ensures Fragments([]) == ""
  {
  }

  lemma FragmentsSnoc(atoms: seq<Atom>)
    requires atoms != []
    ensures Fragments(atoms) == Fragments(atoms[..|atoms| - 1]) + atoms[|atoms| - 1].otsFragment
  {
  }

  lemma FragmentsLast(atoms: seq<Atom>, parts: seq<string>)
    requires atoms != [] && |parts| <= |atoms|
    ensures var t := |atoms| - 1;
            Fragments(Fragmented(atoms, parts))
            == if |parts| == |atoms| then Fragments(Fragmented(atoms[..t], parts[..t])) + parts[t]
               else Fragments(Fragmented(atoms[..t], parts)) + atoms[t].otsFragment
  {
    var t, signed := |atoms| - 1, Fragmented(atoms, parts);
    FragmentsSnoc(signed);
    assert signed[..t] == Fragmented(atoms[..t], if |parts| == |atoms| then parts[..t] else parts);
  }

  lemma {:induction false} NoFragments(atoms: seq<Atom>)
    ensures Fragments(atoms) == "" <==> forall i :: 0 <= i < |atoms| ==> atoms[i].otsFragment == ""
  {
    if atoms != [] {
      var t := atoms[..|atoms| - 1];
      NoFragments(t);
      assert Fragments(atoms) == "" <==> Fragments(t) == "" && atoms[|t|].otsFragment == "";
      assert forall i :: 0 <= i < |t| ==> t[i] == atoms[i];
    }
  }

  /** Gluing the fragments of a signed molecule gives the signature back exactly when the atoms behind the last written
      fragment carried none. */
  lemma FragmentsExact(atoms: seq<Atom>, text: string)
    requires atoms != [] && text != ""
    ensures CeilDiv(|text|, |atoms|) > 0
    ensures var parts := Pieces(text, CeilDiv(|text|, |atoms|));
            Fragments(Fragmented(atoms, parts)) == text
            <==> forall i :: |parts| <= i < |atoms| ==> atoms[i].otsFragment == ""
  {
    FragmentsFit(text, |atoms|);
    hide CeilDiv;
    var size := CeilDiv(|text|, |atoms|);
    var parts := Pieces(text, size);
    ConcatPieces(text, size);
    FragmentsOfSigned(atoms, parts);
    NoFragments(atoms[|parts|..]);
    if forall i :: |parts| <= i < |atoms| ==> atoms[i].otsFragment == "" {
      assert text + "" == text;
    } else {
      var i :| |parts| <= i < |atoms| && atoms[i].otsFragment != "";
      assert atoms[|parts|..][i - |parts|] == atoms[i];
    }
  }

  // ----- completeness

  /** Either form of a signature decodes to its hex. */
  lemma TextDecodes(xof: Xof, hash: string, key: string, compressed: bool)
    requires Signable(hash) && IsKey(key)
    ensures OtsHex(SignatureText(xof, hash, key, compressed)) == Ok(KeySignature(xof, hash, key))
  {
    hide KeySignature, Base64ToHex, HexToBase64, Strict;
    HexBase64RoundTrip(KeySignature(xof, hash, key));
  }

  lemma SignedKeepsAtoms(atoms: seq<Atom>, parts: seq<string>)
    ensures AllSameButFragment(atoms, Fragmented(atoms, parts))
  {
  }

  /** A molecule signed without earlier fragments verifies: its hash still matches, and verifyOts accepts it exactly
      when the first atom names the address of the signing key. */
  lemma SignedMoleculeVerifies(xof: Xof, dump: Json -> string, atoms: seq<Atom>, key: string, compressed: bool)
    requires atoms != [] && IsKey(key)
    requires forall i :: 0 <= i < |atoms| ==> atoms[i].otsFragment == ""
    ensures var signed, hash := SignedAtoms(xof, dump, atoms, key, compressed), HashBase17(xof, dump, atoms);
            HashBase17(xof, dump, signed) == hash
            && OtsVerdict(xof, signed, hash)
            == if atoms[0].walletAddress == Address(xof, key) then Ok(()) else Err(SignatureMismatch)
  {
    HashIsSignable(xof, dump, atoms);
    var hash := HashBase17(xof, dump, atoms);
    var parts := SignatureParts(xof, hash, key, compressed, |atoms|);
    var signed := SignedAtoms(xof, dump, atoms, key, compressed);
    SignedKeepsAtoms(atoms, parts);
    HashIgnoresFragments(xof, dump, atoms, signed);
    hide HashBase17, SignatureText, Symbols64, OtsHex, RecoveredAddress, Signable, CeilDiv;
    FragmentsExact(atoms, SignatureText(xof, hash, key, compressed));
    TextDecodes(xof, hash, key, compressed);
    SignatureRecoversAddress(xof, key, Symbols64(hash));
    assert signed[0].walletAddress == atoms[0].walletAddress;
  }

  // ----- uniqueness

  /** A base64 signature always reaches the chains as lower-case hex. */
  lemma Base64ReachesAsHex(text: string)
    requires |text| != 2048 && |text| != 8192 && OtsHex(text).Ok?
    ensures IsKey(OtsHex(text).value)
  {
  }

  /** Under the collision assumptions of SignatureUnique, verifyOts accepts a signature that reaches the chains as
      lower-case hex exactly when that hex is the one that signing computes. */
  lemma AcceptedSignatureUnique(xof: Xof, atoms: seq<Atom>, hash: string, key: string, ots: string)
    requires atoms != [] && Signable(hash) && IsKey(key) && atoms[0].walletAddress == Address(xof, key)
    requires OtsHex(Fragments(atoms)) == Ok(ots) && LowerHex(ots)
    requires |Pieces(key, 128)| <= 64 && |Pieces(ots, 128)| <= 64
    requires StepsApart(xof, key, ots, Symbols64(hash))
    requires AddressOfEnds(xof, VerifiedEnds(xof, ots, Symbols64(hash))) == AddressOfEnds(xof, KeyEnds(xof, key))
          ==> VerifiedEnds(xof, ots, Symbols64(hash)) == KeyEnds(xof, key)
    ensures OtsVerdict(xof, atoms, hash) == Ok(()) <==> ots == KeySignature(xof, hash, key)
  {
    SignatureUnique(xof, key, ots, Symbols64(hash));
  }
}
