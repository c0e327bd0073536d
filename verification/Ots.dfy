/** The one-time signature scheme: keys, hash chains, addresses and signatures, over an abstract SHAKE256. */
module Ots {
  import opened Common
  import opened Hex
  import opened BigInt
  import opened Chunks
  import opened Normalize

  /** SHAKE256 (section 6.2 of FIPS 202) as a function of its input and its output length in bytes. */
  type Xof = f: (string, nat) -> seq<byte> | forall s: string, n: nat :: |f(s, n)| == n
    witness (s: string, n: nat) => seq(n, _ => 0)

  /** shake256Hex; the output length is given in bits, as in the source. */
  function ShakeHex(xof: Xof, s: string, bits: nat): (h: string)
    requires bits > 0 && bits % 8 == 0
    ensures |h| == bits / 4 && LowerHex(h)
  {
    ToHex(xof(s, bits / 8))
  }

  // ----- keys and addresses

  /** An OTS version other than 1 and 2, an empty secret and an empty position are rejected. */
  function WalletKey(xof: Xof, secret: string, token: string, position: string, version: int): (key: Result<string>)
    ensures key.Ok? <==> version in {1, 2} && secret != "" && position != ""
    ensures key.Ok? ==> LowerHex(key.value) && |key.value| == KeyLength(version)
  {
    if version != 1 && version != 2 then Err(InvalidArgument)
    else if secret == "" || position == "" then Err(InvalidArgument)
    else
      var secretHex := if AllHex(secret) then secret else ShakeHex(xof, secret, 1024);
      var positionHex := if AllHex(position) then position else ShakeHex(xof, position, 256);
      LowerIsHex(secretHex);
      LowerIsHex(positionHex);
      var indexedKeyHex := HexAdd(secretHex, positionHex).value;
      var sponge := if version == 2 then "KnishIO-OTS-v2|" + indexedKeyHex + "|" + token else indexedKeyHex + token;
      Ok(ShakeHex(xof, ShakeHex(xof, sponge, 8192), if version == 2 then 32768 else 8192))
  }

  lemma LowerIsHex(s: string)
    ensures LowerHex(s) ==> AllHex(s)
  {
  }

  /** 16 chains of 128 hex digits for version 1, 64 for version 2. */
  function KeyLength(version: int): nat {
    if version == 2 then 8192 else 2048
  }

  function BundleHash(xof: Xof, secret: string): string {
    ShakeHex(xof, secret, 256)
  }

  function ChainStep(xof: Xof, s: string): (h: string)
    ensures |h| == 128 && LowerHex(h)
  {
    ShakeHex(xof, s, 512)
  }

  /** n steps of a hash chain. */
  function Chain(xof: Xof, s: string, n: nat): string {
    if n == 0 then s else ChainStep(xof, Chain(xof, s, n - 1))
  }

  /** Every chain advanced by its own count. */
  function Advance(xof: Xof, parts: seq<string>, counts: seq<nat>): (ends: seq<string>)
    requires |parts| <= |counts|
    ensures |ends| == |parts|
  {
    seq(|parts|, i requires 0 <= i < |parts| => Chain(xof, parts[i], counts[i]))
  }

  function Sixteens(n: nat): (c: seq<nat>)
    ensures |c| == n
  {
    seq(n, _ => 16)
  }

  /** The address that the ends of all chains hash to. */
  function AddressOfEnds(xof: Xof, ends: string): (a: string)
    ensures |a| == 64 && LowerHex(a)
  {
    ShakeHex(xof, ShakeHex(xof, ends, 8192), 256)
  }

  function Address(xof: Xof, key: string): (a: string)
    ensures |a| == 64 && LowerHex(a)
  {
    var parts := Pieces(key, 128);
    AddressOfEnds(xof, Concat(Advance(xof, parts, Sixteens(|parts|))))
  }

  lemma ConcatNone()
    ensures Concat([]) == ""
  {
  }

  lemma ConcatSnoc(parts: seq<string>, p: string)
    ensures Concat(parts + [p]) == Concat(parts) + p
  {
    if |parts| == 0 {
      assert parts + [p] == [p];
      assert Concat([p]) == p + Concat([p][1..]);
    } else {
      assert (parts + [p])[1..] == parts[1..] + [p];
      ConcatSnoc(parts[1..], p);
    }
  }

  /** One chain, advanced step by step. */
  method RunChain(xof: Xof, start: string, n: int) returns (end: string)
    ensures end == Chain(xof, start, if n < 0 then 0 else n)
  {
    end := start;
    var i := 0;
    while i < n
      invariant 0 <= i && (i <= n || i == 0) && end == Chain(xof, start, i)
    {
      end := ChainStep(xof, end);
      i := i + 1;
    }
  }

  method GenerateWalletAddress(xof: Xof, key: string) returns (address: string)
    ensures address == Address(xof, key)
  {
    hide Chain, AddressOfEnds, ShakeHex, Pieces, Concat;
    ConcatNone();
    var keyFragments := ChunkSubstr(key, 128);
    var digestSponge := "";
    ghost var ends := Advance(xof, keyFragments, Sixteens(|keyFragments|));
    for k := 0 to |keyFragments|
      invariant digestSponge == Concat(ends[..k])
    {
      var workingFragment := RunChain(xof, keyFragments[k], 16);
      ConcatSnoc(ends[..k], workingFragment);
      assert ends[..k] + [workingFragment] == ends[..k + 1];
      digestSponge := digestSponge + workingFragment;
    }
    assert ends[..|keyFragments|] == ends;
    return AddressOfEnds(xof, digestSponge);
  }

  /** Tries the preferred version first; the address is compared in lower case. */
  function DetectOtsVersion(xof: Xof, secret: string, token: string, position: string, address: string, preferred: int)
    : Result<Option<int>>
  {
    if preferred != 1 && preferred != 2 then Err(InvalidArgument)
    else if secret == "" || position == "" || address == "" then Ok(None)
    else
      var wanted := Lower(address);
      var other := if preferred == 1 then 2 else 1;
      if Address(xof, WalletKey(xof, secret, token, position, preferred).value) == wanted then Ok(Some(preferred))
      else if Address(xof, WalletKey(xof, secret, token, position, other).value) == wanted then Ok(Some(other))
      else Ok(None)
  }

  /** Detection rejects other versions, finds nothing without secret, position or address, and otherwise exactly an
      address, in either letter case, of one of the two versions. */
  lemma DetectsExactly(xof: Xof, secret: string, token: string, position: string, address: string, preferred: int)
    ensures var r := DetectOtsVersion(xof, secret, token, position, address, preferred);
            && (r.Err? <==> preferred !in {1, 2})
            && (r.Err? ==> r == Err(InvalidArgument))
            && (r.Ok? && (secret == "" || position == "" || address == "") ==> r.value == None)
            && (r.Ok? && secret != "" && position != "" && address != "" ==>
                  var a := v requires v in {1, 2} => Address(xof, WalletKey(xof, secret, token, position, v).value);
                  && (r.value.Some? <==> Lower(address) in {a(1), a(2)})
                  && (r.value.Some? ==> r.value.value in {1, 2} && a(r.value.value) == Lower(address))
                  && (Lower(address) == a(preferred) ==> r.value == Some(preferred)))
  {
    hide Address, WalletKey, Lower;
  }

  // ----- signatures

  /** 8 - n[i] steps of chain i when signing. */
  function SignSteps(norm: seq<int8>): (c: seq<nat>)
    requires InRange(norm)
    ensures |c| == |norm|
  {
    seq(|norm|, i requires 0 <= i < |norm| => 8 - norm[i] as int)
  }

  /** 8 + n[i] steps of chain i when verifying. */
  function VerifySteps(norm: seq<int8>): (c: seq<nat>)
    requires InRange(norm)
    ensures |c| == |norm|
  {
    seq(|norm|, i requires 0 <= i < |norm| => 8 + norm[i] as int)
  }

  /** The hex signature of a normalized hash under a key. */
  function SignatureHex(xof: Xof, key: string, norm: seq<int8>): string
    requires InRange(norm) && |Pieces(key, 128)| <= |norm|
  {
    Concat(Advance(xof, Pieces(key, 128), SignSteps(norm)))
  }

  /** The address that a hex signature of a normalized hash leads to. */
  function RecoveredAddress(xof: Xof, ots: string, norm: seq<int8>): string
    requires InRange(norm) && |Pieces(ots, 128)| <= |norm|
  {
    AddressOfEnds(xof, Concat(Advance(xof, Pieces(ots, 128), VerifySteps(norm))))
  }

  lemma {:induction false} ChainAdds(xof: Xof, s: string, m: nat, n: nat)
    ensures Chain(xof, Chain(xof, s, m), n) == Chain(xof, s, m + n)
  {
    if n > 0 {
      ChainAdds(xof, s, m, n - 1);
    }
  }

  predicate Hex128(s: string) {
    |s| == 128 && LowerHex(s)
  }

  predicate AllHex128(parts: seq<string>) {
    forall i :: 0 <= i < |parts| ==> Hex128(parts[i])
  }

  lemma {:induction false} ChainHex(xof: Xof, s: string, n: nat)
    requires Hex128(s)
    ensures Hex128(Chain(xof, s, n))
  {
    if n > 0 {
      ChainHex(xof, s, n - 1);
    }
  }

  lemma AdvanceHex(xof: Xof, parts: seq<string>, counts: seq<nat>)
    requires |parts| <= |counts| && AllHex128(parts)
    ensures AllHex128(Advance(xof, parts, counts)) && Uniform(Advance(xof, parts, counts), 128)
  {
    forall i | 0 <= i < |parts|
      ensures Hex128(Advance(xof, parts, counts)[i])
    {
      ChainHex(xof, parts[i], counts[i]);
    }
  }

  lemma {:induction false} PiecesHex(s: string, n: nat)
    requires |s| == n * 128 && LowerHex(s)
    ensures |Pieces(s, 128)| == n && AllHex128(Pieces(s, 128))
  {
    if n > 1 {
      PiecesHex(s[128..], n - 1);
    }
  }

  lemma {:induction false} ConcatHex(parts: seq<string>)
    requires AllHex128(parts)
    ensures LowerHex(Concat(parts)) && |Concat(parts)| == |parts| * 128
  {
    if |parts| > 0 {
      ConcatHex(parts[1..]);
    }
  }

  /** A key of 16 or 64 chains: lower-case hex of the right length. */
  predicate IsKey(key: string) {
    LowerHex(key) && (|key| == 2048 || |key| == 8192)
  }

  lemma KeyPieces(key: string)
    requires IsKey(key)
    ensures |Pieces(key, 128)| == (if |key| == 8192 then 64 else 16) && AllHex128(Pieces(key, 128))
  {
    PiecesHex(key, if |key| == 8192 then 64 else 16);
  }

  /** A signature is as long as the key, and lower-case hex. */
  lemma SignatureShape(xof: Xof, key: string, norm: seq<int8>)
    requires IsKey(key) && InRange(norm) && |norm| == 64
    ensures |Pieces(key, 128)| <= 64
    ensures |SignatureHex(xof, key, norm)| == |key| && LowerHex(SignatureHex(xof, key, norm))
    ensures Pieces(SignatureHex(xof, key, norm), 128) == Advance(xof, Pieces(key, 128), SignSteps(norm))
  {
    KeyPieces(key);
    var sigs := Advance(xof, Pieces(key, 128), SignSteps(norm));
    AdvanceHex(xof, Pieces(key, 128), SignSteps(norm));
    ConcatHex(sigs);
    PiecesConcat(sigs, 128);
  }

  /** Chain i of a key is signed with the count that SumOfCounts and CountsBalanced speak of, and verified with what is
      left of 16. */
  lemma StepsAreCounts(norm: seq<int8>)
    requires InRange(norm)
    ensures SignSteps(norm) == SignCounts(norm)
    ensures forall i :: 0 <= i < |norm| ==> VerifySteps(norm)[i] == 16 - SignCounts(norm)[i]
  {
  }

  /** Chunk i of the signature: the key's own chunk for the highest entry, one chain step more for every entry less, and
      the end of the chain for the lowest. The other chunks do not change. */
  lemma SignatureChunk(xof: Xof, key: string, norm: seq<int8>, i: nat)
    requires IsKey(key) && InRange(norm) && |norm| == 64 && |Pieces(key, 128)| <= 64 && i < |Pieces(key, 128)|
    ensures var part, chunks := Pieces(key, 128)[i], Pieces(SignatureHex(xof, key, norm), 128);
            && |chunks| == |Pieces(key, 128)|
            && (norm[i] == 8 ==> chunks[i] == part)
            && (norm[i] == -8 ==> chunks[i] == Chain(xof, part, 16))
            && (norm[i] > -8 ==>
                  var lower := Pieces(SignatureHex(xof, key, norm[i := norm[i] - 1]), 128);
                  lower == chunks[i := ChainStep(xof, chunks[i])])
  {
    hide SignatureHex, Pieces, ChainStep, Chain, IsKey;
    SignatureShape(xof, key, norm);
    NoSteps(xof, Pieces(key, 128)[i]);
    if norm[i] > -8 {
      var less := norm[i := norm[i] - 1];
      SignatureShape(xof, key, less);
      assert SignSteps(less) == SignSteps(norm)[i := SignSteps(norm)[i] + 1];
      OneStepMore(xof, Pieces(key, 128), SignSteps(norm), i);
    }
  }

  lemma NoSteps(xof: Xof, s: string)
    ensures Chain(xof, s, 0) == s
  {
  }

  lemma OneStepMore(xof: Xof, parts: seq<string>, counts: seq<nat>, i: nat)
    requires i < |parts| <= |counts|
    ensures var ends := Advance(xof, parts, counts);
            Advance(xof, parts, counts[i := counts[i] + 1]) == ends[i := ChainStep(xof, ends[i])]
  {
    hide ChainStep;
    assert Chain(xof, parts[i], counts[i] + 1) == ChainStep(xof, Chain(xof, parts[i], counts[i]));
    hide Chain;
  }

  /** Verifying: chunk i of the signature is itself the end for the lowest entry, one chain step is added for every
      entry more, and the highest walks the whole chain. */
  lemma VerifiedChunk(xof: Xof, ots: string, norm: seq<int8>, i: nat)
    requires IsKey(ots) && InRange(norm) && |norm| == 64 && |Pieces(ots, 128)| <= 64 && i < |Pieces(ots, 128)|
    ensures var part, ends := Pieces(ots, 128)[i], Pieces(VerifiedEnds(xof, ots, norm), 128);
            && |ends| == |Pieces(ots, 128)|
            && (norm[i] == -8 ==> ends[i] == part)
            && (norm[i] == 8 ==> ends[i] == Chain(xof, part, 16))
            && (norm[i] < 8 ==>
                  var higher := Pieces(VerifiedEnds(xof, ots, norm[i := norm[i] + 1]), 128);
                  higher == ends[i := ChainStep(xof, ends[i])])
    ensures RecoveredAddress(xof, ots, norm) == AddressOfEnds(xof, VerifiedEnds(xof, ots, norm))
  {
    hide VerifiedEnds, Pieces, ChainStep, RecoveredAddress, Chain, IsKey;
    EndsShape(xof, ots, norm);
    NoSteps(xof, Pieces(ots, 128)[i]);
    if norm[i] < 8 {
      var more := norm[i := norm[i] + 1];
      EndsShape(xof, ots, more);
      assert VerifySteps(more) == VerifySteps(norm)[i := VerifySteps(norm)[i] + 1];
      OneStepMore(xof, Pieces(ots, 128), VerifySteps(norm), i);
    }
  }

  lemma EndsShape(xof: Xof, ots: string, norm: seq<int8>)
    requires IsKey(ots) && InRange(norm) && |norm| == 64 && |Pieces(ots, 128)| <= 64
    ensures Pieces(VerifiedEnds(xof, ots, norm), 128) == Advance(xof, Pieces(ots, 128), VerifySteps(norm))
    ensures RecoveredAddress(xof, ots, norm) == AddressOfEnds(xof, VerifiedEnds(xof, ots, norm))
  {
    KeyPieces(ots);
    AdvanceHex(xof, Pieces(ots, 128), VerifySteps(norm));
    PiecesConcat(Advance(xof, Pieces(ots, 128), VerifySteps(norm)), 128);
  }

  /** Signing and verifying together walk every chain 16 steps, so the signature leads to the key's address. */
  lemma SignatureRecoversAddress(xof: Xof, key: string, norm: seq<int8>)
    requires IsKey(key) && InRange(norm) && |norm| == 64
    ensures |Pieces(key, 128)| <= 64 && |Pieces(SignatureHex(xof, key, norm), 128)| <= 64
    ensures RecoveredAddress(xof, SignatureHex(xof, key, norm), norm) == Address(xof, key)
  {
    SignatureShape(xof, key, norm);
    var parts := Pieces(key, 128);
    var sigs := Advance(xof, parts, SignSteps(norm));
    var ends := Advance(xof, parts, Sixteens(|parts|));
    forall i | 0 <= i < |parts|
      ensures Advance(xof, sigs, VerifySteps(norm))[i] == ends[i]
    {
      ChainAdds(xof, parts[i], SignSteps(norm)[i], VerifySteps(norm)[i]);
    }
    assert Advance(xof, sigs, VerifySteps(norm)) == ends;
  }

  // ----- uniqueness

  /** Two chains never reach one value from two, within n steps. */
  predicate ChainsApart(xof: Xof, a: string, b: string, n: nat) {
    forall k :: 0 <= k < n && Chain(xof, a, k + 1) == Chain(xof, b, k + 1) ==> Chain(xof, a, k) == Chain(xof, b, k)
  }

  /** The assumption on the chains that verification compares: walking on from the chunks of ots, and from where the
      key's own signature stands, does not merge two different chain values. */
  predicate StepsApart(xof: Xof, key: string, ots: string, norm: seq<int8>)
    requires InRange(norm) && |Pieces(key, 128)| <= |norm|
  {
    forall i :: 0 <= i < |Pieces(key, 128)| && i < |Pieces(ots, 128)| ==>
      ChainsApart(xof, Pieces(ots, 128)[i], Chain(xof, Pieces(key, 128)[i], SignSteps(norm)[i]), VerifySteps(norm)[i])
  }

  lemma {:induction false} ChainInjective(xof: Xof, a: string, b: string, n: nat)
    requires ChainsApart(xof, a, b, n) && Chain(xof, a, n) == Chain(xof, b, n)
    ensures a == b
  {
    if n > 0 {
      assert Chain(xof, a, n - 1) == Chain(xof, b, n - 1);
      ChainInjective(xof, a, b, n - 1);
    }
  }

  /** The ends that an accepted signature and the key's own chains reach. */
  ghost function VerifiedEnds(xof: Xof, ots: string, norm: seq<int8>): string
    requires InRange(norm) && |Pieces(ots, 128)| <= |norm|
  {
    Concat(Advance(xof, Pieces(ots, 128), VerifySteps(norm)))
  }

  ghost function KeyEnds(xof: Xof, key: string): string {
    Concat(Advance(xof, Pieces(key, 128), Sixteens(|Pieces(key, 128)|)))
  }

  /** A lower-case hex signature leads to the key's address exactly when it is the key's signature, provided the
      compared chains do not merge and their two ends do not collide in the address hash. */
  lemma SignatureUnique(xof: Xof, key: string, ots: string, norm: seq<int8>)
    requires IsKey(key) && IsKey(ots) && InRange(norm) && |norm| == 64
    requires |Pieces(key, 128)| <= 64 && |Pieces(ots, 128)| <= 64
    requires StepsApart(xof, key, ots, norm)
    requires AddressOfEnds(xof, VerifiedEnds(xof, ots, norm)) == AddressOfEnds(xof, KeyEnds(xof, key))
          ==> VerifiedEnds(xof, ots, norm) == KeyEnds(xof, key)
    ensures RecoveredAddress(xof, ots, norm) == Address(xof, key) <==> ots == SignatureHex(xof, key, norm)
  {
    SignatureRecoversAddress(xof, key, norm);
    if RecoveredAddress(xof, ots, norm) == Address(xof, key) {
      KeyPieces(key);
      KeyPieces(ots);
      var parts, sigs := Pieces(key, 128), Pieces(ots, 128);
      var ends, reached := Advance(xof, parts, Sixteens(|parts|)), Advance(xof, sigs, VerifySteps(norm));
      AdvanceHex(xof, parts, Sixteens(|parts|));
      AdvanceHex(xof, sigs, VerifySteps(norm));
      PiecesConcat(ends, 128);
      PiecesConcat(reached, 128);
      assert ends == reached;
      forall i | 0 <= i < |parts|
        ensures sigs[i] == Chain(xof, parts[i], SignSteps(norm)[i])
      {
        var m, n := SignSteps(norm)[i], VerifySteps(norm)[i];
        ChainAdds(xof, parts[i], m, n);
        assert reached[i] == ends[i];
        ChainInjective(xof, sigs[i], Chain(xof, parts[i], m), n);
      }
      assert sigs == Advance(xof, parts, SignSteps(norm));
      ConcatPieces(ots, 128);
    }
  }
}
