/** Which symbol vectors a molecular hash can stand for: a digest has fewer bits than 64 free base-17 symbols. */
module HashRange {
  import opened Common
  import opened Numerals
  import opened Hex
  import opened Base17
  import opened Normalize
  import opened Ots
  import opened Json
  import opened Atom
  import opened AtomHash
  import opened Signing

  predicate IsDigest(hex: string) {
    |hex| == 64 && LowerHex(hex)
  }

  /** The hash text of a digest. */
  function HashOf(hex: string): string
    requires IsDigest(hex)
  {
    ToBase17(hex)
  }

  /** The vector that signing with the hash of a digest reads. */
  ghost function VectorOf(hex: string): (v: seq<int8>)
    requires IsDigest(hex)
    ensures |v| == 64
  {
    DigestIsSignable(hex);
    Symbols64(HashOf(hex))
  }

  // ----- how much of 17^64 the digests fill

  lemma PowersOf16()
    ensures Pow(16, 32) == 0x1_0000_0000_0000_0000_0000_0000_0000_0000
  {
    hide Pow;
    Pow16Limb();
    PowAdd(16, 8, 8);
    PowAdd(16, 16, 16);
  }

  lemma PowersOf17()
    ensures Pow(17, 31) == 139288917338851014461418017489467720433
    ensures Pow(17, 32) == 2367911594760467245844106297320951247361
  {
    assert Pow(17, 1) == 17 && Pow(17, 2) == 289;
    hide Pow;
    PowAdd(17, 2, 2);
    PowAdd(17, 4, 4);
    PowAdd(17, 8, 8);
    PowAdd(17, 16, 16);
    PowAdd(17, 31, 1);
  }

  /** Sixty-two free symbols fit a digest, sixty-three do not. */
  lemma DigestWidth()
    ensures Pow(17, 62) < Pow(16, 64) < Pow(17, 63)
  {
    hide Pow;
    PowersOf16();
    PowersOf17();
    PowAdd(16, 32, 32);
    PowAdd(17, 31, 31);
    PowAdd(17, 31, 32);
  }

  /** Two signable texts with the same number are the same. */
  lemma SameNumber(x: string, y: string)
    requires Signable(x) && Signable(y) && Value(Digits17(x), 17) == Value(Digits17(y), 17)
    ensures x == y
  {
    FixedUnique(Digits17(x), Digits17(y), 17);
    EnumeratedComplete(x);
    EnumeratedComplete(y);
    hide Digits17, Signable;
    assert Enumerated(x) == Enumerated(y);
    EnumeratedInjective(x, y);
  }

  /** A signable text is the hash of some digest if and only if the number it denotes fits 256 bits. */
  lemma HashTexts(hash: string)
    requires Signable(hash)
    ensures (exists hex :: IsDigest(hex) && HashOf(hex) == hash) <==> Value(Digits17(hash), 17) < Pow(16, 64)
  {
    hide Pow, Value, Fixed, Digits17, ToBase17;
    if hex :| IsDigest(hex) && HashOf(hex) == hash {
      DigestIsSignable(hex);
      ValueBound(HexDigits(hex), 16);
    }
    var n := Value(Digits17(hash), 17);
    if n < Pow(16, 64) {
      FixedMeaning(n, 64, 16);
      var hex := HexText(Fixed(n, 64, 16));
      DigestIsSignable(hex);
      SameNumber(HashOf(hex), hash);
    }
  }

  /** The first symbol of every molecular hash is '0'. */
  lemma FirstSymbolIsZero(xof: Xof, dump: Json -> string, atoms: seq<Atom>)
    ensures var hash := HashBase17(xof, dump, atoms); Signable(hash) && hash[0] == '0' && Enumerated(hash)[0] == -8
  {
    var hex := HashHex(xof, dump, atoms);
    LeadingSymbol(hex);
    EnumeratedComplete(HashOf(hex));
    hide HashHex, ToBase17;
  }

  lemma LeadingSymbol(hex: string)
    requires IsDigest(hex)
    ensures Signable(HashOf(hex)) && HashOf(hex)[0] == '0'
  {
    hide Pow, Value, Fixed, ToBase17;
    DigestIsSignable(hex);
    ValueBound(HexDigits(hex), 16);
    DigestWidth();
    var ds := Digits17(HashOf(hex));
    LeadingDigit(ds, 17);
  }

  lemma LeadingDigit(ds: seq<nat>, b: nat)
    requires ds != [] && Value(ds, b) < Pow(b, |ds| - 1)
    ensures ds[0] == 0
  {
    var rest := ds[1..];
    assert ds == [ds[0]] + rest;
    ValueConcat([ds[0]], rest, b);
    Recompose([], 0, ds[0], b);
    assert [] + [ds[0]] == [ds[0]];
    if ds[0] > 0 {
      MulMonotone(1, ds[0], Pow(b, |rest|));
    }
  }

  // ----- the 16 chains of a v1 signature

  function Clamp(s: int): (e: int8)
    ensures -8 <= e <= 8
  {
    if s > 8 then 8 else if s < -8 then -8 else s
  }

  /** n entries with a given sum, from the last one on as large as possible. */
  function Filling(s: int, n: nat): (v: seq<int8>)
    requires -8 * n <= s <= 8 * n
    ensures |v| == n && InRange(v)
    decreases n
  {
    if n == 0 then [] else Filling(s - Clamp(s), n - 1) + [Clamp(s)]
  }

  lemma {:induction false} FillingSum(s: int, n: nat)
    requires -8 * n <= s <= 8 * n
    ensures Sum(Filling(s, n)) == s
    decreases n
  {
    if n > 0 {
      FillingSum(s - Clamp(s), n - 1);
      hide Sum;
      SumSnoc(Filling(s - Clamp(s), n - 1), Clamp(s));
    } else {
      assert Filling(s, n) == [];
    }
  }

  lemma {:induction false} SumConcat(v: seq<int>, w: seq<int>)
    ensures Sum(v + w) == Sum(v) + Sum(w)
  {
    if w == [] {
      assert v + w == v;
    } else {
      var t := w[..|w| - 1];
      SumConcat(v, t);
      assert v + w == v + t + [w[|w| - 1]];
      SumSnoc(v + t, w[|w| - 1]);
    }
  }

  /** The text whose symbols stand for the entries. */
  function TextOf(v: seq<int8>): (hash: string)
    requires InRange(v)
    ensures |hash| == |v|
  {
    seq(|v|, i requires 0 <= i < |v| => SymbolTable(v[i] + 8); SYMBOLS[v[i] + 8])
  }

  lemma TextMeaning(v: seq<int8>)
    requires InRange(v) && |v| == 64
    ensures Signable(TextOf(v)) && Enumerated(TextOf(v)) == v
    ensures forall i :: 0 <= i < 64 ==> Digits17(TextOf(v))[i] == v[i] + 8
  {
    forall i | 0 <= i < 64
      ensures IsSymbol17(TextOf(v)[i]) && Digit17(TextOf(v)[i]) == v[i] + 8
    {
      SymbolTable(v[i] + 8);
    }
    hide TextOf;
    EnumeratedComplete(TextOf(v));
  }

  /** Any vector that starts with two lowest entries belongs to the hash of a digest. */
  lemma VectorHasDigest(v: seq<int8>) returns (hex: string)
    requires InRange(v) && |v| == 64 && v[0] == v[1] == -8
    ensures IsDigest(hex) && Enumerated(HashOf(hex)) == v
  {
    TextMeaning(v);
    var ds := Digits17(TextOf(v));
    hide TextOf, Pow, Value, Digits17, Enumerated, IsDigest, HashOf;
    assert ds == Zeros(2) + ds[2..];
    ValueConcat(Zeros(2), ds[2..], 17);
    ZerosValue(2, 17);
    ValueBound(ds[2..], 17);
    DigestWidth();
    HashTexts(TextOf(v));
    hex :| IsDigest(hex) && HashOf(hex) == TextOf(v);
  }

  /** A v1 signature runs only the first 16 chains, and what 64 counts cannot do, 16 can: whatever 16 entries begin with
      two lowest ones begin the normalized vector of some hash. */
  lemma FirstChainsFree(first: seq<int8>)
    requires InRange(first) && |first| == 16 && first[0] == first[1] == -8
    ensures exists hex :: IsDigest(hex) && VectorOf(hex)[..16] == first
  {
    SumBounds(first, -8, 8);
    var rest := Filling(-Sum(first), 48);
    FillingSum(-Sum(first), 48);
    SumConcat(first, rest);
    hide Filling, Sum;
    var v := first + rest;
    var hex := VectorHasDigest(v);
    NormalizedFixpoint(v);
    assert VectorOf(hex)[..16] == first;
  }

  /** Of the first 16 counts none is more than the other's, and some is less. */
  ghost predicate FewerSteps(x: string, y: string)
    requires IsDigest(x) && IsDigest(y)
  {
    && (forall i :: 0 <= i < 16 ==> SignCounts(VectorOf(x))[i] <= SignCounts(VectorOf(y))[i])
    && exists i :: 0 <= i < 16 && SignCounts(VectorOf(x))[i] < SignCounts(VectorOf(y))[i]
  }

  lemma EntriesGiveCounts(x: string, y: string, p: seq<int8>, q: seq<int8>, k: nat)
    requires IsDigest(x) && IsDigest(y) && VectorOf(x)[..16] == p && VectorOf(y)[..16] == q
    requires k < 16 && q[k] < p[k] && forall i :: 0 <= i < 16 ==> q[i] <= p[i]
    ensures FewerSteps(x, y)
  {
    hide VectorOf, IsDigest;
    var v, w := VectorOf(x), VectorOf(y);
    assert forall i :: 0 <= i < 16 ==> v[i] == p[i] && w[i] == q[i];
    assert SignCounts(v)[k] < SignCounts(w)[k];
  }

  /** So there are two hashes whose v1 counts are ordered. */
  lemma FirstChainsOrdered()
    ensures exists x, y :: IsDigest(x) && IsDigest(y) && FewerSteps(x, y)
  {
    hide VectorOf, IsDigest, FewerSteps;
    var low: seq<int8> := [-8, -8] + seq(14, _ => 0);
    var high := low[2 := 1];
    FirstChainsFree(low);
    FirstChainsFree(high);
    var x :| IsDigest(x) && VectorOf(x)[..16] == high;
    var y :| IsDigest(y) && VectorOf(y)[..16] == low;
    EntriesGiveCounts(x, y, high, low, 2);
  }
}
