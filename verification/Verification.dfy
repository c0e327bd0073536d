/** The complete verdicts of verify and check, and what they say about built and signed molecules. */
module Verification {
  import opened Common
  import opened Decimal
  import opened Json
  import opened Base17
  import opened Ots
  import opened Atom
  import opened AtomHash
  import opened Wallet
  import opened Conservation
  import opened Builders
  import opened Acceptance
  import opened Signing

  /** verifyMolecularHash */
  predicate HashMatches(xof: Xof, dump: Json -> string, atoms: seq<Atom>, hash: string) {
    atoms != [] && hash != "" && HashBase17(xof, dump, atoms) == hash
  }

  /** verify */
  ghost predicate Verifies(xof: Xof, dump: Json -> string, fl: Floats, atoms: seq<Atom>, hash: string) {
    && HashMatches(xof, dump, atoms, hash)
    && TokenIsotopeV(fl, atoms, hash) == Ok(true)
    && OtsVerdict(xof, atoms, hash) == Ok(())
  }

  /** verifyContinuId: a molecule signed by a USER wallet needs an I atom. */
  predicate CarriesContinuId(atoms: seq<Atom>) {
    atoms == [] || atoms[0].token != "USER" || exists i :: 0 <= i < |atoms| && atoms[i].isotope == "I"
  }

  /** The first atom decides whether a ContinuID atom is needed, and any later atom can be it. */
  lemma ContinuIdAtom(xs: seq<Atom>, a: Atom)
    ensures CarriesContinuId([a]) <==> a.token != "USER" || a.isotope == "I"
    ensures xs != [] ==> (CarriesContinuId(xs + [a]) <==> CarriesContinuId(xs) || a.isotope == "I")
  {
    assert [a][0] == a && (xs + [a])[|xs|] == a;
    if xs != [] {
      assert forall i :: 0 <= i < |xs| ==> (xs + [a])[i] == xs[i];
    }
  }

  /** check: which failure is reported first. */
  ghost function CheckVerdict(xof: Xof, dump: Json -> string, fl: Floats, atoms: seq<Atom>, hash: string): Result<()> {
    if atoms == [] || !CarriesContinuId(atoms) then Err(AtomsNotFound)
    else if !HashMatches(xof, dump, atoms, hash) then Err(RuntimeFailure)
    else if OtsVerdict(xof, atoms, hash).Err? then OtsVerdict(xof, atoms, hash)
    else if TokenIsotopeV(fl, atoms, hash) != Ok(true) then Err(RuntimeFailure)
    else Ok(())
  }

  /** check accepts exactly what verify accepts and what carries its ContinuID atom. */
  lemma CheckIsVerify(xof: Xof, dump: Json -> string, fl: Floats, atoms: seq<Atom>, hash: string)
    ensures CheckVerdict(xof, dump, fl, atoms, hash) == Ok(())
         <==> Verifies(xof, dump, fl, atoms, hash) && CarriesContinuId(atoms)
  {
    hide TokenIsotopeV, CarriesContinuId, HashBase17;
  }

  /** Which failure check reports: no atoms or a missing ContinuID atom first, then a hash that does not match, then
      the signature's own failure, and the conservation check last. */
  lemma CheckReports(xof: Xof, dump: Json -> string, fl: Floats, atoms: seq<Atom>, hash: string)
    ensures var r, ots := CheckVerdict(xof, dump, fl, atoms, hash), OtsVerdict(xof, atoms, hash);
            var complete := atoms != [] && CarriesContinuId(atoms);
            && (r == Err(AtomsNotFound) <==> !complete)
            && (forall e :: e in {SignatureMalformed, SignatureMismatch} ==>
                  (r == Err(e) <==> complete && HashMatches(xof, dump, atoms, hash) && ots == Err(e)))
            && (r == Err(RuntimeFailure) <==>
                  complete && !(HashMatches(xof, dump, atoms, hash)
                                && (ots.Err? || TokenIsotopeV(fl, atoms, hash) == Ok(true))))
  {
    hide TokenIsotopeV, CarriesContinuId, HashBase17, OtsVerdict, OtsHex, Fragments, Signable;
    if atoms != [] {
      OtsReports(xof, atoms, hash);
    }
  }

  // ----- fragments do not touch the conservation check

  lemma {:induction false} ValuesIgnoreFragments(xs: seq<Atom>, ys: seq<Atom>, token: string)
    requires AllSameButFragment(xs, ys)
    ensures VValues(xs, token) == VValues(ys, token)
  {
    if xs != [] {
      var t := |xs| - 1;
      ValuesIgnoreFragments(xs[..t], ys[..t], token);
      assert SameButFragment(xs[t], ys[t]);
      SameFields(xs[t], ys[t]);
    }
  }

  /** The parts of an atom that the checks read. */
  lemma SameFields(a: Atom, b: Atom)
    requires SameButFragment(a, b)
    ensures a.isotope == b.isotope && a.token == b.token && a.value == b.value && a.metaType == b.metaType
         && a.metaId == b.metaId
    ensures a.walletAddress == b.walletAddress && a.position == b.position
  {
    assert a == b.(otsFragment := a.otsFragment);
  }

  lemma {:induction false} CrossSumIgnoresFragments(fl: Floats, xs: seq<Atom>, ys: seq<Atom>)
    requires AllSameButFragment(xs, ys)
    ensures CrossSum(fl, xs) == CrossSum(fl, ys)
  {
    if xs != [] {
      var t := |xs| - 1;
      CrossSumIgnoresFragments(fl, xs[..t], ys[..t]);
      assert SameButFragment(xs[t], ys[t]);
      SameFields(xs[t], ys[t]);
    }
  }

  lemma HeadsIgnoresFragments(xs: seq<Atom>, ys: seq<Atom>, i: nat)
    requires AllSameButFragment(xs, ys) && i < |xs|
    ensures Heads(xs, i) == Heads(ys, i) && xs[i].token == ys[i].token
  {
    forall j | 0 <= j <= i
      ensures xs[j].token == ys[j].token && xs[j].isotope == ys[j].isotope
    {
      assert SameButFragment(xs[j], ys[j]);
      SameFields(xs[j], ys[j]);
    }
  }

  lemma {:induction false} ScanIgnoresFragments(fl: Floats, xs: seq<Atom>, ys: seq<Atom>, i: nat)
    requires AllSameButFragment(xs, ys) && i <= |xs|
    ensures VScan(fl, xs, i) == VScan(fl, ys, i)
    decreases |xs| - i
  {
    if i < |xs| {
      ScanIgnoresFragments(fl, xs, ys, i + 1);
      HeadsIgnoresFragments(xs, ys, i);
      ValuesIgnoreFragments(xs, ys, xs[i].token);
      hide Heads, FloatSum, VValues, AllSameButFragment;
    }
  }

  lemma TokenCheckIgnoresFragments(fl: Floats, xs: seq<Atom>, ys: seq<Atom>, hash: string)
    requires AllSameButFragment(xs, ys)
    ensures TokenIsotopeV(fl, xs, hash) == TokenIsotopeV(fl, ys, hash)
  {
    forall i | 0 <= i < |xs|
      ensures IsCross(xs[i]) == IsCross(ys[i]) && CrossWellFormed(fl, xs[i]) == CrossWellFormed(fl, ys[i])
    {
      assert SameButFragment(xs[i], ys[i]);
      SameFields(xs[i], ys[i]);
    }
    CrossSumIgnoresFragments(fl, xs, ys);
    ScanIgnoresFragments(fl, xs, ys, 0);
    hide IsCross, CrossWellFormed, CrossSum, VScan, SameButFragment;
  }

  // ----- end to end

  /** A signed molecule passes verify exactly when its atoms conserve value and its first atom names the address of the
      signing key: signing adds no way to fail and none to pass. */
  lemma SignedVerifies(xof: Xof, dump: Json -> string, fl: Floats, atoms: seq<Atom>, key: string, compressed: bool)
    requires atoms != [] && IsKey(key)
    requires forall i :: 0 <= i < |atoms| ==> atoms[i].otsFragment == ""
    ensures var signed, hash := SignedAtoms(xof, dump, atoms, key, compressed), HashBase17(xof, dump, atoms);
            Verifies(xof, dump, fl, signed, hash)
            <==> TokenIsotopeV(fl, atoms, hash) == Ok(true) && atoms[0].walletAddress == Address(xof, key)
  {
    SignedMoleculeVerifies(xof, dump, atoms, key, compressed);
    HashIsSignable(xof, dump, atoms);
    var hash := HashBase17(xof, dump, atoms);
    SignedKeepsAtoms(atoms, SignatureParts(xof, hash, key, compressed, |atoms|));
    var signed := SignedAtoms(xof, dump, atoms, key, compressed);
    TokenCheckIgnoresFragments(fl, atoms, signed, hash);
    hide HashBase17, TokenIsotopeV, OtsVerdict, Address, SignatureParts;
  }

  /** A wallet at the address of the secret's key for its token, position and OTS version. */
  predicate OwnWallet(xof: Xof, w: WalletView, secret: string) {
    var key := WalletKey(xof, secret, w.token, w.position, w.otsVersion);
    key.Ok? && w.address == Address(xof, key.value)
  }

  /** Atoms that a builder made for one of the secret's wallets and that pass the conservation check: signed with the
      key that sign derives, they pass verify, and they pass check unless the wallet is a USER wallet. */
  lemma BuiltAndSignedVerifies(xof: Xof, dump: Json -> string, fl: Floats, src: WalletView, atoms: seq<Atom>,
                               secret: string, compressed: bool)
    requires BuiltFor(src, atoms) && OwnWallet(xof, src, secret)
    requires TokenIsotopeV(fl, atoms, HashBase17(xof, dump, atoms)) == Ok(true)
    ensures var key := SigningKey(xof, atoms, secret, src.otsVersion);
            && key.Ok?
            && var signed, hash := SignedAtoms(xof, dump, atoms, key.value, compressed), HashBase17(xof, dump, atoms);
               && Verifies(xof, dump, fl, signed, hash)
               && CheckVerdict(xof, dump, fl, signed, hash) ==
                   if src.token == "USER" then Err(AtomsNotFound) else Ok(())
  {
    hide HashBase17, TokenIsotopeV, SignedAtoms, Verifies, Address, WalletKey, CheckVerdict, CarriesContinuId;
    var key := SigningKey(xof, atoms, secret, src.otsVersion).value;
    SignedVerifies(xof, dump, fl, atoms, key, compressed);
    var signed := SignedAtoms(xof, dump, atoms, key, compressed);
    CheckIsVerify(xof, dump, fl, signed, HashBase17(xof, dump, atoms));
    SignedNeedsContinuId(xof, dump, fl, src, atoms, key, compressed);
  }

  lemma SignedNeedsContinuId(xof: Xof, dump: Json -> string, fl: Floats, src: WalletView, atoms: seq<Atom>, key: string,
                             compressed: bool)
    requires BuiltFor(src, atoms) && IsKey(key)
    ensures var signed, hash := SignedAtoms(xof, dump, atoms, key, compressed), HashBase17(xof, dump, atoms);
            && (CarriesContinuId(signed) <==> src.token != "USER")
            && (src.token == "USER" ==> CheckVerdict(xof, dump, fl, signed, hash) == Err(AtomsNotFound))
  {
    HashIsSignable(xof, dump, atoms);
    var hash := HashBase17(xof, dump, atoms);
    var signed := SignedAtoms(xof, dump, atoms, key, compressed);
    SignedKeepsAtoms(atoms, SignatureParts(xof, hash, key, compressed, |atoms|));
    assert AllSameButFragment(atoms, signed);
    forall i | 0 <= i < |atoms|
      ensures signed[i].isotope == atoms[i].isotope && signed[i].token == atoms[i].token
    {
      assert SameButFragment(atoms[i], signed[i]);
      SameFields(atoms[i], signed[i]);
    }
    hide SignedAtoms, HashBase17, SameButFragment;
  }

  /** A transfer to any number of recipients, with the change that initValues computes, signed from a wallet of the
      secret: it passes verify. */
  lemma SignedTransferVerifies(xof: Xof, dump: Json -> string, fl: Floats, src: WalletView, recs: seq<WalletView>,
                               texts: seq<string>, rem: WalletView, b: int, amounts: seq<int>, now: nat -> int64,
                               secret: string, compressed: bool)
    requires ReadsIntegers(fl) && ExactAdd(fl) && OwnWallet(xof, src, secret)
    requires |recs| <= |texts| && |recs| + 2 <= INT_MAX && Payable(src.balance, texts[..|recs|], b, amounts)
    requires rem.token == src.token && forall i :: 0 <= i < |recs| ==> recs[i].token == src.token
    ensures var change := PayoutOf(src.balance, texts[..|recs|]).change;
            && change.Ok?
            && var atoms := ValuesAtoms(dump, src, recs, texts, rem, change.value, now);
               && atoms != []
               && var key := SigningKey(xof, atoms, secret, src.otsVersion);
                  && key.Ok?
                  && Verifies(xof, dump, fl, SignedAtoms(xof, dump, atoms, key.value, compressed),
                      HashBase17(xof, dump, atoms))
  {
    hide *;
    PayoutCanonical(src.balance, texts[..|recs|], b, amounts);
    var atoms := ValuesAtoms(dump, src, recs, texts, rem, b - Total(amounts, |amounts|), now);
    HashIsSignable(xof, dump, atoms);
    var hash := HashBase17(xof, dump, atoms);
    SignableNotEmpty(hash);
    ValuesAccepted(fl, dump, src, recs, texts, rem, b, amounts, now, hash);
    BuiltIsNotEmpty(src, atoms);
    BuiltAndSignedVerifies(xof, dump, fl, src, atoms, secret, compressed);
  }

  lemma BuiltIsNotEmpty(src: WalletView, atoms: seq<Atom>)
    requires BuiltFor(src, atoms)
    ensures atoms != []
  {
  }

  lemma SignableNotEmpty(hash: string)
    requires Signable(hash)
    ensures hash != ""
  {
  }
}
