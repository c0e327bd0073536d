/** The client's value operations, from the wallets they have prepared to the molecule they submit. */
module Client {
  import opened Common
  import opened Decimal
  import opened Json
  import opened Ots
  import opened Atom
  import opened AtomHash
  import opened Wallet
  import opened Conservation
  import opened Builders
  import opened Acceptance
  import opened Signing
  import opened Verification
  import opened WireMolecule
  import opened Postings
  import opened Molecule

  /** What an operation hands to the validator: a signed molecule that verify accepts, with atoms that sum to zero, in
      index order. */
  ghost predicate Submittable(mol: Molecule, xof: Xof, dump: Json -> string, fl: Floats)
    reads mol
  {
    && Verifies(xof, dump, fl, mol.atoms, mol.molecularHash)
    && AmountSum(mol.atoms) == 0 && Indexed(mol.atoms)
  }

  /** The outcome of submitting a signed molecule that passed or skipped the check: the JSON to send, or toJson's error
      for a source balance that is no int. */
  function Written(v: MoleculeView, source: Option<WalletView>): Result<Json> {
    match WrittenBalance(source)
    case Err(e) => Err(e)
    case Ok(_) => Ok(Payload(v))
  }

  /** submitMolecule up to sending: sign; with checkBeforeSend also check, whose plain failures become client errors;
      then write the molecule as JSON and strip it of its wallets. */
  method Submit(mol: Molecule, xof: Xof, dump: Json -> string, fl: Floats, secret: string, checkBeforeSend: bool)
    returns (r: Result<Json>)
    modifies mol`bundle, mol`molecularHash, mol`atoms
    ensures old(mol.atoms) == [] ==> r == Err(AtomsNotFound)
    ensures old(mol.atoms) != [] ==>
      mol.bundle == BundleHash(xof, secret) && mol.molecularHash == HashBase17(xof, dump, old(mol.atoms))
    ensures old(mol.atoms) != [] ==>
      match SigningKey(xof, old(mol.atoms), secret, old(mol.SigningOtsVersion()))
      case Err(e) => r == Err(e) && mol.atoms == old(mol.atoms)
      case Ok(key) =>
        && mol.atoms == SignedAtoms(xof, dump, old(mol.atoms), key, true)
        && var checked := ClientError(CheckVerdict(xof, dump, fl, mol.atoms, mol.molecularHash));
           r == if checkBeforeSend && checked.Err? then Err(checked.error)
                else Written(mol.View(), WalletOf(mol.sourceWallet))
  {
    hide *;
    var signed := mol.Sign(xof, dump, secret, false, true);
    if signed.Err? {
      return Err(signed.error);
    }
    if checkBeforeSend {
      var checked := mol.Check(xof, dump, fl);
      if ClientError(checked).Err? {
        return Err(ClientError(checked).error);
      }
    }
    WalletsErased(mol.View(), WalletOf(mol.sourceWallet), WalletOf(mol.remainderWallet));
    WrittenIs(mol.View(), WalletOf(mol.sourceWallet));
    var json := mol.ToJson();
    if json.Err? {
      return Err(json.error);
    }
    return Ok(JObj(Erase(Erase(json.value.fields, "sourceWallet"), "remainderWallet")));
  }

  lemma WrittenIs(v: MoleculeView, source: Option<WalletView>)
    ensures WrittenBalance(source).Err? ==> Written(v, source) == Err(WrittenBalance(source).error)
    ensures WrittenBalance(source).Ok? ==> Written(v, source) == Ok(Payload(v))
  {
  }

  /** What is sent can be read back if and only if every atom has a position, an address and an isotope, and then verify
      says of it what it says of the signed molecule. */
  lemma SentAndRead(xof: Xof, dump: Json -> string, fl: Floats, v: MoleculeView, made: int64, now: nat -> int64)
    requires !Versioned(v.atoms)
    ensures var back := MoleculeOfJson(dump, Payload(v), made, now);
            && (back.Ok? <==> AllNamed(v.atoms))
            && (back.Ok? ==> (Verifies(xof, dump, fl, back.value.atoms, back.value.molecularHash)
                              <==> Verifies(xof, dump, fl, v.atoms, v.molecularHash)))
  {
    MoleculeRoundTrip(dump, v, None, None, made, now);
    hide MoleculeOfJson, MoleculeFields, Verifies, Versioned, AllNamed;
    if AllNamed(v.atoms) {
      WireKeepsVerdict(xof, dump, fl, v, None, None, made, now);
    }
  }

  function ClientError(r: Result<()>): Result<()> {
    if r == Err(RuntimeFailure) then Err(KnishIOFailure) else r
  }

  /** What a failed check throws at the caller: a missing atom and a bad signature keep their kind, a hash that does not
      match and values that do not add up become a client error. */
  lemma ReportedErrors(xof: Xof, dump: Json -> string, fl: Floats, atoms: seq<Atom>, hash: string)
    ensures var check := CheckVerdict(xof, dump, fl, atoms, hash);
            var r := ClientError(check);
            && (r.Ok? <==> check.Ok?)
            && (r == Err(AtomsNotFound) <==> atoms == [] || !CarriesContinuId(atoms))
            && (forall e :: e in {SignatureMalformed, SignatureMismatch} ==> (r == Err(e) <==> check == Err(e)))
            && (r == Err(KnishIOFailure) <==> check == Err(RuntimeFailure))
  {
    CheckReports(xof, dump, fl, atoms, hash);
    if atoms != [] {
      OtsReports(xof, atoms, hash);
    }
    hide TokenIsotopeV, CarriesContinuId, HashMatches, OtsVerdict, Fragments, OtsHex;
  }

  /** The molecule of an operation: it signs with the source's version. */
  method Prepared(slug: string, created: int64, source: Wallet, remainder: Wallet) returns (mol: Molecule)
    ensures fresh(mol) && mol.atoms == [] && mol.SigningOtsVersion() == source.otsVersion
    ensures mol.sourceWallet == source && mol.remainderWallet == remainder
  {
    mol := new Molecule(slug, created);
    mol.sourceWallet := source;
    mol.remainderWallet := remainder;
  }

  /** From the builder's atoms to the verdict. */
  lemma BuiltIsSubmittable(xof: Xof, dump: Json -> string, fl: Floats, src: WalletView, atoms: seq<Atom>,
                           secret: string)
    requires BuiltFor(src, atoms) && OwnWallet(xof, src, secret) && AmountSum(atoms) == 0 && Indexed(atoms)
    requires TokenIsotopeV(fl, atoms, HashBase17(xof, dump, atoms)) == Ok(true)
    ensures var key := SigningKey(xof, atoms, secret, src.otsVersion);
            && key.Ok?
            && var signed, hash := SignedAtoms(xof, dump, atoms, key.value, true), HashBase17(xof, dump, atoms);
               && Verifies(xof, dump, fl, signed, hash) && AmountSum(signed) == 0 && Indexed(signed)
               && ClientError(CheckVerdict(xof, dump, fl, signed, hash)) == Verdict(src.token)
               && AllSameButFragment(atoms, signed)
  {
    BuiltAndSignedVerifies(xof, dump, fl, src, atoms, secret, true);
    var key := SigningKey(xof, atoms, secret, src.otsVersion).value;
    HashIsSignable(xof, dump, atoms);
    SignedKeepsAtoms(atoms, SignatureParts(xof, HashBase17(xof, dump, atoms), key, true, |atoms|));
    var signed := SignedAtoms(xof, dump, atoms, key, true);
    assert AllSameButFragment(atoms, signed);
    hide SignedAtoms, HashBase17, CheckVerdict, Verifies, TokenIsotopeV, WalletKey, Address, Amount;
    SumIgnoresFragments(atoms, signed);
    forall i | 0 <= i < |atoms|
      ensures signed[i].index == i
    {
      assert SameButFragment(atoms[i], signed[i]);
    }
  }

  lemma {:induction false} SumIgnoresFragments(xs: seq<Atom>, ys: seq<Atom>)
    requires AllSameButFragment(xs, ys)
    ensures AmountSum(xs) == AmountSum(ys)
  {
    if xs != [] {
      var t := |xs| - 1;
      SumIgnoresFragments(xs[..t], ys[..t]);
      assert SameButFragment(xs[t], ys[t]);
      SameFields(xs[t], ys[t]);
    }
  }

  /** These operations add no ContinuID atom, so the check before sending stops them for a USER wallet, and only then;
      what passes is sent unless the balance is beyond int. */
  function Outcome(v: MoleculeView, token: string, balance: int): Result<Json> {
    if token == "USER" then Err(AtomsNotFound)
    else if balance <= INT_MAX then Ok(Payload(v))
    else Err(OutOfRange)
  }

  function Verdict(token: string): Result<()> {
    if token == "USER" then Err(AtomsNotFound) else Ok(())
  }

  /** The verdict and the writing together. */
  lemma OutcomeIs(mol: Molecule, source: Wallet, balance: int)
    requires mol.sourceWallet == source && AmountText(source.balance, balance)
    ensures Outcome(mol.View(), source.token, balance)
         == if Verdict(source.token).Err? then Err(Verdict(source.token).error)
            else Written(mol.View(), WalletOf(mol.sourceWallet))
  {
    AmountTextMeaning(source.balance, balance);
    AmountNotEmpty(source.balance, balance);
    hide Payload, Parse, IntegerText, AmountText;
  }

  lemma AmountNotEmpty(s: string, n: int)
    requires AmountText(s, n)
    ensures s != ""
  {
    NatTextMeaning(n);
  }

  lemma PayableBalance(balance: string, texts: seq<string>, b: int, amounts: seq<int>)
    requires Payable(balance, texts, b, amounts)
    ensures AmountText(balance, b)
  {
  }

  lemma HashNotEmpty(xof: Xof, dump: Json -> string, atoms: seq<Atom>)
    ensures HashBase17(xof, dump, atoms) != ""
  {
    HashIsSignable(xof, dump, atoms);
  }

  /** transferToken: what it checked as long long is read as int by its builder, which throws beyond that range. */
  method Transfer(xof: Xof, dump: Json -> string, fl: Floats, secret: string, slug: string, created: int64,
                  source: Wallet, recipient: Wallet, remainder: Wallet, amount: string, now: nat -> int64, ghost b: int,
                  ghost v: int)
    returns (mol: Molecule, r: Result<Json>)
    requires ReadsIntegers(fl) && ExactAdd(fl) && OwnWallet(xof, source.View(), secret)
    requires AmountText(source.balance, b) && AmountText(amount, v)
    requires recipient.token == remainder.token == source.token
    ensures fresh(mol)
    ensures if b <= INT_MAX && v <= INT_MAX then
              && Submittable(mol, xof, dump, fl) && r == Outcome(mol.View(), source.token, b)
              && AllBook(mol.atoms, ValuesPostings(dump, source.View(), [recipient.View()], remainder.View(), b, [v]))
            else r == Err(OutOfRange)
    ensures b <= INT_MAX && v <= INT_MAX && source.address != recipient.address &&
            recipient.address != remainder.address && remainder.address != source.address ==>
              && AddressSum(mol.atoms, source.address) == -b && AddressSum(mol.atoms, recipient.address) == v
              && AddressSum(mol.atoms, remainder.address) == b - v
  {
    hide *;
    ghost var src, rec, rem := source.View(), recipient.View(), remainder.View();
    ViewIs(source);
    ViewIs(recipient);
    ViewIs(remainder);
    ghost var change := Change32(src.balance, amount);
    ghost var atoms := ValueAtoms(dump, src, rec, rem, amount, if change.Ok? then change.value else 0, now);
    HashNotEmpty(xof, dump, atoms);
    ValueAccepted(fl, dump, src, rec, rem, amount, b, v, now, HashBase17(xof, dump, atoms));
    ghost var ps := ValuesPostings(dump, src, [rec], rem, b, [v]);
    ValueBooks(dump, src, rec, rem, amount, b, v, now);
    mol := Prepared(slug, created, source, remainder);
    var built := mol.InitValue(dump, source, recipient, remainder, amount, now);
    if built.Err? {
      return mol, Err(built.error);
    }
    assert [] + atoms == atoms;
    BuiltIsSubmittable(xof, dump, fl, src, atoms, secret);
    BuiltIsNotEmpty(src, atoms);
    r := Submit(mol, xof, dump, fl, secret, true);
    IsSubmittable(mol, xof, dump, fl);
    OutcomeIs(mol, source, b);
    BooksKept(atoms, mol.atoms, ps);
    if source.address != recipient.address && recipient.address != remainder.address &&
       remainder.address != source.address {
      ThreeAddresses(dump, mol.atoms, src, rec, rem, b, v);
    }
  }

  /** initValue books the entries of a transfer to one recipient. */
  lemma ValueBooks(dump: Json -> string, src: WalletView, rec: WalletView, rem: WalletView, amount: string, b: int,
                   v: int, now: nat -> int64)
    requires AmountText(src.balance, b) && AmountText(amount, v)
    ensures Change32(src.balance, amount).Ok? ==>
      AllBook(ValueAtoms(dump, src, rec, rem, amount, Change32(src.balance, amount).value, now),
              ValuesPostings(dump, src, [rec], rem, b, [v]))
  {
    ValueChange(src.balance, amount, b, v);
    TotalOfOne(v);
    AmountBound(amount, v);
    OneRecipientValues(dump, src, rec, rem, amount, b - v, now);
    hide AllBook, ValuesPostings, ValueAtoms, ValuesAtoms, AmountText, Change32, Total;
    ValuesBook(dump, src, [rec], [amount], rem, b, [v], now);
  }

  lemma ViewIs(w: Wallet)
    ensures w.View() ==
            WalletView(w.position, w.token, w.address, w.balance, w.batchId, w.bundle, w.tokenUnits, w.otsVersion)
  {
  }

  lemma IsSubmittable(mol: Molecule, xof: Xof, dump: Json -> string, fl: Floats)
    requires Verifies(xof, dump, fl, mol.atoms, mol.molecularHash) && AmountSum(mol.atoms) == 0 && Indexed(mol.atoms)
    ensures Submittable(mol, xof, dump, fl)
  {
  }

  /** transferTokens: any number of recipients. */
  method TransferMany(xof: Xof, dump: Json -> string, fl: Floats, secret: string, slug: string, created: int64,
                      source: Wallet, recipients: seq<Wallet>, amounts: seq<string>, remainder: Wallet,
                      now: nat -> int64, ghost b: int, ghost values: seq<int>)
    returns (mol: Molecule, r: Result<Json>)
    requires ReadsIntegers(fl) && ExactAdd(fl) && OwnWallet(xof, source.View(), secret)
    requires |recipients| <= |amounts| && |recipients| + 2 <= INT_MAX
    requires Payable(source.balance, amounts[..|recipients|], b, values)
    requires remainder.token == source.token
    requires forall i :: 0 <= i < |recipients| ==> recipients[i].token == source.token
    ensures fresh(mol) && Submittable(mol, xof, dump, fl) && r == Outcome(mol.View(), source.token, b)
    ensures AllBook(mol.atoms,
                    ValuesPostings(dump, source.View(), WalletViews(recipients), remainder.View(), b, values))
  {
    hide *;
    ghost var src, recs, rem := source.View(), WalletViews(recipients), remainder.View();
    ViewIs(source);
    ViewIs(remainder);
    ViewsAre(recipients);
    PaidCount(src.balance, amounts[..|recs|], b, values);
    ghost var ps := ValuesPostings(dump, src, recs, rem, b, values);
    ManyBook(dump, src, recs, amounts, rem, b, values, now);
    PayableBalance(source.balance, amounts[..|recipients|], b, values);
    ghost var change := PayoutOf(src.balance, amounts[..|recs|]).change;
    ghost var atoms := ValuesAtoms(dump, src, recs, amounts, rem, if change.Ok? then change.value else 0, now);
    HashNotEmpty(xof, dump, atoms);
    ValuesAccepted(fl, dump, src, recs, amounts, rem, b, values, now, HashBase17(xof, dump, atoms));
    BuiltIsSubmittable(xof, dump, fl, src, atoms, secret);
    mol := Prepared(slug, created, source, remainder);
    var built := mol.InitValues(dump, source, recipients, amounts, remainder, now);
    assert [] + atoms == atoms;
    BuiltIsNotEmpty(src, atoms);
    r := Submit(mol, xof, dump, fl, secret, true);
    IsSubmittable(mol, xof, dump, fl);
    OutcomeIs(mol, source, b);
    BooksKept(atoms, mol.atoms, ps);
  }

  /** One amount for each recipient. */
  lemma PaidCount(balance: string, texts: seq<string>, b: int, values: seq<int>)
    requires Payable(balance, texts, b, values)
    ensures |values| == |texts|
  {
  }

  /** initValues and initWithdrawBuffer book their entries with the change they compute. */
  lemma ManyBook(dump: Json -> string, src: WalletView, recs: seq<WalletView>, amounts: seq<string>, rem: WalletView,
                 b: int, values: seq<int>, now: nat -> int64)
    requires |recs| <= |amounts| && Payable(src.balance, amounts[..|recs|], b, values) && |values| == |recs|
    ensures PayoutOf(src.balance, amounts[..|recs|]).change.Ok?
    ensures var change := PayoutOf(src.balance, amounts[..|recs|]).change.value;
            && AllBook(ValuesAtoms(dump, src, recs, amounts, rem, change, now),
                       ValuesPostings(dump, src, recs, rem, b, values))
            && AllBook(WithdrawAtoms(dump, src, recs, amounts, rem, change, now),
                       WithdrawPostings(dump, src, recs, rem, b, values))
  {
    hide *;
    var paid := amounts[..|recs|];
    PayoutCanonical(src.balance, paid, b, values);
    OnlyPaid(dump, src, recs, amounts, rem, b - Total(values, |values|), now);
    ValuesBook(dump, src, recs, paid, rem, b, values, now);
    WithdrawBooks(dump, src, recs, paid, rem, b, values, now);
  }

  lemma ViewsAre(ws: seq<Wallet>)
    ensures forall i :: 0 <= i < |ws| ==> WalletViews(ws)[i] == ws[i].View() && WalletViews(ws)[i].token == ws[i].token
  {
  }

  /** depositBufferToken */
  method DepositBuffer(xof: Xof, dump: Json -> string, fl: Floats, secret: string, slug: string, created: int64,
                       source: Wallet, buffer: Wallet, remainder: Wallet, amount: string,
                       tradeRates: seq<(string, string)>, now: nat -> int64, ghost b: int, ghost v: int)
    returns (mol: Molecule, r: Result<Json>)
    requires ReadsIntegers(fl) && ExactAdd(fl) && OwnWallet(xof, source.View(), secret)
    requires AmountText(source.balance, b) && AmountText(amount, v) && source.bundle != ""
    ensures fresh(mol) && Submittable(mol, xof, dump, fl) && r == Outcome(mol.View(), source.token, b)
    ensures AllBook(mol.atoms,
                    DepositPostings(dump, source.View(), buffer.View(), remainder.View(), tradeRates, b, v))
  {
    hide *;
    ghost var src, buf, rem := source.View(), buffer.View(), remainder.View();
    ViewIs(source);
    ghost var ps := DepositPostings(dump, src, buf, rem, tradeRates, b, v);
    ValueChange(src.balance, amount, b, v);
    DepositBooks(dump, src, buf, rem, amount, tradeRates, b, v, now);
    ghost var change := Change64(src.balance, amount);
    ghost var atoms := DepositAtoms(dump, src, buf, rem, amount, tradeRates,
                                    if change.Ok? then change.value else 0, now);
    HashNotEmpty(xof, dump, atoms);
    DepositAccepted(fl, dump, src, buf, rem, amount, tradeRates, b, v, now, HashBase17(xof, dump, atoms));
    BuiltIsSubmittable(xof, dump, fl, src, atoms, secret);
    mol := Prepared(slug, created, source, remainder);
    var built := mol.InitDepositBuffer(dump, source, buffer, remainder, amount, tradeRates, now);
    assert [] + atoms == atoms;
    BuiltIsNotEmpty(src, atoms);
    r := Submit(mol, xof, dump, fl, secret, true);
    IsSubmittable(mol, xof, dump, fl);
    OutcomeIs(mol, source, b);
    BooksKept(atoms, mol.atoms, ps);
  }

  /** withdrawBufferToken, for any number of recipients. */
  method WithdrawBuffer(xof: Xof, dump: Json -> string, fl: Floats, secret: string, slug: string, created: int64,
                        source: Wallet, recipients: seq<Wallet>, amounts: seq<string>, remainder: Wallet,
                        now: nat -> int64, ghost b: int, ghost values: seq<int>)
    returns (mol: Molecule, r: Result<Json>)
    requires ReadsIntegers(fl) && ExactAdd(fl) && OwnWallet(xof, source.View(), secret)
    requires |recipients| <= |amounts| && |recipients| + 2 <= INT_MAX
    requires Payable(source.balance, amounts[..|recipients|], b, values)
    requires source.bundle != "" && remainder.bundle != ""
    ensures fresh(mol) && Submittable(mol, xof, dump, fl) && r == Outcome(mol.View(), source.token, b)
    ensures AllBook(mol.atoms,
                    WithdrawPostings(dump, source.View(), WalletViews(recipients), remainder.View(), b, values))
  {
    hide *;
    ghost var src, recs, rem := source.View(), WalletViews(recipients), remainder.View();
    ViewIs(source);
    ViewIs(remainder);
    PaidCount(src.balance, amounts[..|recs|], b, values);
    ghost var ps := WithdrawPostings(dump, src, recs, rem, b, values);
    ManyBook(dump, src, recs, amounts, rem, b, values, now);
    PayableBalance(source.balance, amounts[..|recipients|], b, values);
    ghost var change := PayoutOf(src.balance, amounts[..|recs|]).change;
    ghost var atoms := WithdrawAtoms(dump, src, recs, amounts, rem, if change.Ok? then change.value else 0, now);
    HashNotEmpty(xof, dump, atoms);
    WithdrawAccepted(fl, dump, src, recs, amounts, rem, b, values, now, HashBase17(xof, dump, atoms));
    BuiltIsSubmittable(xof, dump, fl, src, atoms, secret);
    mol := Prepared(slug, created, source, remainder);
    var built := mol.InitWithdrawBuffer(dump, source, recipients, amounts, remainder, now);
    assert [] + atoms == atoms;
    BuiltIsNotEmpty(src, atoms);
    r := Submit(mol, xof, dump, fl, secret, true);
    IsSubmittable(mol, xof, dump, fl);
    OutcomeIs(mol, source, b);
    BooksKept(atoms, mol.atoms, ps);
  }

  /** fuseToken: a molecule comes out exactly when the builder's own checks pass. */
  method FuseToken(xof: Xof, dump: Json -> string, fl: Floats, secret: string, slug: string, created: int64,
                   source: Wallet, recipient: Wallet, remainder: Wallet, ids: seq<string>, newId: string,
                   newBatch: nat -> string, now: nat -> int64, ghost b: int)
    returns (mol: Molecule, r: Result<Json>)
    requires ReadsIntegers(fl) && ExactAdd(fl) && OwnWallet(xof, source.View(), secret)
    requires AmountText(source.balance, b) && |ids| <= EXACT && recipient.bundle != ""
    ensures fresh(mol)
    ensures match FusionPlan(source.View(), ids, newId)
            case Err(e) => r == Err(e) && mol.atoms == []
            case Ok((fused, _)) =>
              && Submittable(mol, xof, dump, fl) && r == Outcome(mol.View(), source.token, b)
              && AllBook(mol.atoms, FusionPostings(dump, source.View(), recipient.View(), remainder.View(), ids, newId,
                                                   fused, b, newBatch))
  {
    hide *;
    ghost var src, rec, rem := source.View(), recipient.View(), remainder.View();
    ViewIs(source);
    ViewIs(recipient);
    ghost var plan := FusionPlan(src, ids, newId);
    mol := Prepared(slug, created, source, remainder);
    ghost var atoms: seq<Atom> := [];
    ghost var ps: seq<Posting> := [];
    if plan.Ok? {
      ghost var (fused, balance) := plan.value;
      atoms := FusionAtoms(dump, src, rec, rem, ids, newId, fused, balance, newBatch, now);
      ps := FusionPostings(dump, src, rec, rem, ids, newId, fused, b, newBatch);
      PlannedBalance(src, ids, newId, b);
      FusionBooks(dump, src, rec, rem, ids, newId, fused, b, newBatch, now);
      HashNotEmpty(xof, dump, atoms);
      FusionAccepted(fl, dump, src, rec, rem, ids, newId, b, newBatch, now, HashBase17(xof, dump, atoms));
      BuiltIsSubmittable(xof, dump, fl, src, atoms, secret);
      BuiltIsNotEmpty(src, atoms);
      assert [] + atoms == atoms;
    }
    var built := mol.InitTokenFusion(dump, source, recipient, remainder, ids, newId, newBatch, now);
    if built.Err? {
      return mol, Err(built.error);
    }
    r := Submit(mol, xof, dump, fl, secret, true);
    IsSubmittable(mol, xof, dump, fl);
    OutcomeIs(mol, source, b);
    BooksKept(atoms, mol.atoms, ps);
  }
}
