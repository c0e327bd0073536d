/** The molecule object: builders that push atoms, signing, and the verifiers, each tied to the function that specifies
    it. */
module Molecule {
  import opened Common
  import opened Hex
  import opened Base64
  import opened Decimal
  import opened Json
  import opened Chunks
  import opened Base17
  import opened Normalize
  import opened Ots
  import opened Atom
  import opened AtomHash
  import opened Wallet
  import opened Conservation
  import opened Builders
  import opened Signing
  import opened Verification
  import opened Wire
  import opened WireMolecule

  function WalletViews(ws: seq<Wallet>): (vs: seq<WalletView>)
    reads ws
    ensures |vs| == |ws|
  {
    seq(|ws|, i requires 0 <= i < |ws| reads ws => ws[i].View())
  }

  function WalletOf(w: Wallet?): Option<WalletView>
    reads w
  {
    if w == null then None else Some(w.View())
  }

  class Molecule {
    var molecularHash: string
    var cellSlug: string
    var bundle: string
    var status: string
    var atoms: seq<Atom>
    var createdAt: int64
    var sourceWallet: Wallet?
    var remainderWallet: Wallet?

    constructor (slug: string, now: int64)
      ensures molecularHash == "" && cellSlug == slug && bundle == "" && status == "" && atoms == [] && createdAt == now
      ensures sourceWallet == null && remainderWallet == null
    {
      molecularHash, cellSlug, bundle, status, atoms, createdAt := "", slug, "", "", [], now;
      sourceWallet, remainderWallet := null, null;
    }

    function View(): MoleculeView
      reads this
    {
      MoleculeView(molecularHash, cellSlug, bundle, status, atoms, createdAt)
    }

    // ----- builders

    /** Balance and value are read as int only after two atoms have been pushed; now(k) is the clock when atom k is
        made. The difference must be an int. */
    method InitValue(dump: Json -> string, source: Wallet, recipient: Wallet, remainder: Wallet, value: string,
                     now: nat -> int64)
      returns (r: Result<seq<Atom>>)
      requires Change32(source.balance, value).Ok? ==> INT_MIN <= Change32(source.balance, value).value <= INT_MAX
      modifies this`molecularHash, this`atoms
      ensures molecularHash == ""
      ensures match Change32(source.balance, value)
              case Ok(change) =>
                && atoms == old(atoms)
                            + ValueAtoms(dump, source.View(), recipient.View(), remainder.View(), value, change, now)
                && r == Ok(atoms)
              case Err(e) =>
                && atoms == old(atoms)
                            + ValueAtoms(dump, source.View(), recipient.View(), remainder.View(), value, 0, now)[..2]
                && r == Err(e)
    {
      hide ToString, UnitsMeta, Stoi;
      molecularHash := "";
      atoms := atoms + [Debit(source.View(), "V", "", "", UnitsMeta(dump, source.tokenUnits), now(0))];
      atoms := atoms + [Credit(recipient.View(), "V", recipient.token, value, recipient.bundle,
                               UnitsMeta(dump, recipient.tokenUnits), now(1), 1)];
      var balanceRead := Stoi(source.balance);
      if balanceRead.Err? {
        return Err(balanceRead.error);
      }
      var valueRead := Stoi(value);
      if valueRead.Err? {
        return Err(valueRead.error);
      }
      var remainderAmount: int32 := balanceRead.value - valueRead.value;
      atoms := atoms + [Credit(remainder.View(), "V", remainder.token, ToString(remainderAmount), remainder.bundle,
                               UnitsMeta(dump, remainder.tokenUnits), now(2), 2)];
      return Ok(atoms);
    }

    /** The recipient loop of initValues and, with a token given, of initWithdrawBuffer: every amount is read, added up
        and credited in turn, until one does not read. The index counts the atoms pushed. */
    method PushRecipients(dump: Json -> string, recipients: seq<Wallet>, amounts: seq<string>,
                          withdrawn: Option<string>, now: nat -> int64)
      returns (r: Result<int>)
      requires |recipients| <= |amounts| && TotalsFit(amounts[..|recipients|])
      modifies this`atoms
      ensures var texts := amounts[..|recipients|];
              var n := Readable(texts);
              && atoms == old(atoms) + RecipientAtoms(dump, WalletViews(recipients), amounts, withdrawn, n, now)
              && (n == |texts| ==> r == Ok(TotalOf(texts)))
              && (n < |texts| ==> Stoll(texts[n]).Err? && r == Err(Stoll(texts[n]).error))
    {
      hide UnitsMeta, Stoll, Cast32, TotalOf, Readable, Credit;
      ghost var views := WalletViews(recipients);
      ghost var texts := amounts[..|recipients|];
      var total: int64 := 0;
      var index := 1;
      NothingRead();
      assert texts[..0] == [];
      for i := 0 to |recipients|
        invariant index == i + 1 && views == WalletViews(recipients)
        invariant Readable(texts[..i]) == i && total == TotalOf(texts[..i])
        invariant atoms == old(atoms) + RecipientAtoms(dump, views, amounts, withdrawn, i, now)
      {
        ReadableStep(texts, i);
        var read := Stoll(amounts[i]);
        if read.Err? {
          ReadableStops(texts, i);
          return Err(read.error);
        }
        assert LONG_MIN <= TotalOf(texts[..i + 1]) <= LONG_MAX;
        total := total + read.value;
        RecipientNext(dump, views, amounts, withdrawn, i, now);
        atoms := atoms + [Credit(recipients[i].View(), "V",
                                 if withdrawn.Some? then withdrawn.value else recipients[i].token, amounts[i],
                                 recipients[i].bundle,
                                 if withdrawn.Some? then [] else UnitsMeta(dump, recipients[i].tokenUnits),
                                 now(i + 1), IndexOf(index))];
        index := index + 1;
      }
      assert texts[..|recipients|] == texts;
      return Ok(total);
    }

    /** One atom per recipient, so there must be an amount for each. An amount that does not read stops the builder with
        the atoms of the recipients before it already pushed; a balance that does not read stops it after all of
        them. */
    method InitValues(dump: Json -> string, source: Wallet, recipients: seq<Wallet>, amounts: seq<string>,
                      remainder: Wallet, now: nat -> int64)
      returns (r: Result<seq<Atom>>)
      requires |recipients| <= |amounts| && TotalsFit(amounts[..|recipients|])
      requires var p := PayoutOf(source.balance, amounts[..|recipients|]);
               p.change.Ok? ==> LONG_MIN <= p.change.value <= LONG_MAX
      modifies this`molecularHash, this`atoms
      ensures molecularHash == ""
      ensures var p := PayoutOf(source.balance, amounts[..|recipients|]);
              match p.change
              case Ok(change) =>
                && atoms == old(atoms)
                            + ValuesAtoms(dump, source.View(), WalletViews(recipients), amounts, remainder.View(),
                                          change, now)
                && r == Ok(atoms)
              case Err(e) =>
                && atoms == old(atoms) + [Debit(source.View(), "V", "", "", UnitsMeta(dump, source.tokenUnits), now(0))]
                            + RecipientAtoms(dump, WalletViews(recipients), amounts, None, p.pushed, now)
                && r == Err(e)
    {
      hide ToString, UnitsMeta, Stoll, Cast32, TotalOf, Readable, Credit, Debit, RecipientAtoms, TotalsFit, PayoutOf;
      PayoutIs(source.balance, amounts[..|recipients|]);
      molecularHash := "";
      atoms := atoms + [Debit(source.View(), "V", "", "", UnitsMeta(dump, source.tokenUnits), now(0))];
      var total := PushRecipients(dump, recipients, amounts, None, now);
      if total.Err? {
        return Err(total.error);
      }
      var balanceRead := Stoll(source.balance);
      if balanceRead.Err? {
        return Err(balanceRead.error);
      }
      var remainderAmount: int64 := balanceRead.value - total.value;
      atoms := atoms + [Credit(remainder.View(), "V", remainder.token, ToString(remainderAmount), remainder.bundle,
                               UnitsMeta(dump, remainder.tokenUnits), now(|recipients| + 1),
                               IndexOf(|recipients| + 1))];
      return Ok(atoms);
    }

    /** Balance and amount are read as long long only after two atoms have been pushed. */
    method InitDepositBuffer(dump: Json -> string, source: Wallet, buffer: Wallet, remainder: Wallet, amount: string,
                             tradeRates: seq<(string, string)>, now: nat -> int64)
      returns (r: Result<seq<Atom>>)
      requires Change64(source.balance, amount).Ok? ==> LONG_MIN <= Change64(source.balance, amount).value <= LONG_MAX
      modifies this`molecularHash, this`atoms
      ensures molecularHash == ""
      ensures match Change64(source.balance, amount)
              case Ok(change) =>
                && atoms == old(atoms)
                            + DepositAtoms(dump, source.View(), buffer.View(), remainder.View(), amount, tradeRates,
                                           change, now)
                && r == Ok(atoms)
              case Err(e) =>
                && atoms == old(atoms)
                            + DepositAtoms(dump, source.View(), buffer.View(), remainder.View(), amount, tradeRates,
                                           0, now)[..2]
                && r == Err(e)
    {
      hide ToString, RatesObject, Stoll;
      molecularHash := "";
      atoms := atoms + [Debit(source.View(), "V", "", "", [], now(0))];
      var bufferMeta := [];
      if tradeRates != [] {
        var rates := CollectRates(tradeRates);
        bufferMeta := bufferMeta + [("tradeRates", dump(JObj(rates)))];
      }
      assert bufferMeta == RatesMeta(dump, tradeRates);
      hide RatesMeta;
      atoms := atoms + [Credit(buffer.View(), "B", buffer.token, amount, source.bundle, bufferMeta, now(1), 1)];
      var balanceRead := Stoll(source.balance);
      if balanceRead.Err? {
        return Err(balanceRead.error);
      }
      var amountRead := Stoll(amount);
      if amountRead.Err? {
        return Err(amountRead.error);
      }
      var remainderAmount: int64 := balanceRead.value - amountRead.value;
      atoms := atoms + [Credit(remainder.View(), "V", remainder.token, ToString(remainderAmount), source.bundle, [],
                               now(2), 2)];
      return Ok(atoms);
    }

    /** As InitValues, with the source's token for every recipient and no units for them. */
    method InitWithdrawBuffer(dump: Json -> string, source: Wallet, recipients: seq<Wallet>, amounts: seq<string>,
                              remainder: Wallet, now: nat -> int64)
      returns (r: Result<seq<Atom>>)
      requires |recipients| <= |amounts| && TotalsFit(amounts[..|recipients|])
      requires var p := PayoutOf(source.balance, amounts[..|recipients|]);
               p.change.Ok? ==> LONG_MIN <= p.change.value <= LONG_MAX
      modifies this`molecularHash, this`atoms
      ensures molecularHash == ""
      ensures var p := PayoutOf(source.balance, amounts[..|recipients|]);
              match p.change
              case Ok(change) =>
                && atoms == old(atoms)
                            + WithdrawAtoms(dump, source.View(), WalletViews(recipients), amounts, remainder.View(),
                                            change, now)
                && r == Ok(atoms)
              case Err(e) =>
                && atoms == old(atoms)
                            + [Debit(source.View(), "B", "walletBundle", source.bundle,
                                     UnitsMeta(dump, source.tokenUnits), now(0))]
                            + RecipientAtoms(dump, WalletViews(recipients), amounts, Some(source.token), p.pushed, now)
                && r == Err(e)
    {
      hide ToString, UnitsMeta, Stoll, Cast32, TotalOf, Readable, Credit, Debit, RecipientAtoms, TotalsFit, PayoutOf;
      PayoutIs(source.balance, amounts[..|recipients|]);
      molecularHash := "";
      atoms := atoms + [Debit(source.View(), "B", "walletBundle", source.bundle, UnitsMeta(dump, source.tokenUnits),
                              now(0))];
      var total := PushRecipients(dump, recipients, amounts, Some(source.token), now);
      if total.Err? {
        return Err(total.error);
      }
      var balanceRead := Stoll(source.balance);
      if balanceRead.Err? {
        return Err(balanceRead.error);
      }
      var remainderAmount: int64 := balanceRead.value - total.value;
      atoms := atoms + [Credit(remainder.View(), "B", remainder.token, ToString(remainderAmount), remainder.bundle, [],
                               now(|recipients| + 1), IndexOf(|recipients| + 1))];
      return Ok(atoms);
    }

    /** What initTokenFusion checks and reads before it changes anything. */
    static method PlanFusion(source: Wallet, ids: seq<string>, newId: string)
      returns (r: Result<(seq<TokenUnit>, int64)>)
      ensures r == FusionPlan(source.View(), ids, newId)
    {
      hide Stoll, Resolve, FindUnit;
      if |ids| < 2 {
        return Err(KnishIOFailure);
      }
      var resolved := ResolveUnits(source.tokenUnits, ids);
      if resolved.Err? {
        return Err(resolved.error);
      }
      if FindUnit(source.tokenUnits, newId).Some? {
        return Err(KnishIOFailure);
      }
      var balanceRead := Stoll(source.balance);
      if balanceRead.Err? {
        return Err(balanceRead.error);
      }
      return Ok((resolved.value, balanceRead.value));
    }

    /** Nothing changes unless all checks pass. newBatch supplies the random batch ids. */
    method InitTokenFusion(dump: Json -> string, source: Wallet, recipient: Wallet, remainder: Wallet, ids: seq<string>,
                           newId: string, newBatch: nat -> string, now: nat -> int64)
      returns (r: Result<seq<Atom>>)
      requires var p := FusionPlan(source.View(), ids, newId); p.Ok? ==> p.value.1 - |ids| >= LONG_MIN
      modifies this`molecularHash, this`atoms
      ensures match FusionPlan(source.View(), ids, newId)
              case Err(e) => r == Err(e) && molecularHash == old(molecularHash) && atoms == old(atoms)
              case Ok((fused, balance)) =>
                && molecularHash == ""
                && atoms == old(atoms)
                            + FusionAtoms(dump, source.View(), recipient.View(), remainder.View(), ids, newId, fused,
                                          balance, newBatch, now)
                && r == Ok(atoms)
    {
      hide ToString, UnitsMeta, FusionMeta, FusionPlan, Listed, Unlisted, Debit, NewAtom, UnitTriples;
      var plan := PlanFusion(source, ids, newId);
      if plan.Err? {
        return Err(plan.error);
      }
      var fused, balance := plan.value.0, plan.value.1;
      var sent, kept := Partition(source.tokenUnits, ids);
      var burned := fused[..|fused| - 1];
      var change: int64 := balance - |fused|;
      var batched := source.batchId != "";
      molecularHash := "";
      atoms := atoms + [Debit(source.View(), "V", "", "", UnitsMeta(dump, sent), now(0))];
      atoms := atoms + [NewAtom("", "", "V", source.token, ToString(|fused| - 1), if batched then newBatch(0) else "",
                                "walletBundle", ZERO_BUNDLE, UnitsMeta(dump, burned), now(1), 1)];
      atoms := atoms + [NewAtom(recipient.position, recipient.address, "F", source.token, "1",
                                if batched then newBatch(1) else "", "walletBundle", recipient.bundle,
                                FusionMeta(dump, fused, newId), now(2), 2)];
      atoms := atoms + [NewAtom(remainder.position, remainder.address, "V", source.token, ToString(change),
                                source.batchId, "walletBundle", source.bundle, UnitsMeta(dump, kept), now(3), 3)];
      ghost var made := FusionAtoms(dump, source.View(), recipient.View(), remainder.View(), ids, newId, fused, balance,
                                    newBatch, now);
      FourMore(old(atoms), made[0], made[1], made[2], made[3]);
      return Ok(atoms);
    }

    // ----- signing

    function SigningOtsVersion(): int
      reads this`sourceWallet, sourceWallet
    {
      if sourceWallet != null then sourceWallet.otsVersion else 1
    }

    /** Bundle and hash are written before the key is derived, so they stay written when that fails. The result is the
        position of the last atom that got a fragment. */
    method Sign(xof: Xof, dump: Json -> string, secret: string, anonymous: bool, compressed: bool)
      returns (r: Result<string>)
      modifies this`bundle, this`molecularHash, this`atoms
      ensures old(atoms) == [] ==>
           r == Err(AtomsNotFound) && atoms == [] && bundle == old(bundle) && molecularHash == old(molecularHash)
      ensures old(atoms) != [] ==> bundle == if anonymous then old(bundle) else BundleHash(xof, secret)
      ensures old(atoms) != [] ==> molecularHash == HashBase17(xof, dump, old(atoms)) && Signable(molecularHash)
      ensures old(atoms) != [] ==>
        match SigningKey(xof, old(atoms), secret, old(SigningOtsVersion()))
        case Err(e) => r == Err(e) && atoms == old(atoms)
        case Ok(key) =>
          && atoms == SignedAtoms(xof, dump, old(atoms), key, compressed)
          && r == Ok(old(atoms)[|SignatureParts(xof, molecularHash, key, compressed, |old(atoms)|)| - 1].position)
    {
      hide *;
      if atoms == [] {
        return Err(AtomsNotFound);
      }
      if !anonymous {
        bundle := BundleHash(xof, secret);
      }
      ghost var before := atoms;
      molecularHash := HashAtomsBase17(xof, dump, atoms);
      HashIsSignable(xof, dump, atoms);
      var signable := IsSignableHash(molecularHash);
      if !signable {
        assert false;
      }
      var keyResult := SigningKey(xof, atoms, secret, SigningOtsVersion());
      if keyResult.Err? {
        return Err(keyResult.error);
      }
      var chunkedSignature := SignatureChunks(xof, molecularHash, keyResult.value, compressed, |atoms|);
      var lastPosition := "";
      NothingFragmented(before, chunkedSignature);
      for chunkCount := 0 to |chunkedSignature|
        invariant atoms == Fragmented(before, chunkedSignature[..chunkCount])
        invariant chunkCount > 0 ==> lastPosition == before[chunkCount - 1].position
        invariant molecularHash == HashBase17(xof, dump, before)
        invariant bundle == if anonymous then old(bundle) else BundleHash(xof, secret)
      {
        FragmentNext(before, chunkedSignature, chunkCount);
        atoms := atoms[chunkCount := atoms[chunkCount].(otsFragment := chunkedSignature[chunkCount])];
        lastPosition := atoms[chunkCount].position;
      }
      assert chunkedSignature[..|chunkedSignature|] == chunkedSignature;
      SignedAtomsAre(xof, dump, before, keyResult.value, compressed);
      return Ok(lastPosition);
    }

    // ----- verification

    method VerifyMolecularHash(xof: Xof, dump: Json -> string) returns (ok: bool)
      ensures ok == HashMatches(xof, dump, atoms, molecularHash)
    {
      hide HashBase17;
      if atoms != [] && molecularHash != "" {
        var atomicHash := HashAtomsBase17(xof, dump, atoms);
        return atomicHash == molecularHash;
      }
      return false;
    }

    method VerifyOts(xof: Xof) returns (r: Result<()>)
      ensures r == OtsVerdict(xof, atoms, molecularHash)
    {
      hide Strict, Pieces, Signable, RecoveredAddress, Symbols64;
      if atoms == [] {
        return Err(AtomsNotFound);
      }
      var signable := IsSignableHash(molecularHash);
      if !signable {
        return Err(SignatureMalformed);
      }
      var norm := NormalizedHash(molecularHash);
      var ots := "";
      for i := 0 to |atoms|
        invariant ots == Fragments(atoms[..i])
      {
        assert atoms[..i + 1][..i] == atoms[..i];
        ots := ots + atoms[i].otsFragment;
      }
      assert atoms[..|atoms|] == atoms;
      if |ots| != 2048 && |ots| != 8192 {
        var strict := IsStrictBase64(ots);
        if !strict {
          return Err(SignatureMalformed);
        }
        var bytes := FromBase64(ots);
        ots := ToHexString(bytes);
      }
      if |ots| != 2048 && |ots| != 8192 {
        return Err(SignatureMalformed);
      }
      OtsPieces(ots);
      var address := RunVerificationChains(xof, ots, norm);
      if address != atoms[0].walletAddress {
        return Err(SignatureMismatch);
      }
      return Ok(());
    }

    /** All three checks run, whatever the first ones say. */
    method Verify(xof: Xof, dump: Json -> string, fl: Floats) returns (ok: bool)
      ensures ok == Verifies(xof, dump, fl, atoms, molecularHash)
    {
      hide HashMatches, TokenIsotopeV, OtsVerdict;
      var hashValid := VerifyMolecularHash(xof, dump);
      var token := VerifyTokenIsotopeV(fl, atoms, molecularHash);
      var ots := VerifyOts(xof);
      assert ots.Ok? ==> ots.value == ();
      return hashValid && token == Ok(true) && ots.Ok?;
    }

    method VerifyContinuId() returns (ok: bool)
      ensures ok == CarriesContinuId(atoms)
    {
      if atoms == [] || atoms[0].token != "USER" {
        return true;
      }
      for i := 0 to |atoms|
        invariant forall j :: 0 <= j < i ==> atoms[j].isotope != "I"
      {
        if atoms[i].isotope == "I" {
          return true;
        }
      }
      return false;
    }

    method Check(xof: Xof, dump: Json -> string, fl: Floats) returns (r: Result<()>)
      ensures r == CheckVerdict(xof, dump, fl, atoms, molecularHash)
    {
      hide HashMatches, TokenIsotopeV, OtsVerdict, CarriesContinuId;
      if atoms == [] {
        return Err(AtomsNotFound);
      }
      var continuId := VerifyContinuId();
      if !continuId {
        return Err(AtomsNotFound);
      }
      var hashValid := VerifyMolecularHash(xof, dump);
      if !hashValid {
        return Err(RuntimeFailure);
      }
      var ots := VerifyOts(xof);
      if ots.Err? {
        return ots;
      }
      var token := VerifyTokenIsotopeV(fl, atoms, molecularHash);
      if token != Ok(true) {
        return Err(RuntimeFailure);
      }
      return Ok(());
    }

    // ----- JSON

    /** The JSON value that is printed; a source balance that is no int throws. */
    method ToJson() returns (r: Result<Json>)
      ensures r == MoleculeJson(View(), WalletOf(sourceWallet), WalletOf(remainderWallet))
    {
      hide FieldsAround, ToString, Stoi, MetaJson;
      var items: seq<Json> := [];
      for i := 0 to |atoms|
        invariant items == AtomsJson(atoms)[..i]
      {
        var meta := WriteMeta(atoms[i].meta);
        var item := JObj(FieldsAround(atoms[i], meta));
        assert AtomsJson(atoms)[..i + 1] == AtomsJson(atoms)[..i] + [AtomsJson(atoms)[i]];
        items := items + [item];
      }
      assert AtomsJson(atoms)[..|atoms|] == AtomsJson(atoms);
      hide AtomsJson;
      var fields := [("atoms", JArr(items)), ("bundle", JStr(bundle)), ("cellSlug", NullableText(cellSlug)),
                     ("createdAt", JStr(ToString(createdAt))), ("molecularHash", JStr(molecularHash))];
      var balance: int := 0;
      ghost var head := fields;
      if remainderWallet != null {
        fields := fields + [("remainderWallet", WalletJson(remainderWallet.View(), 0))];
      }
      ghost var rem :=
        if remainderWallet == null then [] else [("remainderWallet", WalletJson(remainderWallet.View(), 0))];
      assert fields == head + rem;
      if sourceWallet != null {
        if sourceWallet.balance != "" {
          var read := Stoi(sourceWallet.balance);
          if read.Err? {
            return Err(read.error);
          }
          balance := read.value;
        }
        fields := fields + [("sourceWallet", WalletJson(sourceWallet.View(), balance))];
      }
      assert fields == head + rem
          + if sourceWallet == null then [] else [("sourceWallet", WalletJson(sourceWallet.View(), balance))];
      return Ok(JObj(fields + [("status", NullableText(status))]));
    }

    /** A new molecule from a JSON value; a molecule read back has no wallets. */
    static method JsonToObject(dump: Json -> string, json: Json, made: int64, now: nat -> int64)
      returns (r: Result<Molecule>)
      ensures match MoleculeOfJson(dump, json, made, now)
              case Err(e) => r == Err(e)
              case Ok(v) =>
                && r.Ok? && fresh(r.value) && r.value.View() == v
                && r.value.sourceWallet == null && r.value.remainderWallet == null
    {
      hide Find, AtomsOfJson, Strtoll, Elements;
      var molecule := new Molecule("", made);
      var text := TextField(json, "molecularHash");
      if text.Err? {
        return Err(text.error);
      }
      molecule.molecularHash := text.value;
      text := NullableField(json, "cellSlug");
      if text.Err? {
        return Err(text.error);
      }
      molecule.cellSlug := text.value;
      text := TextField(json, "bundle");
      if text.Err? {
        return Err(text.error);
      }
      molecule.bundle := text.value;
      text := NullableField(json, "status");
      if text.Err? {
        return Err(text.error);
      }
      molecule.status := text.value;
      var atoms := ReadAtoms(dump, AtomsField(json), now);
      if atoms.Err? {
        return Err(atoms.error);
      }
      molecule.atoms := atoms.value;
      var created := MoleculeCreated(json, made);
      if created.Err? {
        return Err(created.error);
      }
      molecule.createdAt := created.value;
      return Ok(molecule);
    }
  }

  // ----- the loops of the builders and of signing

  lemma FourMore(atoms: seq<Atom>, a: Atom, b: Atom, c: Atom, d: Atom)
    ensures atoms + [a] + [b] + [c] + [d] == atoms + [a, b, c, d]
  {
  }

  lemma RecipientNext(dump: Json -> string, views: seq<WalletView>, amounts: seq<string>, withdrawn: Option<string>,
                      i: nat, now: nat -> int64)
    requires i < |views| && i < |amounts|
    ensures RecipientAtoms(dump, views, amounts, withdrawn, i + 1, now)
         == RecipientAtoms(dump, views, amounts, withdrawn, i, now)
            + [Credit(views[i], "V", if withdrawn.Some? then withdrawn.value else views[i].token, amounts[i],
                      views[i].bundle, if withdrawn.Some? then [] else UnitsMeta(dump, views[i].tokenUnits), now(i + 1),
                      IndexOf(i + 1))]
  {
    hide UnitsMeta, Cast32;
  }

  /** Assigning the rates one by one to a JSON object. */
  method CollectRates(tradeRates: seq<(string, string)>) returns (rates: seq<(string, Json)>)
    ensures rates == RatesObject(tradeRates)
  {
    hide Put;
    rates := [];
    for i := 0 to |tradeRates|
      invariant rates == RatesObject(tradeRates[..i])
    {
      assert tradeRates[..i + 1][..i] == tradeRates[..i];
      rates := Put(rates, tradeRates[i].0, JStr(tradeRates[i].1));
    }
    assert tradeRates[..|tradeRates|] == tradeRates;
  }

  /** Looking up every id; the first one without a unit stops the loop. */
  method ResolveUnits(units: seq<TokenUnit>, ids: seq<string>) returns (r: Result<seq<TokenUnit>>)
    ensures r == Resolve(units, ids)
  {
    var fused := [];
    for i := 0 to |ids|
      invariant Resolve(units, ids[..i]) == Ok(fused)
    {
      assert ids[..i + 1][..i] == ids[..i];
      var unit := FindUnit(units, ids[i]);
      if unit.None? {
        UnresolvedPrefix(units, ids, i + 1);
        return Err(KnishIOFailure);
      }
      fused := fused + [unit.value];
    }
    assert ids[..|ids|] == ids;
    return Ok(fused);
  }

  lemma {:induction false} UnresolvedPrefix(units: seq<TokenUnit>, ids: seq<string>, n: nat)
    requires n <= |ids| && Resolve(units, ids[..n]).Err?
    ensures Resolve(units, ids) == Resolve(units, ids[..n])
    decreases |ids|
  {
    if n < |ids| {
      var t := |ids| - 1;
      assert ids[..t][..n] == ids[..n];
      UnresolvedPrefix(units, ids[..t], n);
    } else {
      assert ids[..n] == ids;
    }
  }

  method Partition(units: seq<TokenUnit>, ids: seq<string>) returns (sent: seq<TokenUnit>, kept: seq<TokenUnit>)
    ensures sent == Listed(units, ids) && kept == Unlisted(units, ids)
  {
    sent, kept := [], [];
    for i := 0 to |units|
      invariant sent == Listed(units[..i], ids) && kept == Unlisted(units[..i], ids)
    {
      assert units[..i + 1][..i] == units[..i];
      if units[i].id in ids {
        sent := sent + [units[i]];
      } else {
        kept := kept + [units[i]];
      }
    }
    assert units[..|units|] == units;
  }

  /** enumerate, then normalize. */
  method NormalizedHash(hash: string) returns (norm: seq<int8>)
    requires Signable(hash)
    ensures norm == Symbols64(hash)
  {
    var enumerated := Enumerate(hash);
    norm := Normalize.Normalize(enumerated);
  }

  method RunSignatureChains(xof: Xof, key: string, norm: seq<int8>) returns (signature: string)
    requires InRange(norm) && |Pieces(key, 128)| <= |norm|
    ensures signature == SignatureHex(xof, key, norm)
  {
    var keyChunks := ChunkSubstr(key, 128);
    signature := "";
    ghost var ends := Advance(xof, keyChunks, SignSteps(norm));
    for index := 0 to |keyChunks|
      invariant signature == Concat(ends[..index])
    {
      var workingChunk := RunChain(xof, keyChunks[index], 8 - norm[index] as int);
      ConcatSnoc(ends[..index], workingChunk);
      assert ends[..index] + [workingChunk] == ends[..index + 1];
      signature := signature + workingChunk;
    }
    assert ends[..|keyChunks|] == ends;
  }

  method RunVerificationChains(xof: Xof, ots: string, norm: seq<int8>) returns (address: string)
    requires InRange(norm) && |Pieces(ots, 128)| <= |norm|
    ensures address == RecoveredAddress(xof, ots, norm)
  {
    var otsChunks := ChunkSubstr(ots, 128);
    var keyFragments := "";
    ghost var ends := Advance(xof, otsChunks, VerifySteps(norm));
    for index := 0 to |otsChunks|
      invariant keyFragments == Concat(ends[..index])
    {
      var workingChunk := RunChain(xof, otsChunks[index], 8 + norm[index] as int);
      ConcatSnoc(ends[..index], workingChunk);
      assert ends[..index] + [workingChunk] == ends[..index + 1];
      keyFragments := keyFragments + workingChunk;
    }
    assert ends[..|otsChunks|] == ends;
    return AddressOfEnds(xof, keyFragments);
  }

  /** The signature of a hash, cut into at most n chunks. */
  method SignatureChunks(xof: Xof, hash: string, key: string, compressed: bool, n: nat) returns (chunks: seq<string>)
    requires Signable(hash) && IsKey(key) && n > 0
    ensures chunks == SignatureParts(xof, hash, key, compressed, n)
  {
    hide Symbols64, SignatureHex, Pieces, Signable, CeilDiv, AllHex, LowerHex;
    var norm := NormalizedHash(hash);
    KeyPieces(key);
    var signatureFragments := RunSignatureChains(xof, key, norm);
    assert signatureFragments == KeySignature(xof, hash, key);
    if compressed {
      LowerIsHex(signatureFragments);
      var bytes := FromHexString(signatureFragments);
      signatureFragments := ToBase64(bytes.value);
    }
    assert signatureFragments == SignatureText(xof, hash, key, compressed);
    FragmentsFit(signatureFragments, n);
    var chunkSize := CeilDiv(|signatureFragments|, n);
    chunks := ChunkSubstr(signatureFragments, chunkSize);
  }

  lemma NothingFragmented(atoms: seq<Atom>, parts: seq<string>)
    ensures Fragmented(atoms, parts[..0]) == atoms
  {
  }

  lemma SignedAtomsAre(xof: Xof, dump: Json -> string, atoms: seq<Atom>, key: string, compressed: bool)
    requires atoms != [] && IsKey(key) && Signable(HashBase17(xof, dump, atoms))
    ensures SignedAtoms(xof, dump, atoms, key, compressed)
         == Fragmented(atoms, SignatureParts(xof, HashBase17(xof, dump, atoms), key, compressed, |atoms|))
  {
  }

  lemma FragmentNext(atoms: seq<Atom>, parts: seq<string>, i: nat)
    requires i < |parts| <= |atoms|
    ensures var before := Fragmented(atoms, parts[..i]);
            && Fragmented(atoms, parts[..i + 1]) == before[i := before[i].(otsFragment := parts[i])]
            && before[i] == atoms[i]
  {
  }
}
