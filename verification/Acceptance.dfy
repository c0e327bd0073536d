/** Built molecules conserve value and are accepted, for any number of recipients. */
module Acceptance {
  import opened Common
  import opened Decimal
  import opened Json
  import opened Atom
  import opened Wallet
  import opened Conservation
  import opened Builders

  /** The sums of all prefixes are held exactly by a double. */
  predicate PartialSumsExact(atoms: seq<Atom>) {
    forall n :: 0 <= n <= |atoms| ==> -EXACT <= AmountSum(atoms[..n]) <= EXACT
  }

  predicate IntegerValues(atoms: seq<Atom>) {
    forall i :: 0 <= i < |atoms| ==> IntegerText(atoms[i].value)
  }

  /** Only V atoms of one token. */
  predicate PlainTransfer(atoms: seq<Atom>, token: string) {
    atoms != [] && forall i :: 0 <= i < |atoms| ==> atoms[i].isotope == "V" && atoms[i].token == token
  }

  /** V, B and F atoms, at least one B or F, with the meta shape the check demands and no negative F value. */
  predicate CrossTransfer(atoms: seq<Atom>) {
    && HasCross(atoms)
    && forall i :: 0 <= i < |atoms| ==>
         && atoms[i].isotope in {"V", "B", "F"}
         && (IsCross(atoms[i]) ==> atoms[i].metaType == "walletBundle" && atoms[i].metaId != "")
         && (atoms[i].isotope == "F" ==> Amount(atoms[i]) >= 0)
  }

  lemma {:induction false} PlainSum(fl: Floats, atoms: seq<Atom>, token: string, n: nat)
    requires ReadsIntegers(fl) && ExactAdd(fl) && n <= |atoms| && PlainTransfer(atoms, token) && IntegerValues(atoms)
    requires PartialSumsExact(atoms)
    ensures FloatSum(fl, VValues(atoms[..n], token)) == Some(Real(AmountSum(atoms[..n])))
  {
    hide FloatSum, VValues, IntegerText, AmountSum, Amount, Real, ExactAdd, ReadsIntegers;
    if n == 0 {
      assert atoms[..0] == [];
      NothingSums(fl, token);
    } else {
      PlainSum(fl, atoms, token, n - 1);
      VValuesStep(atoms, n - 1, token);
      FloatSumStep(fl, VValues(atoms[..n - 1], token), atoms[n - 1].value);
      assert atoms[..n] == atoms[..n - 1] + [atoms[n - 1]];
      AmountSumSnoc(atoms[..n - 1], atoms[n - 1]);
      AmountReads(fl, atoms[n - 1]);
      AddIntegers(fl, AmountSum(atoms[..n - 1]), Amount(atoms[n - 1]));
    }
  }

  lemma NothingSums(fl: Floats, token: string)
    ensures FloatSum(fl, VValues([], token)) == Some(Real(AmountSum([])))
  {
  }

  lemma AmountReads(fl: Floats, a: Atom)
    requires ReadsIntegers(fl) && IntegerText(a.value)
    ensures fl.strtod(a.value) == fl.stold(a.value) == Some(Real(Amount(a)))
    ensures -EXACT <= Amount(a) <= EXACT
  {
    IntegerReads(fl, a.value);
  }

  /** The addition of two exactly held integers. */
  lemma AddIntegers(fl: Floats, x: int, y: int)
    requires ExactAdd(fl) && -EXACT <= x <= EXACT && -EXACT <= y <= EXACT && -EXACT <= x + y <= EXACT
    ensures fl.add(Real(x), Real(y)) == Real(x + y)
  {
    assert Exact(x) && Exact(y) && Exact(x + y);
  }

  /** A transfer of one token with integer values passes the check exactly when the values sum to zero. */
  lemma PlainVerdict(fl: Floats, atoms: seq<Atom>, token: string, hash: string)
    requires ReadsIntegers(fl) && ExactAdd(fl) && hash != "" && PlainTransfer(atoms, token) && IntegerValues(atoms)
    requires PartialSumsExact(atoms)
    ensures TokenIsotopeV(fl, atoms, hash) == Ok(true) <==> AmountSum(atoms) == 0
  {
    VCheckMeaning(fl, atoms, hash);
    PlainSum(fl, atoms, token, |atoms|);
    assert atoms[..|atoms|] == atoms;
    assert Heads(atoms, 0);
    ZeroSum(AmountSum(atoms));
    assert Balanced(fl, atoms, 0) <==> AmountSum(atoms) == 0;
    assert forall i :: 0 < i < |atoms| ==> !Heads(atoms, i) by {
      assert atoms[0].token == token;
    }
  }

  lemma {:induction false} CrossSumExact(fl: Floats, atoms: seq<Atom>, n: nat)
    requires ReadsIntegers(fl) && ExactAdd(fl) && n <= |atoms| && CrossTransfer(atoms) && IntegerValues(atoms)
    requires PartialSumsExact(atoms)
    ensures CrossSum(fl, atoms[..n]) == Real(AmountSum(atoms[..n]))
  {
    hide CrossSum, AmountSum, IntegerText, Amount, ExactAdd, ReadsIntegers, Real;
    if n == 0 {
      assert atoms[..0] == [];
      NothingCrosses(fl);
    } else {
      CrossSumExact(fl, atoms, n - 1);
      var t, a := atoms[..n - 1], atoms[n - 1];
      assert atoms[..n] == t + [a];
      AmountSumSnoc(t, a);
      CrossSumSnoc(fl, t, a);
      AmountReads(fl, a);
      AddIntegers(fl, AmountSum(t), Amount(a));
      IntegerNotEmpty(a.value);
    }
  }

  lemma NothingCrosses(fl: Floats)
    ensures CrossSum(fl, []) == Real(AmountSum([]))
  {
  }

  lemma CrossSumSnoc(fl: Floats, t: seq<Atom>, a: Atom)
    ensures CrossSum(fl, t + [a]) ==
         if Participates(a) then fl.add(CrossSum(fl, t), Parsed(fl.stold(a.value))) else CrossSum(fl, t)
  {
    assert (t + [a])[..|t|] == t;
  }

  lemma IntegerNotEmpty(s: string)
    requires IntegerText(s)
    ensures s != ""
  {
  }

  /** A buffer or fusion molecule with integer values passes the check exactly when the values sum to zero. */
  lemma CrossVerdict(fl: Floats, atoms: seq<Atom>, hash: string)
    requires ReadsIntegers(fl) && ExactAdd(fl) && hash != "" && CrossTransfer(atoms) && IntegerValues(atoms)
    requires PartialSumsExact(atoms)
    ensures TokenIsotopeV(fl, atoms, hash) == Ok(true) <==> AmountSum(atoms) == 0
  {
    hide CrossSum, AmountSum, IntegerText;
    CrossSumExact(fl, atoms, |atoms|);
    assert atoms[..|atoms|] == atoms;
    forall i | 0 <= i < |atoms|
      ensures CrossWellFormed(fl, atoms[i])
    {
      IntegerReads(fl, atoms[i].value);
    }
    assert Real(AmountSum(atoms)).IsTiny() <==> AmountSum(atoms) == 0;
  }

  // ----- the builders

  /** A canonical non-negative decimal amount in the exact range. */
  predicate AmountText(s: string, n: int) {
    0 <= n <= EXACT && s == NatText(n)
  }

  /** The total of the first n amounts. */
  function Total(amounts: seq<int>, n: nat): int
    requires n <= |amounts|
  {
    if n == 0 then 0 else Total(amounts, n - 1) + amounts[n - 1]
  }

  /** The texts are the canonical forms of the amounts. */
  predicate AmountTexts(texts: seq<string>, amounts: seq<int>) {
    |texts| == |amounts| && forall i :: 0 <= i < |texts| ==> AmountText(texts[i], amounts[i])
  }

  lemma AmountTextMeaning(s: string, n: int)
    requires AmountText(s, n)
    ensures Parse(s) == Some(n) && Parse("-" + s) == Some(-n) && IntegerText(s) && IntegerText("-" + s)
    ensures Stoll(s) == Ok(n) && (n <= INT_MAX ==> Stoi(s) == Ok(n))
  {
    NatTextMeaning(n);
    ParseDigits(NatText(n));
  }

  lemma {:induction false} TotalGrows(amounts: seq<int>, n: nat, m: nat)
    requires n <= m <= |amounts| && forall i :: 0 <= i < |amounts| ==> amounts[i] >= 0
    ensures 0 <= Total(amounts, n) <= Total(amounts, m)
    decreases m
  {
    if m > 0 {
      TotalGrows(amounts, if n == m then n - 1 else n, m - 1);
    }
  }

  /** Canonical amounts all read, and the builders' running total is theirs. */
  lemma {:induction false} CanonicalReads(texts: seq<string>, amounts: seq<int>, n: nat)
    requires AmountTexts(texts, amounts) && n <= |texts|
    ensures Readable(texts[..n]) == n && TotalOf(texts[..n]) == Total(amounts, n)
  {
    hide Readable, TotalOf, AmountText, Stoll;
    if n == 0 {
      assert texts[..0] == [];
      NothingRead();
      TotalZero(amounts);
    } else {
      CanonicalReads(texts, amounts, n - 1);
      ReadableStep(texts, n - 1);
      AmountTextMeaning(texts[n - 1], amounts[n - 1]);
    }
  }

  /** What initValues and initWithdrawBuffer compute for a payable list: no running total overflows, all recipients are
      served, and the change is the balance less the total. */
  lemma PayoutCanonical(balance: string, texts: seq<string>, b: int, amounts: seq<int>)
    requires Payable(balance, texts, b, amounts)
    ensures TotalsFit(texts)
    ensures PayoutOf(balance, texts) == Payout(|texts|, Ok(b - Total(amounts, |amounts|)))
    ensures LONG_MIN <= b - Total(amounts, |amounts|) <= LONG_MAX
  {
    hide Readable, TotalOf, AmountText, Stoll, PayoutOf, Total;
    forall i | 0 <= i < |amounts|
      ensures amounts[i] >= 0
    {
      AmountBound(texts[i], amounts[i]);
    }
    forall n: nat | n <= |texts|
      ensures Readable(texts[..n]) == n && LONG_MIN <= TotalOf(texts[..n]) <= LONG_MAX
    {
      CanonicalReads(texts, amounts, n);
      TotalGrows(amounts, n, |amounts|);
    }
    CanonicalReads(texts, amounts, |texts|);
    assert texts[..|texts|] == texts;
    AmountTextMeaning(balance, b);
    AmountBound(balance, b);
    PayoutIs(balance, texts);
    TotalGrows(amounts, |amounts|, |amounts|);
  }

  /** A debit of b, credits of the amounts, and a credit of what is left over. */
  ghost predicate Drains(atoms: seq<Atom>, b: int, amounts: seq<int>) {
    && |atoms| == |amounts| + 2
    && Amount(atoms[0]) == -b
    && (forall i :: 0 <= i < |amounts| ==> Amount(atoms[i + 1]) == amounts[i])
    && Amount(atoms[|amounts| + 1]) == b - Total(amounts, |amounts|)
  }

  lemma {:induction false} DrainPrefix(atoms: seq<Atom>, b: int, amounts: seq<int>, n: nat)
    requires Drains(atoms, b, amounts) && n <= |amounts|
    ensures AmountSum(atoms[..n + 1]) == Total(amounts, n) - b
  {
    assert atoms[..n + 1] == atoms[..n] + [atoms[n]];
    AmountSumSnoc(atoms[..n], atoms[n]);
    if n > 0 {
      DrainPrefix(atoms, b, amounts, n - 1);
    } else {
      assert atoms[..0] == [];
    }
  }

  lemma NoAmount()
    ensures AmountSum([]) == 0
  {
  }

  /** Such a molecule sums to zero, and all its partial sums are exact when balance and total are. */
  lemma DrainConserves(atoms: seq<Atom>, b: int, amounts: seq<int>)
    requires Drains(atoms, b, amounts) && 0 <= b <= EXACT && Total(amounts, |amounts|) <= EXACT
    requires forall i :: 0 <= i < |amounts| ==> amounts[i] >= 0
    ensures AmountSum(atoms) == 0 && PartialSumsExact(atoms)
  {
    hide AmountSum, Total, Amount;
    var k := |amounts|;
    assert atoms == atoms[..k + 1] + [atoms[k + 1]];
    AmountSumSnoc(atoms[..k + 1], atoms[k + 1]);
    DrainPrefix(atoms, b, amounts, k);
    forall n | 0 <= n <= |atoms|
      ensures -EXACT <= AmountSum(atoms[..n]) <= EXACT
    {
      if n == 0 {
        assert atoms[..0] == [];
        NoAmount();
      } else if n <= k + 1 {
        DrainPrefix(atoms, b, amounts, n - 1);
        TotalGrows(amounts, n - 1, k);
      } else {
        assert atoms[..n] == atoms;
      }
    }
  }

  /** Every atom's index is its position. */
  predicate Indexed(atoms: seq<Atom>) {
    forall i :: 0 <= i < |atoms| ==> atoms[i].index == i
  }

  lemma Change(b: int, t: int)
    requires 0 <= b <= EXACT && 0 <= t <= EXACT
    ensures IntegerText(ToString(b - t)) && Parse(ToString(b - t)) == Some(b - t)
  {
    ToStringIsInteger(b - t);
  }

  /** Balance and amounts of a transfer: canonical, and exact in total. */
  ghost predicate Payable(balance: string, texts: seq<string>, b: int, amounts: seq<int>) {
    AmountText(balance, b) && AmountTexts(texts, amounts) && Total(amounts, |amounts|) <= EXACT
  }

  /** Atoms that debit the balance, credit the amounts in order and credit the change. */
  predicate Pays(atoms: seq<Atom>, balance: string, texts: seq<string>, change: int) {
    && |atoms| == |texts| + 2
    && atoms[0].value == "-" + balance
    && (forall i :: 0 <= i < |texts| ==> atoms[i + 1].value == texts[i])
    && atoms[|texts| + 1].value == ToString(change)
  }

  lemma PaysConserves(atoms: seq<Atom>, balance: string, texts: seq<string>, b: int, amounts: seq<int>)
    requires Payable(balance, texts, b, amounts) && Pays(atoms, balance, texts, b - Total(amounts, |amounts|))
    ensures AmountSum(atoms) == 0 && PartialSumsExact(atoms) && IntegerValues(atoms)
  {
    hide IntegerText, AmountText, Parse, ToString, AmountSum, Total;
    AmountTextMeaning(balance, b);
    AmountBound(balance, b);
    forall i | 0 <= i < |texts|
      ensures Amount(atoms[i + 1]) == amounts[i] && IntegerText(atoms[i + 1].value) && amounts[i] >= 0
    {
      AmountTextMeaning(texts[i], amounts[i]);
      AmountBound(texts[i], amounts[i]);
    }
    TotalGrows(amounts, 0, |amounts|);
    TotalZero(amounts);
    Change(b, Total(amounts, |amounts|));
    assert Drains(atoms, b, amounts);
    DrainConserves(atoms, b, amounts);
    forall i | 0 <= i < |atoms|
      ensures IntegerText(atoms[i].value)
    {
      if 0 < i <= |texts| {
        var j := i - 1;
        assert amounts[j] >= 0 && atoms[i] == atoms[j + 1];
      }
    }
  }

  lemma TotalZero(amounts: seq<int>)
    ensures Total(amounts, 0) == 0
  {
  }

  lemma SmallIndex(k: int)
    requires 0 <= k <= INT_MAX
    ensures Cast32(k) == k
  {
  }

  /** Atoms as a builder leaves them for a source wallet: the first one is the source's, none is signed, and none is a
      ContinuID atom. */
  predicate BuiltFor(src: WalletView, atoms: seq<Atom>) {
    && atoms != []
    && atoms[0].walletAddress == src.address && atoms[0].token == src.token && atoms[0].position == src.position
    && forall i :: 0 <= i < |atoms| ==> atoms[i].otsFragment == "" && atoms[i].isotope != "I"
  }

  /** What the checks read of atom i of a transfer by initValues. */
  lemma ValuesAtom(dump: Json -> string, src: WalletView, recs: seq<WalletView>, texts: seq<string>, rem: WalletView,
                   change: int, now: nat -> int64, i: nat)
    requires |recs| == |texts| && |recs| + 2 <= INT_MAX && i < |recs| + 2
    ensures |ValuesAtoms(dump, src, recs, texts, rem, change, now)| == |recs| + 2
    ensures ValuesAtoms(dump, src, recs, texts, rem, change, now)[i].isotope == "V"
    ensures ValuesAtoms(dump, src, recs, texts, rem, change, now)[i].index == i
    ensures ValuesAtoms(dump, src, recs, texts, rem, change, now)[i].token
         == if i == 0 then src.token else if i <= |recs| then recs[i - 1].token else rem.token
    ensures ValuesAtoms(dump, src, recs, texts, rem, change, now)[i].value
         == if i == 0 then "-" + src.balance else if i <= |recs| then texts[i - 1] else ToString(change)
  {
    hide UnitsMeta, ToString, Cast32;
    SmallIndex(i);
    var middle := RecipientAtoms(dump, recs, texts, None, |recs|, now);
    if 0 < i <= |recs| {
      assert ValuesAtoms(dump, src, recs, texts, rem, change, now)[i] == middle[i - 1];
    }
  }

  lemma ValuesShape(dump: Json -> string, src: WalletView, recs: seq<WalletView>, texts: seq<string>, rem: WalletView,
                    change: int, now: nat -> int64)
    requires |recs| == |texts| && |recs| + 2 <= INT_MAX
    requires rem.token == src.token && forall i :: 0 <= i < |recs| ==> recs[i].token == src.token
    ensures var atoms := ValuesAtoms(dump, src, recs, texts, rem, change, now);
            Pays(atoms, src.balance, texts, change) && PlainTransfer(atoms, src.token) && Indexed(atoms)
  {
    hide ValuesAtoms, ToString;
    var atoms := ValuesAtoms(dump, src, recs, texts, rem, change, now);
    ValuesAtom(dump, src, recs, texts, rem, change, now, 0);
    ValuesAtom(dump, src, recs, texts, rem, change, now, |recs| + 1);
    forall i: nat | i < |atoms|
      ensures atoms[i].isotope == "V" && atoms[i].token == src.token && atoms[i].index == i
    {
      ValuesAtom(dump, src, recs, texts, rem, change, now, i);
    }
    forall i: nat | i < |texts|
      ensures atoms[i + 1].value == texts[i]
    {
      ValuesAtom(dump, src, recs, texts, rem, change, now, i + 1);
    }
  }

  lemma ValuesBuilt(dump: Json -> string, src: WalletView, recs: seq<WalletView>, texts: seq<string>, rem: WalletView,
                    change: int, now: nat -> int64)
    requires |recs| <= |texts|
    ensures BuiltFor(src, ValuesAtoms(dump, src, recs, texts, rem, change, now))
  {
    hide UnitsMeta, ToString, Cast32;
  }

  /** Amounts without a recipient are ignored. */
  lemma OnlyPaid(dump: Json -> string, src: WalletView, recs: seq<WalletView>, texts: seq<string>, rem: WalletView,
                 change: int, now: nat -> int64)
    requires |recs| <= |texts|
    ensures ValuesAtoms(dump, src, recs, texts, rem, change, now)
         == ValuesAtoms(dump, src, recs, texts[..|recs|], rem, change, now)
    ensures WithdrawAtoms(dump, src, recs, texts, rem, change, now)
         == WithdrawAtoms(dump, src, recs, texts[..|recs|], rem, change, now)
  {
    hide UnitsMeta, ToString, Credit, Debit;
    assert RecipientAtoms(dump, recs, texts, None, |recs|, now)
        == RecipientAtoms(dump, recs, texts[..|recs|], None, |recs|, now);
    assert RecipientAtoms(dump, recs, texts, Some(src.token), |recs|, now)
        == RecipientAtoms(dump, recs, texts[..|recs|], Some(src.token), |recs|, now);
  }

  /** initValues, any number of recipients of one token: it computes its change, and what it appends conserves, is
      indexed in order and passes the check. */
  lemma ValuesAccepted(fl: Floats, dump: Json -> string, src: WalletView, recs: seq<WalletView>, texts: seq<string>,
                       rem: WalletView, b: int, amounts: seq<int>, now: nat -> int64, hash: string)
    requires ReadsIntegers(fl) && ExactAdd(fl) && hash != ""
    requires |recs| <= |texts| && |recs| + 2 <= INT_MAX && Payable(src.balance, texts[..|recs|], b, amounts)
    requires rem.token == src.token && forall i :: 0 <= i < |recs| ==> recs[i].token == src.token
    ensures TotalsFit(texts[..|recs|])
    ensures var change := PayoutOf(src.balance, texts[..|recs|]).change;
            && change.Ok? && LONG_MIN <= change.value <= LONG_MAX
            && var atoms := ValuesAtoms(dump, src, recs, texts, rem, change.value, now);
               && AmountSum(atoms) == 0 && Indexed(atoms) && BuiltFor(src, atoms)
               && TokenIsotopeV(fl, atoms, hash) == Ok(true)
  {
    hide *;
    var paid := texts[..|recs|];
    PayoutCanonical(src.balance, paid, b, amounts);
    var change := b - Total(amounts, |amounts|);
    var atoms := ValuesAtoms(dump, src, recs, paid, rem, change, now);
    OnlyPaid(dump, src, recs, texts, rem, change, now);
    ValuesBuilt(dump, src, recs, texts, rem, change, now);
    ValuesShape(dump, src, recs, paid, rem, change, now);
    PaysConserves(atoms, src.balance, paid, b, amounts);
    PlainVerdict(fl, atoms, src.token, hash);
  }

  lemma AmountBound(s: string, n: int)
    requires AmountText(s, n)
    ensures 0 <= n <= EXACT
  {
  }

  /** initValue reads with std::stoi: it computes its change exactly when balance and value are ints. */
  lemma ValueChange(balance: string, value: string, b: int, v: int)
    requires AmountText(balance, b) && AmountText(value, v)
    ensures Change32(balance, value).Ok? <==> b <= INT_MAX && v <= INT_MAX
    ensures Change32(balance, value).Err? ==> Change32(balance, value) == Err(OutOfRange)
    ensures Change32(balance, value).Ok? ==> Change32(balance, value) == Ok(b - v) && INT_MIN <= b - v <= INT_MAX
    ensures Change64(balance, value) == Ok(b - v) && LONG_MIN <= b - v <= LONG_MAX
  {
    hide AmountText, Parse, ToString, Strtoll;
    AmountTextMeaning(balance, b);
    AmountTextMeaning(value, v);
    AmountBound(balance, b);
    AmountBound(value, v);
  }

  /** initValue: whenever it computes its change, what it appends conserves, is indexed in order and passes the
      check. */
  lemma ValueAccepted(fl: Floats, dump: Json -> string, src: WalletView, rec: WalletView, rem: WalletView,
                      value: string, b: int, v: int, now: nat -> int64, hash: string)
    requires ReadsIntegers(fl) && ExactAdd(fl) && hash != ""
    requires AmountText(src.balance, b) && AmountText(value, v)
    requires rem.token == rec.token == src.token
    ensures var change := Change32(src.balance, value);
            && (change.Ok? <==> b <= INT_MAX && v <= INT_MAX)
            && (change.Err? ==> change == Err(OutOfRange))
            && (change.Ok? ==>
                  && INT_MIN <= change.value <= INT_MAX
                  && var atoms := ValueAtoms(dump, src, rec, rem, value, change.value, now);
                     && AmountSum(atoms) == 0 && Indexed(atoms) && BuiltFor(src, atoms)
                     && TokenIsotopeV(fl, atoms, hash) == Ok(true))
  {
    hide AmountText, TokenIsotopeV, AmountSum, IntegerText, ToString, UnitsMeta, Change32, Change64, Total;
    ValueChange(src.balance, value, b, v);
    var atoms := ValueAtoms(dump, src, rec, rem, value, b - v, now);
    OnePayable(src.balance, value, b, v);
    assert Pays(atoms, src.balance, [value], b - v);
    PaysConserves(atoms, src.balance, [value], b, [v]);
    PlainVerdict(fl, atoms, src.token, hash);
  }

  lemma OnePayable(balance: string, value: string, b: int, v: int)
    requires AmountText(balance, b) && AmountText(value, v)
    ensures Payable(balance, [value], b, [v]) && Total([v], |[v]|) == v
  {
    AmountBound(value, v);
    assert Total([v], 0) == 0 && Total([v], 1) == v;
    hide AmountText;
  }

  /** initDepositBuffer; the source must have a bundle. */
  lemma DepositAccepted(fl: Floats, dump: Json -> string, src: WalletView, buf: WalletView, rem: WalletView,
                        amount: string, rates: seq<(string, string)>, b: int, v: int, now: nat -> int64, hash: string)
    requires ReadsIntegers(fl) && ExactAdd(fl) && hash != ""
    requires AmountText(src.balance, b) && AmountText(amount, v) && src.bundle != ""
    ensures var change := Change64(src.balance, amount);
            && change.Ok? && LONG_MIN <= change.value <= LONG_MAX
            && var atoms := DepositAtoms(dump, src, buf, rem, amount, rates, change.value, now);
               && AmountSum(atoms) == 0 && Indexed(atoms) && BuiltFor(src, atoms)
               && TokenIsotopeV(fl, atoms, hash) == Ok(true)
  {
    hide AmountText, TokenIsotopeV, AmountSum, IntegerText, ToString, UnitsMeta, RatesMeta, Change32, Change64, Total;
    ValueChange(src.balance, amount, b, v);
    var atoms := DepositAtoms(dump, src, buf, rem, amount, rates, b - v, now);
    OnePayable(src.balance, amount, b, v);
    assert Pays(atoms, src.balance, [amount], b - v);
    PaysConserves(atoms, src.balance, [amount], b, [v]);
    assert IsCross(atoms[1]);
    CrossVerdict(fl, atoms, hash);
  }

  /** What the checks read of atom i of a withdrawal. */
  lemma WithdrawAtom(dump: Json -> string, src: WalletView, recs: seq<WalletView>, texts: seq<string>, rem: WalletView,
                     change: int, now: nat -> int64, i: nat)
    requires |recs| == |texts| && |recs| + 2 <= INT_MAX && i < |recs| + 2
    requires src.bundle != "" && rem.bundle != ""
    ensures |WithdrawAtoms(dump, src, recs, texts, rem, change, now)| == |recs| + 2
    ensures WithdrawAtoms(dump, src, recs, texts, rem, change, now)[i].isotope == if 0 < i <= |recs| then "V" else "B"
    ensures WithdrawAtoms(dump, src, recs, texts, rem, change, now)[i].index == i
    ensures WithdrawAtoms(dump, src, recs, texts, rem, change, now)[i].metaType == "walletBundle"
    ensures !(0 < i <= |recs|) ==> WithdrawAtoms(dump, src, recs, texts, rem, change, now)[i].metaId != ""
    ensures WithdrawAtoms(dump, src, recs, texts, rem, change, now)[i].value
         == if i == 0 then "-" + src.balance else if i <= |recs| then texts[i - 1] else ToString(change)
  {
    hide UnitsMeta, ToString, Cast32;
    SmallIndex(i);
    var middle := RecipientAtoms(dump, recs, texts, Some(src.token), |recs|, now);
    if 0 < i <= |recs| {
      assert WithdrawAtoms(dump, src, recs, texts, rem, change, now)[i] == middle[i - 1];
    }
  }

  lemma WithdrawPays(dump: Json -> string, src: WalletView, recs: seq<WalletView>, texts: seq<string>, rem: WalletView,
                     change: int, now: nat -> int64)
    requires |recs| == |texts| && |recs| + 2 <= INT_MAX && src.bundle != "" && rem.bundle != ""
    ensures Pays(WithdrawAtoms(dump, src, recs, texts, rem, change, now), src.balance, texts, change)
  {
    hide WithdrawAtoms, ToString;
    var atoms := WithdrawAtoms(dump, src, recs, texts, rem, change, now);
    WithdrawAtom(dump, src, recs, texts, rem, change, now, 0);
    WithdrawAtom(dump, src, recs, texts, rem, change, now, |recs| + 1);
    forall i: nat | i < |texts|
      ensures atoms[i + 1].value == texts[i]
    {
      WithdrawAtom(dump, src, recs, texts, rem, change, now, i + 1);
    }
  }

  /** A B or V atom with the meta shape of a walletBundle is fit for the cross check. */
  lemma WithdrawCrosses(dump: Json -> string, src: WalletView, recs: seq<WalletView>, texts: seq<string>,
                        rem: WalletView, change: int, now: nat -> int64)
    requires |recs| == |texts| && |recs| + 2 <= INT_MAX && src.bundle != "" && rem.bundle != ""
    ensures CrossTransfer(WithdrawAtoms(dump, src, recs, texts, rem, change, now))
    ensures Indexed(WithdrawAtoms(dump, src, recs, texts, rem, change, now))
  {
    hide WithdrawAtoms, ToString, Amount;
    var atoms := WithdrawAtoms(dump, src, recs, texts, rem, change, now);
    WithdrawAtom(dump, src, recs, texts, rem, change, now, 0);
    assert IsCross(atoms[0]);
    forall i: nat | i < |atoms|
      ensures atoms[i].isotope in {"V", "B"} && atoms[i].index == i
      ensures atoms[i].isotope == "B" ==> atoms[i].metaType == "walletBundle" && atoms[i].metaId != ""
    {
      WithdrawAtom(dump, src, recs, texts, rem, change, now, i);
    }
  }

  lemma WithdrawBuilt(dump: Json -> string, src: WalletView, recs: seq<WalletView>, texts: seq<string>, rem: WalletView,
                      change: int, now: nat -> int64)
    requires |recs| <= |texts|
    ensures BuiltFor(src, WithdrawAtoms(dump, src, recs, texts, rem, change, now))
  {
    hide UnitsMeta, ToString, Cast32;
  }

  /** initWithdrawBuffer, any number of recipients; source and remainder must have bundles. */
  lemma WithdrawAccepted(fl: Floats, dump: Json -> string, src: WalletView, recs: seq<WalletView>, texts: seq<string>,
                         rem: WalletView, b: int, amounts: seq<int>, now: nat -> int64, hash: string)
    requires ReadsIntegers(fl) && ExactAdd(fl) && hash != ""
    requires |recs| <= |texts| && |recs| + 2 <= INT_MAX && Payable(src.balance, texts[..|recs|], b, amounts)
    requires src.bundle != "" && rem.bundle != ""
    ensures TotalsFit(texts[..|recs|])
    ensures var change := PayoutOf(src.balance, texts[..|recs|]).change;
            && change.Ok? && LONG_MIN <= change.value <= LONG_MAX
            && var atoms := WithdrawAtoms(dump, src, recs, texts, rem, change.value, now);
               && AmountSum(atoms) == 0 && Indexed(atoms) && BuiltFor(src, atoms)
               && TokenIsotopeV(fl, atoms, hash) == Ok(true)
  {
    hide *;
    var paid := texts[..|recs|];
    PayoutCanonical(src.balance, paid, b, amounts);
    var change := b - Total(amounts, |amounts|);
    var atoms := WithdrawAtoms(dump, src, recs, paid, rem, change, now);
    OnlyPaid(dump, src, recs, texts, rem, change, now);
    WithdrawBuilt(dump, src, recs, texts, rem, change, now);
    WithdrawPays(dump, src, recs, paid, rem, change, now);
    WithdrawCrosses(dump, src, recs, paid, rem, change, now);
    PaysConserves(atoms, src.balance, paid, b, amounts);
    CrossVerdict(fl, atoms, hash);
  }

  lemma FusionShape(dump: Json -> string, src: WalletView, rec: WalletView, rem: WalletView, ids: seq<string>,
                    newId: string, fused: seq<TokenUnit>, b: int, newBatch: nat -> string, now: nat -> int64)
    requires |fused| >= 2 && rec.bundle != ""
    ensures var atoms := FusionAtoms(dump, src, rec, rem, ids, newId, fused, b, newBatch, now);
            Pays(atoms, src.balance, [NatText(|fused| - 1), "1"], b - |fused|) && CrossTransfer(atoms) && Indexed(atoms)
  {
    hide UnitsMeta, FusionMeta, NatText, Listed, Unlisted;
    var atoms := FusionAtoms(dump, src, rec, rem, ids, newId, fused, b, newBatch, now);
    assert IsCross(atoms[2]);
    assert Amount(atoms[2]) == 1 by {
      OneText();
    }
  }

  lemma OneText()
    ensures NatText(1) == "1" && Parse("1") == Some(1)
  {
    NatParses(1);
  }

  lemma FusionBuilt(dump: Json -> string, src: WalletView, rec: WalletView, rem: WalletView, ids: seq<string>,
                    newId: string, fused: seq<TokenUnit>, b: int, newBatch: nat -> string, now: nat -> int64)
    requires |fused| >= 2
    ensures BuiltFor(src, FusionAtoms(dump, src, rec, rem, ids, newId, fused, b, newBatch, now))
  {
    hide UnitsMeta, FusionMeta, NatText, Listed, Unlisted;
  }

  /** The balance that a fusion reads is the one its canonical text denotes, and its change cannot overflow. */
  lemma PlannedBalance(src: WalletView, ids: seq<string>, newId: string, b: int)
    requires FusionPlan(src, ids, newId).Ok? && AmountText(src.balance, b) && |ids| <= EXACT
    ensures FusionPlan(src, ids, newId).value.1 == b && LONG_MIN <= b - |ids|
  {
    AmountTextMeaning(src.balance, b);
    AmountBound(src.balance, b);
    hide AmountText, Resolve, FindUnit, Parse;
  }

  /** initTokenFusion, whenever its checks pass: the M units it resolves are burned and credited as M - 1 and 1, and the
      change is the balance it reads less M. */
  lemma FusionAccepted(fl: Floats, dump: Json -> string, src: WalletView, rec: WalletView, rem: WalletView,
                       ids: seq<string>, newId: string, b: int, newBatch: nat -> string, now: nat -> int64,
                       hash: string)
    requires ReadsIntegers(fl) && ExactAdd(fl) && hash != ""
    requires FusionPlan(src, ids, newId).Ok? && AmountText(src.balance, b) && |ids| <= EXACT && rec.bundle != ""
    ensures var (fused, balance) := FusionPlan(src, ids, newId).value;
            && LONG_MIN <= balance - |ids|
            && var atoms := FusionAtoms(dump, src, rec, rem, ids, newId, fused, balance, newBatch, now);
               && AmountSum(atoms) == 0 && Indexed(atoms) && BuiltFor(src, atoms)
               && TokenIsotopeV(fl, atoms, hash) == Ok(true)
  {
    hide *;
    PlannedBalance(src, ids, newId, b);
    var fused := FusionPlan(src, ids, newId).value.0;
    var m: nat := |fused|;
    var atoms := FusionAtoms(dump, src, rec, rem, ids, newId, fused, b, newBatch, now);
    FusionBuilt(dump, src, rec, rem, ids, newId, fused, b, newBatch, now);
    FusionPayable(src.balance, b, m);
    FusionShape(dump, src, rec, rem, ids, newId, fused, b, newBatch, now);
    PaysConserves(atoms, src.balance, [NatText(m - 1), "1"], b, [m - 1, 1]);
    CrossVerdict(fl, atoms, hash);
  }

  /** The two amounts of a fusion of m units. */
  lemma FusionPayable(balance: string, b: int, m: nat)
    requires 2 <= m <= EXACT && AmountText(balance, b)
    ensures Payable(balance, [NatText(m - 1), "1"], b, [m - 1, 1]) && Total([m - 1, 1], 2) == m
  {
    var amounts := [m - 1, 1];
    assert Total(amounts, 0) == 0 && Total(amounts, 1) == m - 1 && Total(amounts, 2) == m;
    OneText();
    hide NatText, Total;
  }

  /** When the balance is the unit count, the change of a fusion is the number of kept units. */
  lemma FusionChangeCountsKept(units: seq<TokenUnit>, ids: seq<string>)
    requires DistinctIds(units) && DistinctStrings(ids) && Resolve(units, ids).Ok?
    ensures |units| - |Resolve(units, ids).value| == |Unlisted(units, ids)|
  {
    FusedAreSent(units, ids);
  }
}
