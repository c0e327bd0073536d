/** Who pays and who is paid: the atoms of a builder as entries for wallets, and what each address ends up with. */
module Postings {
  import opened Common
  import opened Decimal
  import opened Json
  import opened Atom
  import opened AtomHash
  import opened Wallet
  import opened Conservation
  import opened Builders
  import opened Acceptance
  import opened Wire

  /** One entry: a wallet, the signed amount booked for it, and the bundle it is booked in the name of, if any. */
  datatype Posting = Posting(
    wallet: WalletView, isotope: string, token: string, amount: int, bundle: Option<string>,
    meta: seq<(string, string)>)

  /** The atom books the entry: at the wallet's position and address, in its batch. */
  predicate Books(a: Atom, p: Posting) {
    && a.position == p.wallet.position && a.walletAddress == p.wallet.address && a.batchId == p.wallet.batchId
    && a.isotope == p.isotope && a.token == p.token && Amount(a) == p.amount
    && a.metaType == (if p.bundle.Some? then "walletBundle" else "")
    && a.metaId == (if p.bundle.Some? then p.bundle.value else "")
    && a.meta == p.meta
  }

  predicate AllBook(atoms: seq<Atom>, ps: seq<Posting>) {
    |atoms| == |ps| && forall i :: 0 <= i < |ps| ==> Books(atoms[i], ps[i])
  }

  /** What is booked for an address. */
  function Booked(ps: seq<Posting>, address: string): int {
    if ps == [] then 0
    else
      var p := ps[|ps| - 1];
      Booked(ps[..|ps| - 1], address) + if p.wallet.address == address then p.amount else 0
  }

  /** The values of the atoms at an address. */
  function AddressSum(atoms: seq<Atom>, address: string): int {
    if atoms == [] then 0
    else
      var a := atoms[|atoms| - 1];
      AddressSum(atoms[..|atoms| - 1], address) + if a.walletAddress == address then Amount(a) else 0
  }

  lemma BookedParts(atoms: seq<Atom>, ps: seq<Posting>)
    requires AllBook(atoms, ps) && ps != []
    ensures var t := |ps| - 1;
            && |atoms| == |ps| && AllBook(atoms[..t], ps[..t])
            && atoms[t].walletAddress == ps[t].wallet.address && Amount(atoms[t]) == ps[t].amount
  {
    assert Books(atoms[|ps| - 1], ps[|ps| - 1]);
    hide Amount;
  }

  lemma {:induction false} BookedIsAddressSum(atoms: seq<Atom>, ps: seq<Posting>, address: string)
    requires AllBook(atoms, ps)
    ensures AddressSum(atoms, address) == Booked(ps, address)
  {
    if ps != [] {
      var t := |ps| - 1;
      BookedParts(atoms, ps);
      BookedIsAddressSum(atoms[..t], ps[..t], address);
      hide AllBook, Books, Amount;
    }
  }

  /** Signature fragments change nothing. */
  lemma BooksKept(xs: seq<Atom>, ys: seq<Atom>, ps: seq<Posting>)
    requires AllSameButFragment(xs, ys) && AllBook(xs, ps)
    ensures AllBook(ys, ps)
  {
    forall i | 0 <= i < |ps|
      ensures Books(ys[i], ps[i])
    {
      assert SameButFragment(xs[i], ys[i]) && Books(xs[i], ps[i]);
      assert xs[i] == ys[i].(otsFragment := xs[i].otsFragment);
    }
  }

  // ----- the entries of each builder

  /** Every recipient is credited its amount and carries its units; a withdrawal credits the source's token and carries
      none. */
  function RecipientPostings(dump: Json -> string, recs: seq<WalletView>, amounts: seq<int>, withdrawn: Option<string>)
    : (ps: seq<Posting>)
    requires |recs| == |amounts|
    ensures |ps| == |recs|
  {
    seq(|recs|, i requires 0 <= i < |recs| =>
      Posting(recs[i], "V", if withdrawn.Some? then withdrawn.value else recs[i].token, amounts[i],
              Some(recs[i].bundle), if withdrawn.Some? then [] else UnitsMeta(dump, recs[i].tokenUnits)))
  }

  /** A transfer: the source is debited its balance, every recipient is credited its amount and the remainder the rest,
      each with its own units and in the name of its own bundle. */
  function ValuesPostings(dump: Json -> string, src: WalletView, recs: seq<WalletView>, rem: WalletView, b: int,
                          amounts: seq<int>): seq<Posting>
    requires |recs| == |amounts|
  {
    [Posting(src, "V", src.token, -b, None, UnitsMeta(dump, src.tokenUnits))]
    + RecipientPostings(dump, recs, amounts, None)
    + [Posting(rem, "V", rem.token, b - Total(amounts, |amounts|), Some(rem.bundle), UnitsMeta(dump, rem.tokenUnits))]
  }

  /** A deposit: buffer and remainder are credited in the name of the source's bundle. */
  function DepositPostings(dump: Json -> string, src: WalletView, buf: WalletView, rem: WalletView,
                           rates: seq<(string, string)>, b: int, v: int): seq<Posting> {
    [ Posting(src, "V", src.token, -b, None, []),
      Posting(buf, "B", buf.token, v, Some(src.bundle), RatesMeta(dump, rates)),
      Posting(rem, "V", rem.token, b - v, Some(src.bundle), []) ]
  }

  /** A withdrawal: the recipients are credited the source's token. */
  function WithdrawPostings(dump: Json -> string, src: WalletView, recs: seq<WalletView>, rem: WalletView, b: int,
                            amounts: seq<int>): seq<Posting>
    requires |recs| == |amounts|
  {
    [Posting(src, "B", src.token, -b, Some(src.bundle), UnitsMeta(dump, src.tokenUnits))]
    + RecipientPostings(dump, recs, amounts, Some(src.token))
    + [Posting(rem, "B", rem.token, b - Total(amounts, |amounts|), Some(rem.bundle), [])]
  }

  /** A fusion of the listed units: all but the last fused unit are burned at no address, the recipient is credited the
      new unit, the remainder the others. Burn and new unit have batches of their own. */
  function FusionPostings(dump: Json -> string, src: WalletView, rec: WalletView, rem: WalletView, ids: seq<string>,
                          newId: string, fused: seq<TokenUnit>, b: int, newBatch: nat -> string): seq<Posting>
    requires |fused| >= 2
  {
    var burn := src.(position := "", address := "", batchId := if src.batchId == "" then "" else newBatch(0));
    var made := rec.(batchId := if src.batchId == "" then "" else newBatch(1));
    [ Posting(src, "V", src.token, -b, None, UnitsMeta(dump, Listed(src.tokenUnits, ids))),
      Posting(burn, "V", src.token, |fused| - 1, Some(ZERO_BUNDLE), UnitsMeta(dump, fused[..|fused| - 1])),
      Posting(made, "F", src.token, 1, Some(rec.bundle), FusionMeta(dump, fused, newId)),
      Posting(rem.(batchId := src.batchId), "V", src.token, b - |fused|, Some(src.bundle),
              UnitsMeta(dump, Unlisted(src.tokenUnits, ids))) ]
  }

  lemma AmountIs(a: Atom, n: int)
    ensures AmountText(a.value, n) ==> Amount(a) == n
    ensures a.value == ToString(n) ==> Amount(a) == n
  {
    if AmountText(a.value, n) {
      AmountTextMeaning(a.value, n);
    }
    ParseToString(n);
    hide AmountText, ToString, Parse;
  }

  lemma DebitIs(a: Atom, balance: string, b: int)
    requires AmountText(balance, b) && a.value == "-" + balance
    ensures Amount(a) == -b
  {
    AmountTextMeaning(balance, b);
    hide AmountText, Parse;
  }

  lemma BooksTogether(xs: seq<Atom>, ps: seq<Posting>, ys: seq<Atom>, qs: seq<Posting>)
    requires AllBook(xs, ps) && AllBook(ys, qs)
    ensures AllBook(xs + ys, ps + qs)
  {
    hide Books;
  }

  lemma BooksAround(a: Atom, p: Posting, xs: seq<Atom>, ps: seq<Posting>, c: Atom, r: Posting)
    requires AllBook([a], [p]) && AllBook(xs, ps) && AllBook([c], [r])
    ensures AllBook([a] + xs + [c], [p] + ps + [r])
  {
    hide AllBook;
    BooksTogether([a], [p], xs, ps);
    BooksTogether([a] + xs, [p] + ps, [c], [r]);
  }

  lemma RecipientsBook(dump: Json -> string, recs: seq<WalletView>, texts: seq<string>, amounts: seq<int>,
                       withdrawn: Option<string>, now: nat -> int64)
    requires |recs| == |texts| && AmountTexts(texts, amounts)
    ensures AllBook(RecipientAtoms(dump, recs, texts, withdrawn, |recs|, now),
                    RecipientPostings(dump, recs, amounts, withdrawn))
  {
    hide UnitsMeta, Amount, AmountText, Cast32;
    var atoms := RecipientAtoms(dump, recs, texts, withdrawn, |recs|, now);
    forall i | 0 <= i < |recs|
      ensures Books(atoms[i], RecipientPostings(dump, recs, amounts, withdrawn)[i])
    {
      AmountIs(atoms[i], amounts[i]);
    }
  }

  lemma DebitBooks(dump: Json -> string, src: WalletView, isotope: string, bundle: Option<string>,
                   meta: seq<(string, string)>, b: int, now: int64)
    requires AmountText(src.balance, b)
    ensures AllBook([Debit(src, isotope, if bundle.Some? then "walletBundle" else "",
                           if bundle.Some? then bundle.value else "", meta, now)],
                    [Posting(src, isotope, src.token, -b, bundle, meta)])
  {
    hide Amount, AmountText;
    DebitIs(Debit(src, isotope, if bundle.Some? then "walletBundle" else "",
                  if bundle.Some? then bundle.value else "", meta, now), src.balance, b);
  }

  lemma CreditBooks(w: WalletView, isotope: string, token: string, n: int, bundle: string, meta: seq<(string, string)>,
                    now: int64, index: int32)
    ensures AllBook([Credit(w, isotope, token, ToString(n), bundle, meta, now, index)],
                    [Posting(w, isotope, token, n, Some(bundle), meta)])
  {
    hide Amount, ToString;
    AmountIs(Credit(w, isotope, token, ToString(n), bundle, meta, now, index), n);
  }

  /** initValues books these entries, with the change it computes. */
  lemma ValuesBook(dump: Json -> string, src: WalletView, recs: seq<WalletView>, texts: seq<string>, rem: WalletView,
                   b: int, amounts: seq<int>, now: nat -> int64)
    requires |recs| == |texts| && Payable(src.balance, texts, b, amounts)
    ensures AllBook(ValuesAtoms(dump, src, recs, texts, rem, b - Total(amounts, |amounts|), now),
                    ValuesPostings(dump, src, recs, rem, b, amounts))
  {
    hide *;
    PayableParts(src.balance, texts, b, amounts);
    var change := b - Total(amounts, |amounts|);
    var sent, kept := UnitsMeta(dump, src.tokenUnits), UnitsMeta(dump, rem.tokenUnits);
    DebitBooks(dump, src, "V", None, sent, b, now(0));
    RecipientsBook(dump, recs, texts, amounts, None, now);
    CreditBooks(rem, "V", rem.token, change, rem.bundle, kept, now(|recs| + 1), IndexOf(|recs| + 1));
    BooksAround(Debit(src, "V", "", "", sent, now(0)), Posting(src, "V", src.token, -b, None, sent),
                RecipientAtoms(dump, recs, texts, None, |recs|, now), RecipientPostings(dump, recs, amounts, None),
                Credit(rem, "V", rem.token, ToString(change), rem.bundle, kept, now(|recs| + 1), IndexOf(|recs| + 1)),
                Posting(rem, "V", rem.token, change, Some(rem.bundle), kept));
    ValuesForm(dump, src, recs, texts, rem, b, amounts, now);
  }

  lemma PayableParts(balance: string, texts: seq<string>, b: int, amounts: seq<int>)
    requires Payable(balance, texts, b, amounts)
    ensures AmountText(balance, b) && AmountTexts(texts, amounts) && |texts| == |amounts|
  {
  }

  lemma ValuesForm(dump: Json -> string, src: WalletView, recs: seq<WalletView>, texts: seq<string>, rem: WalletView,
                   b: int, amounts: seq<int>, now: nat -> int64)
    requires |recs| == |texts| == |amounts|
    ensures var change := b - Total(amounts, |amounts|);
            var sent, kept := UnitsMeta(dump, src.tokenUnits), UnitsMeta(dump, rem.tokenUnits);
            && ValuesAtoms(dump, src, recs, texts, rem, change, now)
               == [Debit(src, "V", "", "", sent, now(0))] + RecipientAtoms(dump, recs, texts, None, |recs|, now)
                  + [Credit(rem, "V", rem.token, ToString(change), rem.bundle, kept, now(|recs| + 1),
                            IndexOf(|recs| + 1))]
            && ValuesPostings(dump, src, recs, rem, b, amounts)
               == [Posting(src, "V", src.token, -b, None, sent)] + RecipientPostings(dump, recs, amounts, None)
                  + [Posting(rem, "V", rem.token, change, Some(rem.bundle), kept)]
  {
    hide UnitsMeta, ToString, Total, Debit, Credit, IndexOf, RecipientAtoms, RecipientPostings;
  }

  lemma WithdrawBooks(dump: Json -> string, src: WalletView, recs: seq<WalletView>, texts: seq<string>,
                      rem: WalletView, b: int, amounts: seq<int>, now: nat -> int64)
    requires |recs| == |texts| && Payable(src.balance, texts, b, amounts)
    ensures AllBook(WithdrawAtoms(dump, src, recs, texts, rem, b - Total(amounts, |amounts|), now),
                    WithdrawPostings(dump, src, recs, rem, b, amounts))
  {
    hide *;
    PayableParts(src.balance, texts, b, amounts);
    var change, token := b - Total(amounts, |amounts|), Some(src.token);
    var sent := UnitsMeta(dump, src.tokenUnits);
    DebitBooks(dump, src, "B", Some(src.bundle), sent, b, now(0));
    RecipientsBook(dump, recs, texts, amounts, token, now);
    CreditBooks(rem, "B", rem.token, change, rem.bundle, [], now(|recs| + 1), IndexOf(|recs| + 1));
    BooksAround(Debit(src, "B", "walletBundle", src.bundle, sent, now(0)),
                Posting(src, "B", src.token, -b, Some(src.bundle), sent),
                RecipientAtoms(dump, recs, texts, token, |recs|, now), RecipientPostings(dump, recs, amounts, token),
                Credit(rem, "B", rem.token, ToString(change), rem.bundle, [], now(|recs| + 1), IndexOf(|recs| + 1)),
                Posting(rem, "B", rem.token, change, Some(rem.bundle), []));
    WithdrawForm(dump, src, recs, texts, rem, b, amounts, now);
  }

  lemma WithdrawForm(dump: Json -> string, src: WalletView, recs: seq<WalletView>, texts: seq<string>, rem: WalletView,
                     b: int, amounts: seq<int>, now: nat -> int64)
    requires |recs| == |texts| == |amounts|
    ensures var change, token := b - Total(amounts, |amounts|), Some(src.token);
            var sent := UnitsMeta(dump, src.tokenUnits);
            && WithdrawAtoms(dump, src, recs, texts, rem, change, now)
               == [Debit(src, "B", "walletBundle", src.bundle, sent, now(0))]
                  + RecipientAtoms(dump, recs, texts, token, |recs|, now)
                  + [Credit(rem, "B", rem.token, ToString(change), rem.bundle, [], now(|recs| + 1),
                            IndexOf(|recs| + 1))]
            && WithdrawPostings(dump, src, recs, rem, b, amounts)
               == [Posting(src, "B", src.token, -b, Some(src.bundle), sent)]
                  + RecipientPostings(dump, recs, amounts, token)
                  + [Posting(rem, "B", rem.token, change, Some(rem.bundle), [])]
  {
    hide UnitsMeta, ToString, Total, Debit, Credit, IndexOf, RecipientAtoms, RecipientPostings;
  }

  lemma DepositBooks(dump: Json -> string, src: WalletView, buf: WalletView, rem: WalletView, amount: string,
                     rates: seq<(string, string)>, b: int, v: int, now: nat -> int64)
    requires AmountText(src.balance, b) && AmountText(amount, v)
    ensures AllBook(DepositAtoms(dump, src, buf, rem, amount, rates, b - v, now),
                    DepositPostings(dump, src, buf, rem, rates, b, v))
  {
    hide ToString, Amount, AmountText, RatesMeta;
    var atoms := DepositAtoms(dump, src, buf, rem, amount, rates, b - v, now);
    DebitIs(atoms[0], src.balance, b);
    AmountIs(atoms[1], v);
    AmountIs(atoms[2], b - v);
  }

  lemma FusionBooks(dump: Json -> string, src: WalletView, rec: WalletView, rem: WalletView, ids: seq<string>,
                    newId: string, fused: seq<TokenUnit>, b: int, newBatch: nat -> string, now: nat -> int64)
    requires |fused| >= 2 && AmountText(src.balance, b)
    ensures AllBook(FusionAtoms(dump, src, rec, rem, ids, newId, fused, b, newBatch, now),
                    FusionPostings(dump, src, rec, rem, ids, newId, fused, b, newBatch))
  {
    hide ToString, Amount, AmountText, UnitsMeta, FusionMeta, Listed, Unlisted;
    var atoms := FusionAtoms(dump, src, rec, rem, ids, newId, fused, b, newBatch, now);
    DebitIs(atoms[0], src.balance, b);
    AmountIs(atoms[1], |fused| - 1);
    OneIs(atoms[2]);
    AmountIs(atoms[3], b - |fused|);
  }

  lemma OneIs(a: Atom)
    requires a.value == "1"
    ensures Amount(a) == 1
  {
    OneText();
    hide Parse;
  }

  /** initValue is initValues with one recipient. */
  lemma OneRecipientValues(dump: Json -> string, src: WalletView, rec: WalletView, rem: WalletView, value: string,
                           change: int, now: nat -> int64)
    ensures ValueAtoms(dump, src, rec, rem, value, change, now)
         == ValuesAtoms(dump, src, [rec], [value], rem, change, now)
  {
    hide UnitsMeta, ToString, Credit, Debit;
  }

  /** Atoms that carry the clock readings from k on, one each, and no version and no parsing marks. */
  predicate InTurn(atoms: seq<Atom>, k: nat, now: nat -> int64) {
    forall i :: 0 <= i < |atoms| ==>
      && atoms[i].createdAt == now(k + i) && atoms[i].version == None
      && atoms[i].nullMeta == [] && atoms[i].parsedEmpty == {}
  }

  lemma TurnsTogether(xs: seq<Atom>, ys: seq<Atom>, k: nat, now: nat -> int64)
    requires InTurn(xs, k, now) && InTurn(ys, k + |xs|, now)
    ensures InTurn(xs + ys, k, now)
  {
    forall i | 0 <= i < |xs + ys|
      ensures var a := (xs + ys)[i];
              a.createdAt == now(k + i) && a.version == None && a.nullMeta == [] && a.parsedEmpty == {}
    {
      if i >= |xs| {
        var j := i - |xs|;
        assert (xs + ys)[i] == ys[j] && k + |xs| + j == k + i;
      }
    }
  }

  lemma RecipientsInTurn(dump: Json -> string, recs: seq<WalletView>, texts: seq<string>, withdrawn: Option<string>,
                         now: nat -> int64)
    requires |recs| <= |texts|
    ensures InTurn(RecipientAtoms(dump, recs, texts, withdrawn, |recs|, now), 1, now)
  {
    hide UnitsMeta, Cast32;
  }

  lemma TurnsAround(a: Atom, xs: seq<Atom>, c: Atom, now: nat -> int64)
    requires InTurn([a], 0, now) && InTurn(xs, 1, now) && InTurn([c], 1 + |xs|, now)
    ensures InTurn([a] + xs + [c], 0, now)
  {
    hide InTurn;
    TurnsTogether([a], xs, 0, now);
    TurnsTogether([a] + xs, [c], 0, now);
  }

  lemma OneInTurn(w: WalletView, isotope: string, text: string, s: string, t: string, meta: seq<(string, string)>,
                  k: nat, now: nat -> int64, index: int32)
    ensures InTurn([Debit(w, isotope, s, t, meta, now(k))], k, now)
    ensures InTurn([Credit(w, isotope, s, text, t, meta, now(k), index)], k, now)
  {
  }

  /** Every builder takes the clock once for each atom, in order. */
  lemma BuiltInTurn(dump: Json -> string, src: WalletView, recs: seq<WalletView>, texts: seq<string>, rem: WalletView,
                    change: int, now: nat -> int64)
    requires |recs| <= |texts|
    ensures InTurn(ValuesAtoms(dump, src, recs, texts, rem, change, now), 0, now)
    ensures InTurn(WithdrawAtoms(dump, src, recs, texts, rem, change, now), 0, now)
  {
    hide *;
    ValuesInTurn(dump, src, recs, texts, rem, change, now);
    WithdrawInTurn(dump, src, recs, texts, rem, change, now);
  }

  lemma ValuesInTurn(dump: Json -> string, src: WalletView, recs: seq<WalletView>, texts: seq<string>, rem: WalletView,
                     change: int, now: nat -> int64)
    requires |recs| <= |texts|
    ensures InTurn(ValuesAtoms(dump, src, recs, texts, rem, change, now), 0, now)
  {
    hide UnitsMeta, ToString, IndexOf, Debit, Credit, RecipientAtoms, InTurn;
    var n, sent, kept := |recs|, UnitsMeta(dump, src.tokenUnits), UnitsMeta(dump, rem.tokenUnits);
    OneInTurn(src, "V", "", "", "", sent, 0, now, 0);
    RecipientsInTurn(dump, recs, texts, None, now);
    OneInTurn(rem, "V", ToString(change), rem.token, rem.bundle, kept, n + 1, now, IndexOf(n + 1));
    TurnsAround(Debit(src, "V", "", "", sent, now(0)), RecipientAtoms(dump, recs, texts, None, n, now),
                Credit(rem, "V", rem.token, ToString(change), rem.bundle, kept, now(n + 1), IndexOf(n + 1)), now);
  }

  lemma WithdrawInTurn(dump: Json -> string, src: WalletView, recs: seq<WalletView>, texts: seq<string>,
                       rem: WalletView, change: int, now: nat -> int64)
    requires |recs| <= |texts|
    ensures InTurn(WithdrawAtoms(dump, src, recs, texts, rem, change, now), 0, now)
  {
    hide UnitsMeta, ToString, IndexOf, Debit, Credit, RecipientAtoms, InTurn;
    var n, sent := |recs|, UnitsMeta(dump, src.tokenUnits);
    OneInTurn(src, "B", "", "walletBundle", src.bundle, sent, 0, now, 0);
    RecipientsInTurn(dump, recs, texts, Some(src.token), now);
    OneInTurn(rem, "B", ToString(change), rem.token, rem.bundle, [], n + 1, now, IndexOf(n + 1));
    TurnsAround(Debit(src, "B", "walletBundle", src.bundle, sent, now(0)),
                RecipientAtoms(dump, recs, texts, Some(src.token), n, now),
                Credit(rem, "B", rem.token, ToString(change), rem.bundle, [], now(n + 1), IndexOf(n + 1)), now);
  }

  lemma BuiltInTurnToo(dump: Json -> string, src: WalletView, rec: WalletView, rem: WalletView, amount: string,
                       rates: seq<(string, string)>, change: int, ids: seq<string>, newId: string,
                       fused: seq<TokenUnit>, newBatch: nat -> string, now: nat -> int64)
    requires |fused| >= 2
    ensures InTurn(DepositAtoms(dump, src, rec, rem, amount, rates, change, now), 0, now)
    ensures InTurn(FusionAtoms(dump, src, rec, rem, ids, newId, fused, change, newBatch, now), 0, now)
  {
    hide UnitsMeta, FusionMeta, RatesMeta, ToString, Listed, Unlisted;
  }

  // ----- what each address ends up with

  /** The amounts of the recipients at an address. */
  function PaidTo(recs: seq<WalletView>, amounts: seq<int>, address: string): int
    requires |recs| == |amounts|
  {
    if recs == [] then 0
    else
      var t := |recs| - 1;
      PaidTo(recs[..t], amounts[..t], address) + if recs[t].address == address then amounts[t] else 0
  }

  lemma {:induction false} BookedConcat(ps: seq<Posting>, qs: seq<Posting>, address: string)
    ensures Booked(ps + qs, address) == Booked(ps, address) + Booked(qs, address)
  {
    if qs == [] {
      assert ps + qs == ps;
    } else {
      var t := qs[..|qs| - 1];
      assert (ps + qs)[..|ps + qs| - 1] == ps + t;
      BookedConcat(ps, t, address);
    }
  }

  lemma BookedOne(p: Posting, address: string)
    ensures Booked([p], address) == if p.wallet.address == address then p.amount else 0
  {
    assert [p][..0] == [] && Booked([], address) == 0;
  }

  lemma BookedAround(p: Posting, ps: seq<Posting>, r: Posting, address: string)
    ensures Booked([p] + ps + [r], address)
         == Booked([p], address) + Booked(ps, address) + Booked([r], address)
  {
    hide Booked;
    BookedConcat([p] + ps, [r], address);
    BookedConcat([p], ps, address);
  }

  lemma {:induction false} BookedRecipients(dump: Json -> string, recs: seq<WalletView>, amounts: seq<int>,
                                            withdrawn: Option<string>, address: string)
    requires |recs| == |amounts|
    ensures Booked(RecipientPostings(dump, recs, amounts, withdrawn), address) == PaidTo(recs, amounts, address)
  {
    hide UnitsMeta;
    if recs != [] {
      var t := |recs| - 1;
      BookedRecipients(dump, recs[..t], amounts[..t], withdrawn, address);
      assert RecipientPostings(dump, recs, amounts, withdrawn)[..t]
          == RecipientPostings(dump, recs[..t], amounts[..t], withdrawn);
    }
  }

  /** Whose wallet it is. */
  function At(w: WalletView, address: string, amount: int): int {
    if w.address == address then amount else 0
  }

  /** What a transfer or a withdrawal books for an address: the balance taken, all amounts to it and the rest. */
  lemma PayoutAtAddress(dump: Json -> string, src: WalletView, recs: seq<WalletView>, rem: WalletView, b: int,
                        amounts: seq<int>, address: string)
    requires |recs| == |amounts|
    ensures Booked(ValuesPostings(dump, src, recs, rem, b, amounts), address)
         == Booked(WithdrawPostings(dump, src, recs, rem, b, amounts), address)
         == At(src, address, -b) + PaidTo(recs, amounts, address) + At(rem, address, b - Total(amounts, |amounts|))
  {
    hide UnitsMeta, Booked, RecipientPostings, PaidTo, Total;
    var v, w := ValuesPostings(dump, src, recs, rem, b, amounts), WithdrawPostings(dump, src, recs, rem, b, amounts);
    var n := |recs|;
    BookedRecipients(dump, recs, amounts, None, address);
    BookedRecipients(dump, recs, amounts, Some(src.token), address);
    BookedAround(v[0], RecipientPostings(dump, recs, amounts, None), v[n + 1], address);
    BookedAround(w[0], RecipientPostings(dump, recs, amounts, Some(src.token)), w[n + 1], address);
    BookedOne(v[0], address);
    BookedOne(v[n + 1], address);
    BookedOne(w[0], address);
    BookedOne(w[n + 1], address);
  }

  lemma DepositAtAddress(dump: Json -> string, src: WalletView, buf: WalletView, rem: WalletView,
                         rates: seq<(string, string)>, b: int, v: int, address: string)
    ensures Booked(DepositPostings(dump, src, buf, rem, rates, b, v), address)
         == At(src, address, -b) + At(buf, address, v) + At(rem, address, b - v)
  {
    hide RatesMeta, Booked;
    var ps := DepositPostings(dump, src, buf, rem, rates, b, v);
    BookedAround(ps[0], [ps[1]], ps[2], address);
    assert [ps[0]] + [ps[1]] + [ps[2]] == ps;
    BookedOne(ps[0], address);
    BookedOne(ps[1], address);
    BookedOne(ps[2], address);
  }

  /** A fusion of M units: the balance is taken, M - 1 go to no address, 1 to the recipient and the rest remains. */
  lemma FusionAtAddress(dump: Json -> string, src: WalletView, rec: WalletView, rem: WalletView, ids: seq<string>,
                        newId: string, fused: seq<TokenUnit>, b: int, newBatch: nat -> string, address: string)
    requires |fused| >= 2
    ensures Booked(FusionPostings(dump, src, rec, rem, ids, newId, fused, b, newBatch), address)
         == At(src, address, -b) + (if address == "" then |fused| - 1 else 0) + At(rec, address, 1)
            + At(rem, address, b - |fused|)
  {
    hide UnitsMeta, FusionMeta, Booked, Listed, Unlisted;
    var ps := FusionPostings(dump, src, rec, rem, ids, newId, fused, b, newBatch);
    BookedAround(ps[0], [ps[1]] + [ps[2]], ps[3], address);
    BookedConcat([ps[1]], [ps[2]], address);
    assert [ps[0]] + ([ps[1]] + [ps[2]]) + [ps[3]] == ps;
    BookedOne(ps[0], address);
    BookedOne(ps[1], address);
    BookedOne(ps[2], address);
    BookedOne(ps[3], address);
  }

  lemma TotalOfOne(v: int)
    ensures Total([v], 1) == v
  {
    assert Total([v], 0) == 0;
  }

  lemma PaidToOne(rec: WalletView, v: int, address: string)
    ensures PaidTo([rec], [v], address) == At(rec, address, v)
  {
    assert [rec][..0] == [] && [v][..0] == [] && PaidTo([], [], address) == 0;
  }

  /** A recipient whose address no other recipient has is paid its own amount. */
  lemma {:induction false} PaidToOwner(recs: seq<WalletView>, amounts: seq<int>, i: nat)
    requires i < |recs| == |amounts|
    requires forall j :: 0 <= j < |recs| && j != i ==> recs[j].address != recs[i].address
    ensures PaidTo(recs, amounts, recs[i].address) == amounts[i]
  {
    var t := |recs| - 1;
    if i < t {
      PaidToOwner(recs[..t], amounts[..t], i);
    } else {
      PaidToNobody(recs[..t], amounts[..t], recs[i].address);
    }
  }

  lemma {:induction false} PaidToNobody(recs: seq<WalletView>, amounts: seq<int>, address: string)
    requires |recs| == |amounts| && forall j :: 0 <= j < |recs| ==> recs[j].address != address
    ensures PaidTo(recs, amounts, address) == 0
  {
    if recs != [] {
      PaidToNobody(recs[..|recs| - 1], amounts[..|recs| - 1], address);
    }
  }

  /** The transfer of one amount: three different addresses get -b, v and b - v, in atoms signed or not. */
  lemma ThreeAddresses(dump: Json -> string, atoms: seq<Atom>, src: WalletView, rec: WalletView, rem: WalletView,
                       b: int, v: int)
    requires AllBook(atoms, ValuesPostings(dump, src, [rec], rem, b, [v]))
    requires src.address != rec.address && rec.address != rem.address && rem.address != src.address
    ensures AddressSum(atoms, src.address) == -b && AddressSum(atoms, rec.address) == v
    ensures AddressSum(atoms, rem.address) == b - v
  {
    hide AllBook, ValuesPostings, PaidTo, Booked, Total;
    var ps := ValuesPostings(dump, src, [rec], rem, b, [v]);
    TotalOfOne(v);
    forall address
      ensures AddressSum(atoms, address) == At(src, address, -b) + At(rec, address, v) + At(rem, address, b - v)
    {
      BookedIsAddressSum(atoms, ps, address);
      PayoutAtAddress(dump, src, [rec], rem, b, [v], address);
      PaidToOne(rec, v, address);
    }
  }

  // ----- units and rates in the meta

  /** The units that a list of triples describes. */
  function UnitsOf(j: Json): seq<TokenUnit> {
    if j.JArr? then seq(|j.items|, i requires 0 <= i < |j.items| => UnitOf(j.items[i])) else []
  }

  function TextIn(items: seq<Json>, i: nat): string {
    if i < |items| && items[i].JStr? then items[i].s else ""
  }

  function UnitOf(j: Json): TokenUnit {
    var items := if j.JArr? then j.items else [];
    TokenUnit(TextIn(items, 0), TextIn(items, 1), if |items| > 2 then MetasOf(items[2]) else [])
  }

  function MetasOf(j: Json): seq<(string, string)> {
    if j.JObj? then
      seq(|j.fields|, i requires 0 <= i < |j.fields| =>
        (j.fields[i].0, if j.fields[i].1.JStr? then j.fields[i].1.s else ""))
    else []
  }

  lemma UnitReadBack(u: TokenUnit)
    ensures UnitOf(UnitTriple(u)) == u
  {
    assert MetasOf(UnitTriple(u).items[2]) == u.metas;
  }

  /** A unit list is written as triples of id, name and metas that describe exactly its units. */
  lemma UnitsReadBack(units: seq<TokenUnit>)
    ensures UnitsOf(UnitTriples(units)) == units
  {
    hide UnitTriple, UnitOf;
    forall i | 0 <= i < |units|
      ensures UnitsOf(UnitTriples(units))[i] == units[i]
    {
      UnitReadBack(units[i]);
    }
  }

  /** The tokenUnits meta carries exactly the units; without units there is none. */
  lemma UnitsCarried(dump: Json -> string, units: seq<TokenUnit>)
    ensures UnitsMeta(dump, units) == [] <==> units == []
    ensures units != [] ==>
      exists j :: UnitsOf(j) == units && UnitsMeta(dump, units) == [("tokenUnits", dump(j))]
  {
    UnitsReadBack(units);
    hide UnitsOf;
    assert units != [] ==> UnitsMeta(dump, units) == [("tokenUnits", dump(UnitTriples(units)))];
  }

  /** The new unit of a fusion: one unit of the new id and name, whose metas list the fused units in order. */
  lemma NewUnitCarried(dump: Json -> string, fused: seq<TokenUnit>, newId: string)
    ensures exists j :: FusionMeta(dump, fused, newId) == [("tokenUnits", dump(j))]
                     && j.JArr? && |j.items| == 1 && UnitOf(j.items[0]).id == UnitOf(j.items[0]).name == newId
                     && j.items[0].JArr? && |j.items[0].items| == 3
                     && Find(j.items[0].items[2], "fusedTokenUnits").Some?
                     && UnitsOf(Find(j.items[0].items[2], "fusedTokenUnits").value) == fused
  {
    UnitsReadBack(fused);
    hide UnitsOf, UnitTriples;
    var j := JArr([JArr([JStr(newId), JStr(newId), JObj([("fusedTokenUnits", UnitTriples(fused))])])]);
    assert FusionMeta(dump, fused, newId) == [("tokenUnits", dump(j))];
    assert UnitOf(j.items[0]).id == newId;
  }

  lemma {:induction false} PutIsFound(fields: seq<(string, Json)>, key: string, value: Json, other: string)
    ensures Lookup(Put(fields, key, value), other) == if other == key then Some(value) else Lookup(fields, other)
  {
    var r := Put(fields, key, value);
    if fields != [] && fields[0].0 != key && !Precedes(key, fields[0].0) {
      PutIsFound(fields[1..], key, value, other);
      assert r[1..] == Put(fields[1..], key, value);
    } else if fields != [] && fields[0].0 == key {
      assert r[1..] == fields[1..];
    } else {
      assert r[1..] == fields;
    }
  }

  predicate InKeyOrder(fields: seq<(string, Json)>) {
    forall i, j :: 0 <= i < j < |fields| ==> Precedes(fields[i].0, fields[j].0)
  }

  lemma {:induction false} PrecedesTotal(a: string, b: string)
    ensures Precedes(a, b) || a == b || Precedes(b, a)
  {
    if a != "" && b != "" && a[0] == b[0] {
      PrecedesTotal(a[1..], b[1..]);
      assert a == [a[0]] + a[1..] && b == [b[0]] + b[1..];
    }
  }

  lemma {:induction false} PrecedesTransitive(a: string, b: string, c: string)
    requires Precedes(a, b) && Precedes(b, c)
    ensures Precedes(a, c)
  {
    if a != "" && a[0] == b[0] == c[0] {
      PrecedesTransitive(a[1..], b[1..], c[1..]);
    }
  }

  /** Assigning keeps the fields in key order. */
  lemma {:induction false} PutKeepsOrder(fields: seq<(string, Json)>, key: string, value: Json)
    requires InKeyOrder(fields)
    ensures InKeyOrder(Put(fields, key, value))
    ensures forall i :: 0 <= i < |Put(fields, key, value)| ==>
      || Put(fields, key, value)[i].0 == key
      || exists j :: 0 <= j < |fields| && Put(fields, key, value)[i].0 == fields[j].0
  {
    hide Precedes;
    var r := Put(fields, key, value);
    if fields != [] {
      var rest := fields[1..];
      if fields[0].0 == key {
        assert forall i :: 0 <= i < |r| ==> r[i].0 == fields[i].0;
      } else if Precedes(key, fields[0].0) {
        forall j | 0 <= j < |fields|
          ensures Precedes(key, fields[j].0)
        {
          if j > 0 {
            PrecedesTransitive(key, fields[0].0, fields[j].0);
          }
        }
        assert forall i :: 0 < i < |r| ==> r[i] == fields[i - 1];
      } else {
        PrecedesTotal(key, fields[0].0);
        PutKeepsOrder(rest, key, value);
        var tail := Put(rest, key, value);
        forall i | 0 <= i < |tail|
          ensures Precedes(fields[0].0, tail[i].0)
          ensures tail[i].0 == key || exists j :: 0 <= j < |fields| && tail[i].0 == fields[j].0
        {
          if tail[i].0 != key {
            var j :| 0 <= j < |rest| && tail[i].0 == rest[j].0;
            assert fields[j + 1] == rest[j];
          }
        }
        assert forall i :: 0 < i < |r| ==> r[i] == tail[i - 1];
      }
    }
  }

  lemma {:induction false} RatesInOrder(rates: seq<(string, string)>)
    ensures InKeyOrder(RatesObject(rates))
  {
    hide Put, InKeyOrder;
    if rates == [] {
      assert InKeyOrder(RatesObject(rates)) by {
        NoFields();
      }
    } else {
      var t, last := rates[..|rates| - 1], rates[|rates| - 1];
      RatesInOrder(t);
      PutKeepsOrder(RatesObject(t), last.0, JStr(last.1));
    }
  }

  lemma NoFields()
    ensures InKeyOrder([])
  {
  }

  /** The tradeRates meta is an object in key order that holds the last rate of every pair; none without rates. */
  lemma RatesCarried(dump: Json -> string, rates: seq<(string, string)>)
    ensures RatesMeta(dump, rates) == [] <==> rates == []
    ensures rates != [] ==>
      exists fields :: RatesMeta(dump, rates) == [("tradeRates", dump(JObj(fields)))] && InKeyOrder(fields)
                    && forall key :: Find(JObj(fields), key) == LastRate(rates, key)
  {
    var fields := RatesObject(rates);
    RatesInOrder(rates);
    forall key
      ensures Find(JObj(fields), key) == LastRate(rates, key)
    {
      RatesAreFound(rates, key);
    }
    hide Find, LastRate, InKeyOrder, RatesObject;
    assert rates != [] ==> RatesMeta(dump, rates) == [("tradeRates", dump(JObj(fields)))];
  }

  /** The last rate given for a pair is the one that counts. */
  function LastRate(rates: seq<(string, string)>, key: string): Option<Json> {
    if rates == [] then None
    else if rates[|rates| - 1].0 == key then Some(JStr(rates[|rates| - 1].1))
    else LastRate(rates[..|rates| - 1], key)
  }

  lemma {:induction false} RatesAreFound(rates: seq<(string, string)>, key: string)
    ensures Find(JObj(RatesObject(rates)), key) == LastRate(rates, key)
  {
    if rates != [] {
      var t, last := rates[..|rates| - 1], rates[|rates| - 1];
      RatesAreFound(t, key);
      PutIsFound(RatesObject(t), last.0, JStr(last.1), key);
      hide Put, Lookup;
    }
  }

  // ----- when a fusion is possible

  /** The first unit with an id. */
  predicate IsFirst(units: seq<TokenUnit>, id: string, u: TokenUnit) {
    exists k :: 0 <= k < |units| && units[k] == u && u.id == id && forall j :: 0 <= j < k ==> units[j].id != id
  }

  predicate HasId(units: seq<TokenUnit>, id: string) {
    exists k :: 0 <= k < |units| && units[k].id == id
  }

  lemma {:induction false} FoundIsFirst(units: seq<TokenUnit>, id: string)
    ensures FindUnit(units, id).Some? <==> HasId(units, id)
    ensures forall u :: FindUnit(units, id) == Some(u) ==> IsFirst(units, id, u)
  {
    if units != [] {
      if units[0].id != id {
        FoundIsFirst(units[1..], id);
        var rest := units[1..];
        if HasId(units, id) {
          var k :| 0 <= k < |units| && units[k].id == id;
          assert rest[k - 1].id == id;
        }
        if FindUnit(rest, id).Some? {
          var u := FindUnit(rest, id).value;
          var k :| 0 <= k < |rest| && rest[k] == u && u.id == id && forall j :: 0 <= j < k ==> rest[j].id != id;
          assert units[k + 1] == u;
          assert forall j :: 0 <= j < k + 1 ==> units[j].id != id;
        }
      }
    }
  }

  lemma {:induction false} ResolvedExactly(units: seq<TokenUnit>, ids: seq<string>)
    ensures Resolve(units, ids).Ok? <==> forall i :: 0 <= i < |ids| ==> HasId(units, ids[i])
    ensures Resolve(units, ids).Ok? ==>
      forall i :: 0 <= i < |ids| ==> IsFirst(units, ids[i], Resolve(units, ids).value[i])
    ensures Resolve(units, ids).Err? ==> Resolve(units, ids) == Err(KnishIOFailure)
  {
    hide HasId, IsFirst, FindUnit;
    if ids != [] {
      var t, last := ids[..|ids| - 1], ids[|ids| - 1];
      ResolvedExactly(units, t);
      FoundIsFirst(units, last);
    }
  }

  /** initTokenFusion fails on its units exactly when fewer than two are named, one is unknown, or the new id is taken;
      only then on a balance that does not read. Otherwise it fuses the first unit of each id, in the order given. */
  lemma FusionPlanExact(src: WalletView, ids: seq<string>, newId: string)
    ensures var known := |ids| >= 2 && (forall i :: 0 <= i < |ids| ==> HasId(src.tokenUnits, ids[i])) &&
                         !HasId(src.tokenUnits, newId);
            match FusionPlan(src, ids, newId)
            case Ok((fused, balance)) =>
              && known && Stoll(src.balance) == Ok(balance) && |fused| == |ids|
              && forall i :: 0 <= i < |ids| ==> IsFirst(src.tokenUnits, ids[i], fused[i])
            case Err(e) => if known then Stoll(src.balance) == Err(e) else e == KnishIOFailure
  {
    hide HasId, IsFirst, Resolve, FindUnit, Stoll;
    ResolvedExactly(src.tokenUnits, ids);
    FoundIsFirst(src.tokenUnits, newId);
  }
}
