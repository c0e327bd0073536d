/** The atoms that the transfer, buffer and fusion builders append, and the sums of their values. */
module Builders {
  import opened Common
  import opened Decimal
  import opened Json
  import opened Atom
  import opened Wallet
  import opened Conservation

  /** The bundle that a burn credits. */
  const ZERO_BUNDLE: string := seq(64, _ => '0')

  /** [id, name, metas] */
  function UnitTriple(u: TokenUnit): Json {
    JArr([JStr(u.id), JStr(u.name),
          JObj(seq(|u.metas|, i requires 0 <= i < |u.metas| => (u.metas[i].0, JStr(u.metas[i].1))))])
  }

  function UnitTriples(units: seq<TokenUnit>): Json {
    JArr(seq(|units|, i requires 0 <= i < |units| => UnitTriple(units[i])))
  }

  /** The tokenUnits meta of a unit list; none for an empty list. */
  function UnitsMeta(dump: Json -> string, units: seq<TokenUnit>): seq<(string, string)> {
    if units == [] then [] else [("tokenUnits", dump(UnitTriples(units)))]
  }

  /** The atom that debits the whole balance of a wallet. */
  function Debit(w: WalletView, isotope: string, metaType: string, metaId: string, meta: seq<(string, string)>,
                 now: int64): Atom {
    NewAtom(w.position, w.address, isotope, w.token, "-" + w.balance, w.batchId, metaType, metaId, meta, now, 0)
  }

  /** An atom that credits an amount to a wallet in the name of a bundle. */
  function Credit(w: WalletView, isotope: string, token: string, amount: string, bundle: string,
                  meta: seq<(string, string)>, now: int64, index: int32): Atom {
    NewAtom(w.position, w.address, isotope, token, amount, w.batchId, "walletBundle", bundle, meta, now, index)
  }

  /** initValue; now(k) is the clock reading for the k-th atom. */
  function ValueAtoms(dump: Json -> string, src: WalletView, rec: WalletView, rem: WalletView, value: string,
                      change: int, now: nat -> int64): seq<Atom> {
    [ Debit(src, "V", "", "", UnitsMeta(dump, src.tokenUnits), now(0)),
      Credit(rec, "V", rec.token, value, rec.bundle, UnitsMeta(dump, rec.tokenUnits), now(1), 1),
      Credit(rem, "V", rem.token, ToString(change), rem.bundle, UnitsMeta(dump, rem.tokenUnits), now(2), 2) ]
  }

  /** The index of an atom that comes after k others: C++ int arithmetic. */
  function IndexOf(k: nat): int32 {
    Cast32(k)
  }

  /** The atoms for the first n recipients of initValues; with a token given, of initWithdrawBuffer. */
  function RecipientAtoms(dump: Json -> string, recs: seq<WalletView>, amounts: seq<string>, withdrawn: Option<string>,
                          n: nat, now: nat -> int64): (atoms: seq<Atom>)
    requires n <= |recs| && n <= |amounts|
    ensures |atoms| == n
  {
    seq(n, i requires 0 <= i < n =>
      Credit(recs[i], "V", if withdrawn.Some? then withdrawn.value else recs[i].token, amounts[i], recs[i].bundle,
             if withdrawn.Some? then [] else UnitsMeta(dump, recs[i].tokenUnits), now(i + 1), IndexOf(i + 1)))
  }

  /** initValues */
  function ValuesAtoms(dump: Json -> string, src: WalletView, recs: seq<WalletView>, amounts: seq<string>,
                       rem: WalletView, change: int, now: nat -> int64): seq<Atom>
    requires |recs| <= |amounts|
  {
    [Debit(src, "V", "", "", UnitsMeta(dump, src.tokenUnits), now(0))]
    + RecipientAtoms(dump, recs, amounts, None, |recs|, now)
    + [Credit(rem, "V", rem.token, ToString(change), rem.bundle, UnitsMeta(dump, rem.tokenUnits), now(|recs| + 1),
              IndexOf(|recs| + 1))]
  }

  /** std::map assignment into a JSON object kept in key order. */
  function Put(fields: seq<(string, Json)>, key: string, value: Json): seq<(string, Json)> {
    if fields == [] then [(key, value)]
    else if fields[0].0 == key then [(key, value)] + fields[1..]
    else if Precedes(key, fields[0].0) then [(key, value)] + fields
    else [fields[0]] + Put(fields[1..], key, value)
  }

  predicate Precedes(a: string, b: string) {
    b != "" && (a == "" || a[0] < b[0] || (a[0] == b[0] && Precedes(a[1..], b[1..])))
  }

  function RatesObject(rates: seq<(string, string)>): seq<(string, Json)> {
    if rates == [] then [] else Put(RatesObject(rates[..|rates| - 1]), rates[|rates| - 1].0, JStr(rates[|rates| - 1].1))
  }

  function RatesMeta(dump: Json -> string, rates: seq<(string, string)>): seq<(string, string)> {
    if rates == [] then [] else [("tradeRates", dump(JObj(RatesObject(rates))))]
  }

  /** initDepositBuffer: buffer and remainder atoms both name the source's bundle. */
  function DepositAtoms(dump: Json -> string, src: WalletView, buf: WalletView, rem: WalletView, amount: string,
                        rates: seq<(string, string)>, change: int, now: nat -> int64): seq<Atom> {
    [ Debit(src, "V", "", "", [], now(0)),
      Credit(buf, "B", buf.token, amount, src.bundle, RatesMeta(dump, rates), now(1), 1),
      Credit(rem, "V", rem.token, ToString(change), src.bundle, [], now(2), 2) ]
  }

  /** initWithdrawBuffer */
  function WithdrawAtoms(dump: Json -> string, src: WalletView, recs: seq<WalletView>, amounts: seq<string>,
                         rem: WalletView, change: int, now: nat -> int64): seq<Atom>
    requires |recs| <= |amounts|
  {
    [Debit(src, "B", "walletBundle", src.bundle, UnitsMeta(dump, src.tokenUnits), now(0))]
    + RecipientAtoms(dump, recs, amounts, Some(src.token), |recs|, now)
    + [Credit(rem, "B", rem.token, ToString(change), rem.bundle, [], now(|recs| + 1), IndexOf(|recs| + 1))]
  }

  /** The meta of the new unit: one unit that lists the triples of the fused ones. */
  function FusionMeta(dump: Json -> string, fused: seq<TokenUnit>, newId: string): seq<(string, string)> {
    [("tokenUnits", dump(JArr([JArr([JStr(newId), JStr(newId), JObj([("fusedTokenUnits", UnitTriples(fused))])])])))]
  }

  /** initTokenFusion; newBatch(k) is the k-th random batch id, used when the source has one. */
  function FusionAtoms(dump: Json -> string, src: WalletView, rec: WalletView, rem: WalletView, ids: seq<string>,
                       newId: string, fused: seq<TokenUnit>, balance: int, newBatch: nat -> string, now: nat -> int64)
    : seq<Atom>
    requires |fused| >= 2
  {
    [ Debit(src, "V", "", "", UnitsMeta(dump, Listed(src.tokenUnits, ids)), now(0)),
      NewAtom("", "", "V", src.token, ToString(|fused| - 1), if src.batchId != "" then newBatch(0) else "",
              "walletBundle", ZERO_BUNDLE, UnitsMeta(dump, fused[..|fused| - 1]), now(1), 1),
      NewAtom(rec.position, rec.address, "F", src.token, "1", if src.batchId != "" then newBatch(1) else "",
              "walletBundle", rec.bundle, FusionMeta(dump, fused, newId), now(2), 2),
      NewAtom(rem.position, rem.address, "V", src.token, ToString(balance - |fused|), src.batchId, "walletBundle",
              src.bundle, UnitsMeta(dump, Unlisted(src.tokenUnits, ids)), now(3), 3) ]
  }

  // ----- what the builders read before they can push their last atom

  /** The change of initValue. */
  function Change32(balance: string, value: string): Result<int> {
    var b :- Stoi(balance);
    var v :- Stoi(value);
    Ok(b - v)
  }

  /** The change of initDepositBuffer. */
  function Change64(balance: string, value: string): Result<int> {
    var b :- Stoll(balance);
    var v :- Stoll(value);
    Ok(b - v)
  }

  /** How many amounts come before the first one that std::stoll rejects. */
  function Readable(texts: seq<string>): (n: nat)
    ensures n <= |texts|
  {
    if texts == [] then 0
    else
      var before := Readable(texts[..|texts| - 1]);
      if before == |texts| - 1 && Stoll(texts[before]).Ok? then |texts| else before
  }

  function TotalOf(texts: seq<string>): int
    requires Readable(texts) == |texts|
  {
    if texts == [] then 0 else TotalOf(texts[..|texts| - 1]) + Stoll(texts[|texts| - 1]).value
  }

  /** The amounts before the first that is rejected, and that one. */
  lemma {:induction false} ReadableMeaning(texts: seq<string>)
    ensures forall i :: 0 <= i < Readable(texts) ==> Stoll(texts[i]).Ok?
    ensures Readable(texts) < |texts| ==> Stoll(texts[Readable(texts)]).Err?
  {
    hide Stoll;
    if texts != [] {
      ReadableMeaning(texts[..|texts| - 1]);
    }
  }

  lemma ReadableStep(texts: seq<string>, n: nat)
    requires n < |texts| && Readable(texts[..n]) == n
    ensures Readable(texts[..n + 1]) == if Stoll(texts[n]).Ok? then n + 1 else n
    ensures Stoll(texts[n]).Ok? ==> TotalOf(texts[..n + 1]) == TotalOf(texts[..n]) + Stoll(texts[n]).value
  {
    assert texts[..n + 1][..n] == texts[..n];
  }

  lemma {:induction false} ReadableStops(texts: seq<string>, n: nat)
    requires n < |texts| && Readable(texts[..n + 1]) == n
    ensures Readable(texts) == n
    decreases |texts|
  {
    if n + 1 < |texts| {
      var t := |texts| - 1;
      assert texts[..t][..n + 1] == texts[..n + 1];
      ReadableStops(texts[..t], n);
    } else {
      assert texts[..n + 1] == texts;
    }
  }

  /** No running total leaves the range of a long long: the source adds without a check. */
  predicate TotalsFit(texts: seq<string>) {
    forall n :: 0 <= n <= |texts| && Readable(texts[..n]) == n ==> LONG_MIN <= TotalOf(texts[..n]) <= LONG_MAX
  }

  /** How a builder with a list of amounts ends: the number of recipients it pushed an atom for, and the change or the
      error. */
  datatype Payout = Payout(pushed: nat, change: Result<int>)

  function PayoutOf(balance: string, texts: seq<string>): (p: Payout)
    ensures p.pushed <= |texts| && (p.change.Ok? ==> p.pushed == |texts|)
  {
    var n := Readable(texts);
    if n < |texts| then Payout(n, match Stoll(texts[n]) case Ok(_) => Err(InvalidArgument) case Err(e) => Err(e))
    else
      match Stoll(balance)
      case Err(e) => Payout(n, Err(e))
      case Ok(b) => Payout(n, Ok(b - TotalOf(texts)))
  }

  lemma PayoutIs(balance: string, texts: seq<string>)
    ensures Readable(texts) < |texts| && Stoll(texts[Readable(texts)]).Err? ==>
      PayoutOf(balance, texts) == Payout(Readable(texts), Err(Stoll(texts[Readable(texts)]).error))
    ensures Readable(texts) == |texts| && Stoll(balance).Err? ==>
      PayoutOf(balance, texts) == Payout(|texts|, Err(Stoll(balance).error))
    ensures Readable(texts) == |texts| && Stoll(balance).Ok? ==>
      PayoutOf(balance, texts) == Payout(|texts|, Ok(Stoll(balance).value - TotalOf(texts)))
  {
    hide Stoll, TotalOf, Readable;
  }

  /** What initTokenFusion needs before it changes anything: the fused units and the balance. */
  function FusionPlan(source: WalletView, ids: seq<string>, newId: string): (r: Result<(seq<TokenUnit>, int64)>)
    ensures r.Ok? ==> |r.value.0| == |ids| >= 2
  {
    if |ids| < 2 then Err(KnishIOFailure)
    else
      var fused :- Resolve(source.tokenUnits, ids);
      if FindUnit(source.tokenUnits, newId).Some? then Err(KnishIOFailure)
      else
        var balance :- Stoll(source.balance);
        Ok((fused, balance))
  }

  lemma NothingRead()
    ensures Readable([]) == 0 && TotalOf([]) == 0
  {
  }

  // ----- sums

  /** The number that an atom's value stands for. */
  function Amount(a: Atom): int {
    match Parse(a.value)
    case None => 0
    case Some(n) => n
  }

  function AmountSum(atoms: seq<Atom>): int {
    if atoms == [] then 0 else AmountSum(atoms[..|atoms| - 1]) + Amount(atoms[|atoms| - 1])
  }

  lemma AmountSumSnoc(atoms: seq<Atom>, a: Atom)
    ensures AmountSum(atoms + [a]) == AmountSum(atoms) + Amount(a)
  {
    assert (atoms + [a])[..|atoms|] == atoms;
  }

  lemma {:induction false} AmountSumConcat(xs: seq<Atom>, ys: seq<Atom>)
    ensures AmountSum(xs + ys) == AmountSum(xs) + AmountSum(ys)
  {
    if ys == [] {
      assert xs + ys == xs;
    } else {
      var t, y := ys[..|ys| - 1], ys[|ys| - 1];
      assert xs + ys == (xs + t) + [y];
      AmountSumSnoc(xs + t, y);
      AmountSumConcat(xs, t);
    }
  }

  /** The value is a decimal integer in the exact range, as to_string prints it, or such a natural number behind a
      minus. */
  predicate IntegerText(s: string) {
    exists n: nat :: n <= EXACT && (s == NatText(n) || s == "-" + NatText(n))
  }

  lemma NatParses(n: nat)
    ensures Parse(NatText(n)) == Some(n) && Parse("-" + NatText(n)) == Some(-(n as int))
  {
    NatTextMeaning(n);
    hide NatText, Parse, Number;
    ParseDigits(NatText(n));
  }

  lemma IntegerReads(fl: Floats, s: string)
    requires ReadsIntegers(fl) && IntegerText(s)
    ensures Parse(s).Some? && -EXACT <= Parse(s).value <= EXACT
    ensures fl.strtod(s) == fl.stold(s) == Some(Real(Parse(s).value))
  {
    hide NatText, Parse, Real;
    var n: nat :| n <= EXACT && (s == NatText(n) || s == "-" + NatText(n));
    NatParses(n);
  }

  lemma ToStringIsInteger(n: int)
    requires -EXACT <= n <= EXACT
    ensures IntegerText(ToString(n)) && Parse(ToString(n)) == Some(n)
  {
    ParseToString(n);
    var m: nat := if n < 0 then -n else n;
    assert m <= EXACT;
  }
}
