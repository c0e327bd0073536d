/** The conservation checks: verifyTokenIsotopeV and verifyCrossIsotopeConservation. */
module Conservation {
  import opened Common
  import opened Decimal
  import opened Atom

  /** A floating-point value; both zeros are Finite(0.0). */
  datatype Float = Finite(v: real) | PositiveInfinity | NegativeInfinity | NotANumber {
    /** Comparison with zero: never true of a value that is not a number. */
    predicate IsNegative() {
      NegativeInfinity? || (Finite? && v < 0.0)
    }

    /** The magnitude is below 10^-9. */
    predicate IsTiny() {
      Finite? && -0.000000001 < v < 0.000000001
    }
  }

  const ZERO: Float := Finite(0.0)

  /** The tolerance of the cross check is a billionth, on finite sums only. */
  lemma Tolerance(x: Float)
    ensures x.IsTiny() <==> x.Finite? && -1.0 < x.v * 1000000000.0 < 1.0
  {
  }

  /** The floating-point operations of the checks: strtod gives nothing unless it consumes the whole text, stold gives
      nothing where it throws, add is floating-point addition. */
  datatype Floats = Floats(
    strtod: string -> Option<Float>, stold: string -> Option<Float>, add: (Float, Float) -> Float)

  const EXACT: int := 0x20_0000_0000_0000  // 2^53

  function Real(n: int): Float {
    Finite(n as real)
  }

  predicate Exact(n: int) {
    -EXACT <= n <= EXACT
  }

  /** An integer that a double holds exactly. */
  ghost predicate Small(x: Float) {
    exists n: int :: Exact(n) && x == Real(n)
  }

  /** Addition of exactly held integers with an exactly held sum does not round. */
  ghost predicate ExactAdd(fl: Floats) {
    forall m: int, n: int :: Exact(m) && Exact(n) && Exact(m + n) ==> fl.add(Real(m), Real(n)) == Real(m + n)
  }

  /** Both parsers read decimal integers in the exact range, with or without a minus sign. */
  ghost predicate ReadsIntegers(fl: Floats) {
    forall n: nat :: n <= EXACT ==>
      && fl.strtod(NatText(n)) == fl.stold(NatText(n)) == Some(Real(n))
      && fl.strtod("-" + NatText(n)) == fl.stold("-" + NatText(n)) == Some(Real(-(n as int)))
  }

  // ----- the V check

  /** The values of a token's V atoms, in order. */
  function VValues(atoms: seq<Atom>, token: string): seq<string> {
    if atoms == [] then []
    else
      var a := atoms[|atoms| - 1];
      VValues(atoms[..|atoms| - 1], token) + if a.isotope == "V" && a.token == token then [a.value] else []
  }

  /** The running floating-point sum; none when a value does not parse. */
  function FloatSum(fl: Floats, values: seq<string>): Option<Float> {
    if values == [] then Some(ZERO)
    else
      match FloatSum(fl, values[..|values| - 1])
      case None => None
      case Some(sum) =>
        match fl.strtod(values[|values| - 1])
        case None => None
        case Some(v) => Some(fl.add(sum, v))
  }

  /** Atom i is a V atom and the first atom of any isotope with its token: the check looks at such a token and no
      other. */
  predicate Heads(atoms: seq<Atom>, i: nat) {
    i < |atoms| && atoms[i].isotope == "V" && forall j :: 0 <= j < i ==> atoms[j].token != atoms[i].token
  }

  /** The sum for the token of atom i. */
  function TokenSum(fl: Floats, atoms: seq<Atom>, i: nat): Option<Float>
    requires i < |atoms|
  {
    FloatSum(fl, VValues(atoms, atoms[i].token))
  }

  /** Atom i heads no token, or a token that parses and sums to zero. */
  predicate Balanced(fl: Floats, atoms: seq<Atom>, i: nat)
    requires i < |atoms|
  {
    Heads(atoms, i) ==> TokenSum(fl, atoms, i) == Some(ZERO)
  }

  /** The outcome of the check from atom i on. */
  function VScan(fl: Floats, atoms: seq<Atom>, i: nat): Result<bool>
    requires i <= |atoms|
    decreases |atoms| - i
  {
    if i == |atoms| then Ok(true)
    else if !Heads(atoms, i) then VScan(fl, atoms, i + 1)
    else
      match TokenSum(fl, atoms, i)
      case None => Err(RuntimeFailure)
      case Some(sum) => if sum != ZERO then Ok(false) else VScan(fl, atoms, i + 1)
  }

  /** Every token that the check looks at parses and sums to zero. */
  predicate CheckedTokensBalance(fl: Floats, atoms: seq<Atom>) {
    forall i :: 0 <= i < |atoms| ==> Balanced(fl, atoms, i)
  }

  lemma {:induction false} VScanFrom(fl: Floats, atoms: seq<Atom>, i: nat)
    requires i <= |atoms|
    ensures VScan(fl, atoms, i) == Ok(true) <==> forall j :: i <= j < |atoms| ==> Balanced(fl, atoms, j)
    decreases |atoms| - i
  {
    if i < |atoms| {
      hide Heads, TokenSum;
      VScanFrom(fl, atoms, i + 1);
      if Balanced(fl, atoms, i) {
        assert VScan(fl, atoms, i) == VScan(fl, atoms, i + 1);
      }
    }
  }

  function IsCross(a: Atom): bool {
    a.isotope == "B" || a.isotope == "F"
  }

  predicate HasCross(atoms: seq<Atom>) {
    exists i :: 0 <= i < |atoms| && IsCross(atoms[i])
  }

  /** verifyTokenIsotopeV */
  function TokenIsotopeV(fl: Floats, atoms: seq<Atom>, hash: string): Result<bool> {
    if atoms == [] || hash == "" then Ok(false)
    else if HasCross(atoms) then Ok(CrossCheck(fl, atoms))
    else VScan(fl, atoms, 0)
  }

  /** Without B and F atoms the check returns true exactly when every token whose first atom is a V atom balances. */
  lemma VCheckMeaning(fl: Floats, atoms: seq<Atom>, hash: string)
    requires atoms != [] && hash != "" && !HasCross(atoms)
    ensures TokenIsotopeV(fl, atoms, hash) == Ok(true) <==> CheckedTokensBalance(fl, atoms)
  {
    VScanFrom(fl, atoms, 0);
  }

  /** Without atoms or without a hash there is nothing to accept; and the V check has no tolerance. */
  lemma VCheckIsStrict(fl: Floats, a: Atom, hash: string)
    ensures TokenIsotopeV(fl, [], hash) == TokenIsotopeV(fl, [a], "") == Ok(false)
    ensures a.isotope == "V" && hash != "" ==>
      TokenIsotopeV(fl, [a], hash) ==
      match fl.strtod(a.value)
      case None => Err(RuntimeFailure)
      case Some(x) => Ok(fl.add(ZERO, x) == ZERO)
  {
    if a.isotope == "V" && hash != "" {
      assert [a][..0] == [] && VValues([a], a.token) == [a.value];
      assert [a.value][..0] == [] && FloatSum(fl, []) == Some(ZERO);
      assert Heads([a], 0) && !HasCross([a]);
      assert VScan(fl, [a], 1) == Ok(true);
    }
  }

  /** Atom i heads a token with a value that does not parse. */
  predicate Unreadable(fl: Floats, atoms: seq<Atom>, i: nat)
    requires i < |atoms|
  {
    Heads(atoms, i) && TokenSum(fl, atoms, i).None?
  }

  /** It throws exactly when a checked token has a value that does not parse and all checked tokens before it
      balance. */
  lemma {:induction false} VScanThrows(fl: Floats, atoms: seq<Atom>, i: nat)
    requires i <= |atoms|
    ensures VScan(fl, atoms, i).Err? <==>
      exists j :: i <= j < |atoms| && Unreadable(fl, atoms, j) && forall k :: i <= k < j ==> Balanced(fl, atoms, k)
    decreases |atoms| - i
  {
    if i < |atoms| {
      hide Heads, TokenSum;
      VScanThrows(fl, atoms, i + 1);
      if Unreadable(fl, atoms, i) {
        assert VScan(fl, atoms, i).Err?;
      } else if !Balanced(fl, atoms, i) {
        assert VScan(fl, atoms, i) == Ok(false);
      } else {
        assert VScan(fl, atoms, i) == VScan(fl, atoms, i + 1);
        if VScan(fl, atoms, i).Err? {
          var j :| i + 1 <= j < |atoms| && Unreadable(fl, atoms, j) &&
                   forall k :: i + 1 <= k < j ==> Balanced(fl, atoms, k);
          assert forall k :: i <= k < j ==> k == i || Balanced(fl, atoms, k);
        }
      }
    }
  }

  /** The integer that was read; 0 for anything else. */
  ghost function Whole(x: Option<Float>): int {
    if x.Some? && Small(x.value) then (var n: int :| Exact(n) && x.value == Real(n); n) else 0
  }

  /** The integer that a text is read as; 0 for any other text. */
  ghost function Integer(fl: Floats, value: string): int {
    Whole(fl.strtod(value))
  }

  /** The exact sum of integer values. */
  ghost function ExactSum(fl: Floats, values: seq<string>): int {
    if values == [] then 0 else ExactSum(fl, values[..|values| - 1]) + Integer(fl, values[|values| - 1])
  }

  /** All values parse, to integers, and every partial sum stays within 2^53. */
  ghost predicate ExactlySummable(fl: Floats, values: seq<string>) {
    && (forall i :: 0 <= i < |values| ==> fl.strtod(values[i]).Some? && Small(fl.strtod(values[i]).value))
    && (forall n :: 0 <= n <= |values| ==> Exact(ExactSum(fl, values[..n])))
  }

  lemma RealInjective(m: int, n: int)
    requires Real(m) == Real(n)
    ensures m == n
  {
  }

  lemma {:induction false} FloatSumExact(fl: Floats, values: seq<string>)
    requires ExactAdd(fl) && ExactlySummable(fl, values)
    ensures FloatSum(fl, values) == Some(Real(ExactSum(fl, values)))
  {
    if values == [] {
      RealZero();
    } else {
      var t, last := values[..|values| - 1], values[|values| - 1];
      SummablePrefix(fl, values);
      FloatSumExact(fl, t);
      IntegerIs(fl, last);
      hide Integer, Small, Exact, Real, ExactlySummable;
      assert fl.add(Real(ExactSum(fl, t)), Real(Integer(fl, last))) == Real(ExactSum(fl, t) + Integer(fl, last));
    }
  }

  lemma IntegerIs(fl: Floats, value: string)
    requires fl.strtod(value).Some? && Small(fl.strtod(value).value)
    ensures fl.strtod(value) == Some(Real(Integer(fl, value))) && Exact(Integer(fl, value))
  {
  }

  /** All but the last value are summable, and so is the last. */
  lemma SummablePrefix(fl: Floats, values: seq<string>)
    requires ExactlySummable(fl, values) && values != []
    ensures var t, last := values[..|values| - 1], values[|values| - 1];
            && ExactlySummable(fl, t) && Exact(ExactSum(fl, t)) && Exact(ExactSum(fl, values))
            && fl.strtod(last).Some? && Small(fl.strtod(last).value)
  {
    hide Small, Exact, ExactSum;
    var t := values[..|values| - 1];
    forall n | 0 <= n <= |t|
      ensures Exact(ExactSum(fl, t[..n]))
    {
      assert t[..n] == values[..n];
    }
    assert values[..|values|] == values && t[..|t|] == t;
  }

  lemma RealZero()
    ensures Real(0) == ZERO
  {
  }

  /** Every token's first atom, if it has V atoms at all, is one of them. */
  predicate TokensStartWithV(atoms: seq<Atom>) {
    forall i :: 0 <= i < |atoms| && atoms[i].isotope == "V" ==> Headed(atoms, i)
  }

  /** The first atom with the token of atom i is a V atom, and not behind it. */
  predicate Headed(atoms: seq<Atom>, i: nat)
    requires i < |atoms|
  {
    exists h :: 0 <= h <= i && Heads(atoms, h) && atoms[h].token == atoms[i].token
  }

  /** The V values of every token in the molecule sum to zero. */
  ghost predicate Conserves(fl: Floats, atoms: seq<Atom>) {
    forall i :: 0 <= i < |atoms| && atoms[i].isotope == "V" ==> ExactSum(fl, VValues(atoms, atoms[i].token)) == 0
  }

  /** The V values of every token are integers with exact partial sums. */
  ghost predicate Summable(fl: Floats, atoms: seq<Atom>) {
    forall i :: 0 <= i < |atoms| && atoms[i].isotope == "V" ==> ExactlySummable(fl, VValues(atoms, atoms[i].token))
  }

  /** On integer values the check is exactly conservation per token, provided every V token starts with a V atom. */
  lemma VCheckIsConservation(fl: Floats, atoms: seq<Atom>, hash: string)
    requires atoms != [] && hash != "" && !HasCross(atoms)
    requires ExactAdd(fl) && Summable(fl, atoms) && TokensStartWithV(atoms)
    ensures TokenIsotopeV(fl, atoms, hash) == Ok(true) <==> Conserves(fl, atoms)
  {
    VCheckMeaning(fl, atoms, hash);
    hide FloatSum, ExactSum, VValues, ExactlySummable, Real, TokenIsotopeV, HasCross, ExactAdd;
    forall i | 0 <= i < |atoms| && atoms[i].isotope == "V"
      ensures TokenSum(fl, atoms, i) == Some(ZERO) <==> ExactSum(fl, VValues(atoms, atoms[i].token)) == 0
    {
      FloatSumExact(fl, VValues(atoms, atoms[i].token));
      ZeroSum(ExactSum(fl, VValues(atoms, atoms[i].token)));
    }
    if CheckedTokensBalance(fl, atoms) {
      forall i | 0 <= i < |atoms| && atoms[i].isotope == "V"
        ensures ExactSum(fl, VValues(atoms, atoms[i].token)) == 0
      {
        var h :| 0 <= h <= i && Heads(atoms, h) && atoms[h].token == atoms[i].token;
        assert Balanced(fl, atoms, h);
      }
    }
  }

  lemma ZeroSum(n: int)
    ensures Real(n) == ZERO <==> n == 0
  {
  }

  // ----- the condition is exact

  /** The atoms with other values. */
  function WithValues(atoms: seq<Atom>, values: seq<string>): (r: seq<Atom>)
    requires |values| == |atoms|
    ensures |r| == |atoms|
  {
    seq(|atoms|, i requires 0 <= i < |atoms| => atoms[i].(value := values[i]))
  }

  /** Whatever integers the atoms carry, the check says whether they conserve. */
  ghost predicate ChecksConservation(fl: Floats, atoms: seq<Atom>, hash: string) {
    forall values: seq<string> :: |values| == |atoms| && Summable(fl, WithValues(atoms, values)) ==>
      (TokenIsotopeV(fl, WithValues(atoms, values), hash) == Ok(true) <==> Conserves(fl, WithValues(atoms, values)))
  }

  /** Isotopes and tokens do not depend on the values. */
  lemma SameShape(atoms: seq<Atom>, values: seq<string>)
    requires |values| == |atoms|
    ensures HasCross(WithValues(atoms, values)) <==> HasCross(atoms)
    ensures TokensStartWithV(WithValues(atoms, values)) <==> TokensStartWithV(atoms)
    ensures forall i: nat :: Heads(WithValues(atoms, values), i) <==> Heads(atoms, i)
  {
    var w := WithValues(atoms, values);
    forall i | 0 <= i < |atoms|
      ensures w[i].isotope == atoms[i].isotope && w[i].token == atoms[i].token && IsCross(w[i]) == IsCross(atoms[i])
    {
    }
    hide WithValues;
    forall i: nat
      ensures Heads(w, i) <==> Heads(atoms, i)
    {
    }
    hide Heads;
    forall i | 0 <= i < |atoms|
      ensures Headed(w, i) <==> Headed(atoms, i)
    {
    }
  }

  /** "1" at one place and "0" everywhere else. */
  function OneAt(n: nat, i: nat): (values: seq<string>)
    ensures |values| == n
  {
    seq(n, k => Bit(k == i))
  }

  function Bit(one: bool): string {
    if one then "1" else "0"
  }

  lemma ReadsBits(fl: Floats)
    requires ReadsIntegers(fl)
    ensures fl.strtod("0") == Some(Real(0)) && fl.strtod("1") == Some(Real(1))
    ensures Small(Real(0)) && Small(Real(1)) && Integer(fl, "0") == 0 && Integer(fl, "1") == 1
  {
    assert NatText(0) == "0" && NatText(1) == "1";
    assert Exact(0) && Exact(1);
    hide NatText;
    RealInjective(Integer(fl, "0"), 0);
    RealInjective(Integer(fl, "1"), 1);
  }

  lemma OneAtAtom(atoms: seq<Atom>, i: nat, k: nat)
    requires i < |atoms| && k < |atoms|
    ensures var a := WithValues(atoms, OneAt(|atoms|, i))[k];
            && a.isotope == atoms[k].isotope && a.token == atoms[k].token && a.value == Bit(k == i)
  {
  }

  /** The V values of a token among the first n atoms, when only atom i carries "1". */
  function Ones(atoms: seq<Atom>, i: nat, n: nat, token: string): seq<string>
    requires n <= |atoms|
  {
    VValues(WithValues(atoms, OneAt(|atoms|, i))[..n], token)
  }

  lemma OnesStep(atoms: seq<Atom>, i: nat, n: nat, token: string)
    requires i < |atoms| && n < |atoms|
    ensures Ones(atoms, i, n + 1, token)
         == if atoms[n].isotope == "V" && atoms[n].token == token then Ones(atoms, i, n, token) + [Bit(n == i)]
            else Ones(atoms, i, n, token)
  {
    hide VValues, WithValues, OneAt, Bit;
    OneAtAtom(atoms, i, n);
    VValuesStep(WithValues(atoms, OneAt(|atoms|, i)), n, token);
  }

  /** They are zeros, and the one if the token is that atom's. */
  lemma {:induction false} OneSums(fl: Floats, atoms: seq<Atom>, i: nat, n: nat, token: string)
    requires ReadsIntegers(fl) && i < |atoms| && atoms[i].isotope == "V" && n <= |atoms|
    ensures ExactSum(fl, Ones(atoms, i, n, token)) == (if i < n && atoms[i].token == token then 1 else 0)
    ensures ExactlySummable(fl, Ones(atoms, i, n, token))
  {
    hide *;
    if n == 0 {
      NothingSummable(fl, atoms, i, token);
    } else {
      OneSums(fl, atoms, i, n - 1, token);
      OnesStep(atoms, i, n - 1, token);
      if atoms[n - 1].isotope == "V" && atoms[n - 1].token == token {
        BitSnoc(fl, Ones(atoms, i, n - 1, token), n - 1 == i);
      }
    }
  }

  lemma NothingSummable(fl: Floats, atoms: seq<Atom>, i: nat, token: string)
    ensures ExactSum(fl, Ones(atoms, i, 0, token)) == 0 && ExactlySummable(fl, Ones(atoms, i, 0, token))
  {
    assert Ones(atoms, i, 0, token) == [];
  }

  lemma BitSnoc(fl: Floats, values: seq<string>, one: bool)
    requires ReadsIntegers(fl) && ExactlySummable(fl, values) && 0 <= ExactSum(fl, values) <= 1
    requires one ==> ExactSum(fl, values) == 0
    ensures ExactlySummable(fl, values + [Bit(one)])
    ensures ExactSum(fl, values + [Bit(one)]) == ExactSum(fl, values) + if one then 1 else 0
  {
    ReadsBits(fl);
    hide Integer, Small, ReadsIntegers, Real, ExactlySummable, ExactSum;
    SummableSnoc(fl, values, Bit(one));
  }

  lemma SummableSnoc(fl: Floats, values: seq<string>, v: string)
    requires ExactlySummable(fl, values) && fl.strtod(v).Some? && Small(fl.strtod(v).value)
    ensures ExactSum(fl, values + [v]) == ExactSum(fl, values) + Integer(fl, v)
    ensures Exact(ExactSum(fl, values + [v])) ==> ExactlySummable(fl, values + [v])
  {
    var all := values + [v];
    assert all[..|values|] == values && all[..|all|] == all;
    if Exact(ExactSum(fl, all)) {
      forall n | 0 <= n <= |all|
        ensures Exact(ExactSum(fl, all[..n]))
      {
        if n <= |values| {
          assert all[..n] == values[..n];
        }
      }
    }
  }

  /** Where a V atom's token does not start with a V atom, "1" there and "0" elsewhere passes without conserving. */
  lemma UncheckedToken(fl: Floats, atoms: seq<Atom>, i: nat, hash: string)
    requires ReadsIntegers(fl) && ExactAdd(fl) && hash != "" && !HasCross(atoms)
    requires i < |atoms| && atoms[i].isotope == "V" && !Headed(atoms, i)
    ensures var w := WithValues(atoms, OneAt(|atoms|, i));
            Summable(fl, w) && TokenIsotopeV(fl, w, hash) == Ok(true) && !Conserves(fl, w)
  {
    var w := WithValues(atoms, OneAt(|atoms|, i));
    SameShape(atoms, OneAt(|atoms|, i));
    VCheckMeaning(fl, w, hash);
    forall k: nat | k < |w|
      ensures ExactSum(fl, VValues(w, w[k].token)) == (if atoms[i].token == w[k].token then 1 else 0)
      ensures ExactlySummable(fl, VValues(w, w[k].token)) && Balanced(fl, w, k)
    {
      OneBalances(fl, atoms, i, k);
    }
    assert w[i].isotope == "V" && w[i].token == atoms[i].token;
    hide *;
  }

  lemma OneBalances(fl: Floats, atoms: seq<Atom>, i: nat, k: nat)
    requires ReadsIntegers(fl) && ExactAdd(fl) && k < |atoms|
    requires i < |atoms| && atoms[i].isotope == "V" && !Headed(atoms, i)
    ensures var w := WithValues(atoms, OneAt(|atoms|, i));
            && ExactSum(fl, VValues(w, w[k].token)) == (if atoms[i].token == w[k].token then 1 else 0)
            && ExactlySummable(fl, VValues(w, w[k].token)) && Balanced(fl, w, k)
  {
    hide VValues, ExactSum, ExactlySummable, FloatSum, ReadsIntegers, ExactAdd, Real, Heads, Headed, OneAt;
    var w := WithValues(atoms, OneAt(|atoms|, i));
    assert w[..|w|] == w && w[k].token == atoms[k].token;
    OneSums(fl, atoms, i, |w|, w[k].token);
    if Heads(w, k) {
      SameShape(atoms, OneAt(|atoms|, i));
      HeadsOtherToken(atoms, i, k);
      FloatSumExact(fl, VValues(w, w[k].token));
      ZeroSum(0);
    }
  }

  /** No V atom heads the token of an atom that is not headed. */
  lemma HeadsOtherToken(atoms: seq<Atom>, i: nat, k: nat)
    requires i < |atoms| && !Headed(atoms, i) && Heads(atoms, k)
    ensures atoms[k].token != atoms[i].token
  {
  }

  /** The proviso is exact: for a molecule without B and F atoms the check is conservation, for all integers it may
      carry, if and only if every V token starts with a V atom. */
  lemma VCheckExact(fl: Floats, atoms: seq<Atom>, hash: string)
    requires ReadsIntegers(fl) && ExactAdd(fl) && atoms != [] && hash != "" && !HasCross(atoms)
    ensures ChecksConservation(fl, atoms, hash) <==> TokensStartWithV(atoms)
  {
    hide Summable, Conserves, TokenIsotopeV, HasCross, WithValues, OneAt, Headed, ReadsIntegers, ExactAdd;
    if TokensStartWithV(atoms) {
      forall values: seq<string> | |values| == |atoms| && Summable(fl, WithValues(atoms, values))
        ensures TokenIsotopeV(fl, WithValues(atoms, values), hash) == Ok(true)
             <==> Conserves(fl, WithValues(atoms, values))
      {
        SameShape(atoms, values);
        VCheckIsConservation(fl, WithValues(atoms, values), hash);
      }
    } else {
      var i :| 0 <= i < |atoms| && atoms[i].isotope == "V" && !Headed(atoms, i);
      UncheckedToken(fl, atoms, i, hash);
      assert |OneAt(|atoms|, i)| == |atoms|;
    }
  }

  lemma VValuesStep(atoms: seq<Atom>, i: nat, token: string)
    requires i < |atoms|
    ensures VValues(atoms[..i + 1], token)
         == if atoms[i].isotope == "V" && atoms[i].token == token then VValues(atoms[..i], token) + [atoms[i].value]
            else VValues(atoms[..i], token)
  {
    assert atoms[..i + 1][..i] == atoms[..i];
  }

  lemma FloatSumStep(fl: Floats, values: seq<string>, v: string)
    ensures FloatSum(fl, values + [v])
         == match FloatSum(fl, values)
            case None => None
            case Some(sum) => (match fl.strtod(v) case None => None case Some(x) => Some(fl.add(sum, x)))
  {
    assert (values + [v])[..|values|] == values;
  }

  // ----- the cross-isotope check

  predicate Participates(a: Atom) {
    (IsCross(a) || a.isotope == "V") && a.value != ""
  }

  /** The meta shape of B and F atoms, values that parse, and no negative F value. */
  predicate CrossWellFormed(fl: Floats, a: Atom) {
    && (IsCross(a) ==> a.metaType == "walletBundle" && a.metaId != "")
    && (Participates(a) ==> fl.stold(a.value).Some? && (a.isotope == "F" ==> !fl.stold(a.value).value.IsNegative()))
  }

  function Parsed(x: Option<Float>): Float {
    match x
    case None => ZERO
    case Some(v) => v
  }

  function CrossSum(fl: Floats, atoms: seq<Atom>): Float {
    if atoms == [] then ZERO
    else
      var a := atoms[|atoms| - 1];
      var before := CrossSum(fl, atoms[..|atoms| - 1]);
      if Participates(a) then fl.add(before, Parsed(fl.stold(a.value))) else before
  }

  /** verifyCrossIsotopeConservation */
  predicate CrossCheck(fl: Floats, atoms: seq<Atom>) {
    && (forall i :: 0 <= i < |atoms| ==> CrossWellFormed(fl, atoms[i]))
    && (HasCross(atoms) ==> CrossSum(fl, atoms).IsTiny())
  }

  /** Two lists whose atoms differ in nothing but their tokens. */
  predicate SameButTokens(xs: seq<Atom>, ys: seq<Atom>) {
    |xs| == |ys| && forall i :: 0 <= i < |xs| ==> xs[i] == ys[i].(token := xs[i].token)
  }

  lemma {:induction false} CrossSumIgnoresTokens(fl: Floats, xs: seq<Atom>, ys: seq<Atom>)
    requires SameButTokens(xs, ys)
    ensures CrossSum(fl, xs) == CrossSum(fl, ys)
  {
    if xs != [] {
      var t := |xs| - 1;
      CrossSumIgnoresTokens(fl, xs[..t], ys[..t]);
      assert xs[t] == ys[t].(token := xs[t].token);
    }
  }

  /** With a B or F atom the verdict does not depend on the tokens: one token's debit may be another token's credit. */
  lemma CrossIgnoresTokens(fl: Floats, xs: seq<Atom>, ys: seq<Atom>, hash: string)
    requires SameButTokens(xs, ys) && HasCross(xs)
    ensures HasCross(ys) && TokenIsotopeV(fl, xs, hash) == TokenIsotopeV(fl, ys, hash)
  {
    forall i | 0 <= i < |xs|
      ensures IsCross(xs[i]) == IsCross(ys[i]) && CrossWellFormed(fl, xs[i]) == CrossWellFormed(fl, ys[i])
    {
      assert xs[i] == ys[i].(token := xs[i].token);
    }
    CrossSumIgnoresTokens(fl, xs, ys);
    hide IsCross, CrossWellFormed, CrossSum, VScan;
  }

  // ----- when the cross check is conservation

  predicate Moves(a: Atom) {
    IsCross(a) || a.isotope == "V"
  }

  /** The integer that the cross check adds for an atom. */
  ghost function CrossInteger(fl: Floats, a: Atom): int {
    if Participates(a) then Whole(fl.stold(a.value)) else 0
  }

  predicate IsOf(a: Atom, token: Option<string>) {
    token.None? || a.token == token.value
  }

  /** The exact sum over the V, B and F atoms of a token, or of all tokens. */
  ghost function CrossTotal(fl: Floats, atoms: seq<Atom>, token: Option<string>): int {
    if atoms == [] then 0
    else
      var a := atoms[|atoms| - 1];
      CrossTotal(fl, atoms[..|atoms| - 1], token) + if IsOf(a, token) then CrossInteger(fl, a) else 0
  }

  /** An atom whose value is empty or an integer. */
  ghost predicate WholeAtom(fl: Floats, a: Atom) {
    Participates(a) ==> fl.stold(a.value).Some? && Small(fl.stold(a.value).value)
  }

  /** No F atom carries a negative integer. */
  ghost predicate NoNegativeFusion(fl: Floats, atoms: seq<Atom>) {
    forall i :: 0 <= i < |atoms| && atoms[i].isotope == "F" ==> CrossInteger(fl, atoms[i]) >= 0
  }

  /** The V, B and F values are integers with exact partial sums. */
  ghost predicate CrossSummable(fl: Floats, atoms: seq<Atom>) {
    && (forall i :: 0 <= i < |atoms| ==> WholeAtom(fl, atoms[i]))
    && (forall n :: 0 <= n <= |atoms| ==> Exact(CrossTotal(fl, atoms[..n], None)))
  }

  /** The V, B and F values of every token sum to zero. */
  ghost predicate CrossConserves(fl: Floats, atoms: seq<Atom>) {
    forall i :: 0 <= i < |atoms| && Moves(atoms[i]) ==> CrossTotal(fl, atoms, Some(atoms[i].token)) == 0
  }

  /** The meta that the check demands of B and F atoms. */
  predicate CrossShape(atoms: seq<Atom>) {
    forall i :: 0 <= i < |atoms| && IsCross(atoms[i]) ==> atoms[i].metaType == "walletBundle" && atoms[i].metaId != ""
  }

  /** Whatever integers the atoms carry, the check says whether they conserve without a negative F value. */
  ghost predicate CrossChecksConservation(fl: Floats, atoms: seq<Atom>, hash: string) {
    forall values: seq<string> :: |values| == |atoms| && CrossSummable(fl, WithValues(atoms, values)) ==>
      (TokenIsotopeV(fl, WithValues(atoms, values), hash) == Ok(true) <==>
        ConservesUnfused(fl, WithValues(atoms, values)))
  }

  ghost predicate ConservesUnfused(fl: Floats, atoms: seq<Atom>) {
    CrossConserves(fl, atoms) && NoNegativeFusion(fl, atoms)
  }

  /** Every V or B atom has the token of every V, B and F atom. */
  predicate NothingToCross(atoms: seq<Atom>) {
    forall i, j ::
      0 <= i < |atoms| && 0 <= j < |atoms| && Moves(atoms[i]) && Moves(atoms[j]) && atoms[i].isotope != "F" ==>
        atoms[i].token == atoms[j].token
  }

  lemma WholeIs(x: Option<Float>)
    requires x.Some? && Small(x.value)
    ensures x.value == Real(Whole(x)) && Exact(Whole(x))
  {
  }

  lemma RealSign(n: int)
    ensures (Real(n).IsTiny() <==> n == 0) && (Real(n).IsNegative() <==> n < 0)
  {
  }

  lemma CrossPrefix(fl: Floats, atoms: seq<Atom>, n: nat)
    requires CrossSummable(fl, atoms) && n <= |atoms|
    ensures CrossSummable(fl, atoms[..n]) && Exact(CrossTotal(fl, atoms[..n], None))
  {
    hide WholeAtom, CrossTotal, Exact;
    forall k | 0 <= k <= n
      ensures Exact(CrossTotal(fl, atoms[..n][..k], None))
    {
      assert atoms[..n][..k] == atoms[..k];
    }
  }

  lemma {:induction false} CrossSumIsTotal(fl: Floats, atoms: seq<Atom>)
    requires ExactAdd(fl) && CrossSummable(fl, atoms)
    ensures CrossSum(fl, atoms) == Real(CrossTotal(fl, atoms, None))
  {
    if atoms == [] {
      RealZero();
    } else {
      var t := |atoms| - 1;
      CrossPrefix(fl, atoms, t);
      CrossPrefix(fl, atoms, |atoms|);
      assert atoms[..|atoms|] == atoms && WholeAtom(fl, atoms[t]);
      CrossSumIsTotal(fl, atoms[..t]);
      hide CrossSummable, Whole, Small, Exact, Real;
      if Participates(atoms[t]) {
        WholeIs(fl.stold(atoms[t].value));
        assert fl.add(Real(CrossTotal(fl, atoms[..t], None)), Real(CrossInteger(fl, atoms[t])))
            == Real(CrossTotal(fl, atoms[..t], None) + CrossInteger(fl, atoms[t]));
      }
    }
  }

  /** Whatever the values are, the check demands the meta of B and F atoms, values that parse unless they are empty,
      and no negative F value. */
  lemma CrossCheckDemands(fl: Floats, atoms: seq<Atom>)
    requires CrossCheck(fl, atoms)
    ensures CrossShape(atoms)
    ensures forall i :: 0 <= i < |atoms| && Moves(atoms[i]) && atoms[i].value != "" ==>
      fl.stold(atoms[i].value).Some? && (atoms[i].isotope == "F" ==> !fl.stold(atoms[i].value).value.IsNegative())
  {
    hide CrossSum, HasCross, Float.IsNegative, Float.IsTiny;
    assert forall i :: 0 <= i < |atoms| ==> CrossWellFormed(fl, atoms[i]);
  }

  /** A V atom without a value does not count. */
  lemma EmptyIsSkipped(fl: Floats, xs: seq<Atom>, a: Atom, ys: seq<Atom>)
    requires a.isotope == "V" && a.value == ""
    ensures CrossCheck(fl, xs + [a] + ys) <==> CrossCheck(fl, xs + ys)
  {
    assert CrossWellFormed(fl, a) && !IsCross(a);
    hide CrossSum, CrossWellFormed, IsCross, HasCross, Float.IsTiny;
    SumSkipsEmpty(fl, xs, a, ys);
    var l, r := xs + [a] + ys, xs + ys;
    OneMoreMember(xs, a, ys);
    AllWellFormed(fl, l);
    AllWellFormed(fl, r);
    CrossMember(l);
    CrossMember(r);
  }

  lemma OneMoreMember(xs: seq<Atom>, a: Atom, ys: seq<Atom>)
    ensures forall x :: x in xs + [a] + ys <==> x in xs + ys || x == a
  {
    forall x
      ensures x in xs + [a] + ys <==> x in xs + ys || x == a
    {
      assert x in xs + [a] + ys <==> x in xs || x == a || x in ys;
    }
  }

  lemma AllWellFormed(fl: Floats, atoms: seq<Atom>)
    ensures (forall i :: 0 <= i < |atoms| ==> CrossWellFormed(fl, atoms[i]))
       <==> forall x :: x in atoms ==> CrossWellFormed(fl, x)
  {
    hide CrossWellFormed;
    if forall x :: x in atoms ==> CrossWellFormed(fl, x) {
      assert forall i :: 0 <= i < |atoms| ==> atoms[i] in atoms;
    }
  }

  lemma CrossMember(atoms: seq<Atom>)
    ensures HasCross(atoms) <==> exists x :: x in atoms && IsCross(x)
  {
    hide IsCross;
    if x :| x in atoms && IsCross(x) {
      var i :| 0 <= i < |atoms| && atoms[i] == x;
    }
  }

  lemma {:induction false} SumSkipsEmpty(fl: Floats, xs: seq<Atom>, a: Atom, ys: seq<Atom>)
    requires a.isotope == "V" && a.value == ""
    ensures CrossSum(fl, xs + [a] + ys) == CrossSum(fl, xs + ys)
  {
    if ys == [] {
      assert xs + [a] + ys == xs + [a] && xs + ys == xs && (xs + [a])[..|xs|] == xs;
    } else {
      var t := |ys| - 1;
      SumSkipsEmpty(fl, xs, a, ys[..t]);
      assert (xs + [a] + ys)[..|xs| + 1 + t] == xs + [a] + ys[..t] && (xs + ys)[..|xs| + t] == xs + ys[..t];
    }
  }

  /** On integers the check is the demanded meta, no negative F value, and a zero sum over all tokens together. */
  lemma CrossCheckIsTotal(fl: Floats, atoms: seq<Atom>)
    requires ExactAdd(fl) && CrossSummable(fl, atoms) && HasCross(atoms)
    ensures CrossCheck(fl, atoms) <==>
      CrossShape(atoms) && NoNegativeFusion(fl, atoms) && CrossTotal(fl, atoms, None) == 0
  {
    CrossSumIsTotal(fl, atoms);
    RealSign(CrossTotal(fl, atoms, None));
    hide Real, Whole, CrossTotal, CrossSum, HasCross, Small, ExactAdd, Float.IsNegative, Float.IsTiny;
    forall i | 0 <= i < |atoms|
      ensures CrossWellFormed(fl, atoms[i]) <==>
        (IsCross(atoms[i]) ==> atoms[i].metaType == "walletBundle" && atoms[i].metaId != "") &&
        (atoms[i].isotope == "F" ==> CrossInteger(fl, atoms[i]) >= 0)
    {
      assert WholeAtom(fl, atoms[i]);
      if Participates(atoms[i]) {
        WholeIs(fl.stold(atoms[i].value));
        RealSign(CrossInteger(fl, atoms[i]));
      }
    }
    hide CrossWellFormed, CrossInteger, IsCross;
  }

  lemma {:induction false} OneTokenTotal(fl: Floats, atoms: seq<Atom>, token: string)
    requires forall i :: 0 <= i < |atoms| && Moves(atoms[i]) ==> atoms[i].token == token
    ensures CrossTotal(fl, atoms, Some(token)) == CrossTotal(fl, atoms, None)
  {
    if atoms != [] {
      OneTokenTotal(fl, atoms[..|atoms| - 1], token);
    }
  }

  /** No atom carries a negative value: no token's sum exceeds the sum of all. */
  lemma {:induction false} TokenWithinTotal(fl: Floats, atoms: seq<Atom>, token: string)
    requires forall i :: 0 <= i < |atoms| ==> CrossInteger(fl, atoms[i]) >= 0
    ensures 0 <= CrossTotal(fl, atoms, Some(token)) <= CrossTotal(fl, atoms, None)
  {
    hide CrossInteger;
    if atoms != [] {
      TokenWithinTotal(fl, atoms[..|atoms| - 1], token);
    }
  }

  /** If the sum of all is positive, so is that of some token. */
  lemma {:induction false} SomeTokenPositive(fl: Floats, atoms: seq<Atom>) returns (i: nat)
    requires forall k :: 0 <= k < |atoms| ==> CrossInteger(fl, atoms[k]) >= 0
    requires CrossTotal(fl, atoms, None) > 0
    ensures i < |atoms| && Moves(atoms[i]) && CrossTotal(fl, atoms, Some(atoms[i].token)) > 0
  {
    var t := |atoms| - 1;
    if CrossTotal(fl, atoms[..t], None) > 0 {
      i := SomeTokenPositive(fl, atoms[..t]);
    } else {
      i := t;
      TokenWithinTotal(fl, atoms[..t], atoms[t].token);
    }
  }

  /** Where nothing can cross, a zero sum over all tokens is a zero sum of each. */
  lemma NothingCrosses(fl: Floats, atoms: seq<Atom>)
    requires NoNegativeFusion(fl, atoms) && NothingToCross(atoms) && HasCross(atoms)
    ensures CrossTotal(fl, atoms, None) == 0 <==> CrossConserves(fl, atoms)
  {
    var c :| 0 <= c < |atoms| && IsCross(atoms[c]);
    assert Moves(atoms[c]);
    if i :| 0 <= i < |atoms| && Moves(atoms[i]) && atoms[i].isotope != "F" {
      hide CrossTotal;
      OneTokenTotal(fl, atoms, atoms[i].token);
    } else {
      forall k | 0 <= k < |atoms|
        ensures CrossInteger(fl, atoms[k]) >= 0
      {
        assert !Moves(atoms[k]) || atoms[k].isotope == "F";
      }
      hide CrossTotal, CrossInteger, NothingToCross, NoNegativeFusion;
      forall k | 0 <= k < |atoms|
        ensures 0 <= CrossTotal(fl, atoms, Some(atoms[k].token)) <= CrossTotal(fl, atoms, None)
      {
        TokenWithinTotal(fl, atoms, atoms[k].token);
      }
      if CrossTotal(fl, atoms, None) > 0 {
        var k := SomeTokenPositive(fl, atoms);
      }
    }
  }

  /** "-1" at one place, "1" at another and "0" everywhere else. */
  function MovedBetween(n: nat, i: nat, j: nat): (values: seq<string>)
    ensures |values| == n
  {
    seq(n, k => if k == i then "-1" else if k == j then "1" else "0")
  }

  lemma ReadsUnits(fl: Floats)
    requires ReadsIntegers(fl)
    ensures fl.stold("0") == Some(Real(0)) && fl.stold("1") == Some(Real(1)) && fl.stold("-1") == Some(Real(-1))
    ensures Small(Real(0)) && Small(Real(1)) && Small(Real(-1))
    ensures Whole(Some(Real(0))) == 0 && Whole(Some(Real(1))) == 1 && Whole(Some(Real(-1))) == -1
  {
    assert NatText(0) == "0" && NatText(1) == "1" && "-" + "1" == "-1";
    assert Exact(0) && Exact(1) && Exact(-1);
    hide NatText;
    RealInjective(Whole(Some(Real(0))), 0);
    RealInjective(Whole(Some(Real(1))), 1);
    RealInjective(Whole(Some(Real(-1))), -1);
  }

  /** What the moved unit does to every atom. */
  lemma MovedInteger(fl: Floats, atoms: seq<Atom>, i: nat, j: nat, k: nat)
    requires ReadsIntegers(fl) && i < |atoms| && j < |atoms| && i != j && k < |atoms|
    requires Moves(atoms[i]) && Moves(atoms[j]) && atoms[i].isotope != "F"
    ensures var w := WithValues(atoms, MovedBetween(|atoms|, i, j));
            && CrossInteger(fl, w[k]) == (if k == i then -1 else if k == j then 1 else 0)
            && WholeAtom(fl, w[k]) && w[k].token == atoms[k].token && (Moves(w[k]) <==> Moves(atoms[k]))
            && (w[k].isotope == "F" ==> CrossInteger(fl, w[k]) >= 0)
            && (IsCross(w[k]) <==> IsCross(atoms[k]))
  {
    ReadsUnits(fl);
    hide ReadsIntegers, Small, Whole, Real;
  }

  lemma {:induction false} MovedTotals(fl: Floats, atoms: seq<Atom>, i: nat, j: nat, n: nat, token: Option<string>)
    requires ReadsIntegers(fl) && i < |atoms| && j < |atoms| && i != j && n <= |atoms|
    requires Moves(atoms[i]) && Moves(atoms[j]) && atoms[i].isotope != "F"
    ensures CrossTotal(fl, WithValues(atoms, MovedBetween(|atoms|, i, j))[..n], token)
         == (if j < n && IsOf(atoms[j], token) then 1 else 0) - if i < n && IsOf(atoms[i], token) then 1 else 0
  {
    hide CrossTotal, WithValues, MovedBetween, ReadsIntegers, WholeAtom, CrossInteger, Moves;
    var w := WithValues(atoms, MovedBetween(|atoms|, i, j));
    if n == 0 {
      NoTotal(fl, w, token);
    } else {
      MovedTotals(fl, atoms, i, j, n - 1, token);
      MovedInteger(fl, atoms, i, j, n - 1);
      CrossTotalStep(fl, w, n - 1, token);
    }
  }

  lemma NoTotal(fl: Floats, atoms: seq<Atom>, token: Option<string>)
    ensures CrossTotal(fl, atoms[..0], token) == 0
  {
  }

  lemma CrossTotalStep(fl: Floats, atoms: seq<Atom>, n: nat, token: Option<string>)
    requires n < |atoms|
    ensures CrossTotal(fl, atoms[..n + 1], token)
         == CrossTotal(fl, atoms[..n], token) + if IsOf(atoms[n], token) then CrossInteger(fl, atoms[n]) else 0
  {
    assert atoms[..n + 1][..n] == atoms[..n];
  }

  /** From a V or B atom of one token to a V, B or F atom of another: "-1" and "1" there, "0" elsewhere, pass the check
      and conserve neither token. */
  lemma CrossesTokens(fl: Floats, atoms: seq<Atom>, i: nat, j: nat, hash: string)
    requires ReadsIntegers(fl) && ExactAdd(fl) && hash != "" && HasCross(atoms) && CrossShape(atoms)
    requires i < |atoms| && j < |atoms| && Moves(atoms[i]) && Moves(atoms[j])
    requires atoms[i].isotope != "F" && atoms[i].token != atoms[j].token
    ensures var w := WithValues(atoms, MovedBetween(|atoms|, i, j));
            && CrossSummable(fl, w) && NoNegativeFusion(fl, w)
            && TokenIsotopeV(fl, w, hash) == Ok(true) && !CrossConserves(fl, w)
            && CrossTotal(fl, w, Some(atoms[i].token)) == -1 && CrossTotal(fl, w, Some(atoms[j].token)) == 1
  {
    var w := WithValues(atoms, MovedBetween(|atoms|, i, j));
    hide ReadsIntegers, ExactAdd, HasCross, CrossShape, Moves, WithValues, MovedBetween, CrossTotal, CrossSummable,
      CrossConserves, CrossCheck, CrossInteger, WholeAtom, Exact, TokenIsotopeV, NoNegativeFusion;
    SameShape(atoms, MovedBetween(|atoms|, i, j));
    CrossShapeKept(atoms, MovedBetween(|atoms|, i, j));
    MovedSummable(fl, atoms, i, j);
    MovedSums(fl, atoms, i, j);
    CrossCheckIsTotal(fl, w);
    CrossIsChecked(fl, w, hash);
    MovedInteger(fl, atoms, i, j, i);
    Unbalanced(fl, w, i);
  }

  lemma MovedSums(fl: Floats, atoms: seq<Atom>, i: nat, j: nat)
    requires ReadsIntegers(fl) && i < |atoms| && j < |atoms|
    requires Moves(atoms[i]) && Moves(atoms[j]) && atoms[i].isotope != "F" && atoms[i].token != atoms[j].token
    ensures var w := WithValues(atoms, MovedBetween(|atoms|, i, j));
            && CrossTotal(fl, w, None) == 0
            && CrossTotal(fl, w, Some(atoms[i].token)) == -1 && CrossTotal(fl, w, Some(atoms[j].token)) == 1
  {
    hide ReadsIntegers, WithValues, MovedBetween, CrossTotal, Moves;
    var w := WithValues(atoms, MovedBetween(|atoms|, i, j));
    assert w[..|w|] == w;
    MovedTotals(fl, atoms, i, j, |w|, None);
    MovedTotals(fl, atoms, i, j, |w|, Some(atoms[i].token));
    MovedTotals(fl, atoms, i, j, |w|, Some(atoms[j].token));
  }

  lemma CrossShapeKept(atoms: seq<Atom>, values: seq<string>)
    requires |values| == |atoms|
    ensures CrossShape(WithValues(atoms, values)) <==> CrossShape(atoms)
    ensures NothingToCross(WithValues(atoms, values)) <==> NothingToCross(atoms)
  {
    var w := WithValues(atoms, values);
    forall i | 0 <= i < |atoms|
      ensures w[i].isotope == atoms[i].isotope && w[i].token == atoms[i].token
      ensures w[i].metaType == atoms[i].metaType && w[i].metaId == atoms[i].metaId
    {
    }
    hide WithValues;
  }

  lemma CrossIsChecked(fl: Floats, atoms: seq<Atom>, hash: string)
    requires hash != "" && HasCross(atoms)
    ensures TokenIsotopeV(fl, atoms, hash) == Ok(CrossCheck(fl, atoms))
  {
  }

  lemma Unbalanced(fl: Floats, atoms: seq<Atom>, i: nat)
    requires i < |atoms| && Moves(atoms[i]) && CrossTotal(fl, atoms, Some(atoms[i].token)) != 0
    ensures !CrossConserves(fl, atoms)
  {
  }

  lemma MovedSummable(fl: Floats, atoms: seq<Atom>, i: nat, j: nat)
    requires ReadsIntegers(fl) && i < |atoms| && j < |atoms| && i != j
    requires Moves(atoms[i]) && Moves(atoms[j]) && atoms[i].isotope != "F"
    ensures CrossSummable(fl, WithValues(atoms, MovedBetween(|atoms|, i, j)))
    ensures NoNegativeFusion(fl, WithValues(atoms, MovedBetween(|atoms|, i, j)))
  {
    var w := WithValues(atoms, MovedBetween(|atoms|, i, j));
    hide WithValues, MovedBetween, ReadsIntegers, WholeAtom, CrossTotal, CrossInteger, Moves;
    forall k | 0 <= k < |w|
      ensures WholeAtom(fl, w[k]) && (w[k].isotope == "F" ==> CrossInteger(fl, w[k]) >= 0)
    {
      MovedInteger(fl, atoms, i, j, k);
    }
    forall n | 0 <= n <= |w|
      ensures Exact(CrossTotal(fl, w[..n], None))
    {
      MovedTotals(fl, atoms, i, j, n, None);
    }
  }

  /** "0" everywhere conserves. */
  lemma NothingMoved(fl: Floats, atoms: seq<Atom>)
    requires ReadsIntegers(fl)
    ensures var w := WithValues(atoms, seq(|atoms|, _ => "0")); CrossSummable(fl, w) && ConservesUnfused(fl, w)
  {
    var w := WithValues(atoms, seq(|atoms|, _ => "0"));
    ReadsUnits(fl);
    hide ReadsIntegers, Small, Whole, Real;
    forall k | 0 <= k < |w|
      ensures WholeAtom(fl, w[k]) && CrossInteger(fl, w[k]) == 0
    {
    }
    hide WithValues, WholeAtom, CrossInteger, Moves;
    assert w[..|w|] == w;
    forall n: nat, token: Option<string> | n <= |w|
      ensures CrossTotal(fl, w[..n], token) == 0
    {
      ZeroTotal(fl, w, n, token);
    }
  }

  lemma {:induction false} ZeroTotal(fl: Floats, atoms: seq<Atom>, n: nat, token: Option<string>)
    requires n <= |atoms| && forall k :: 0 <= k < |atoms| ==> CrossInteger(fl, atoms[k]) == 0
    ensures CrossTotal(fl, atoms[..n], token) == 0
  {
    hide CrossInteger, CrossTotal;
    if n == 0 {
      NoTotal(fl, atoms, token);
    } else {
      ZeroTotal(fl, atoms, n - 1, token);
      CrossTotalStep(fl, atoms, n - 1, token);
    }
  }

  /** The exact condition: with a B or F atom the check is conservation per token without a negative F value, for all
      integers the molecule may carry, if and only if it has the demanded meta and every V or B atom has the token of
      every V, B and F atom. */
  lemma CrossCheckExact(fl: Floats, atoms: seq<Atom>, hash: string)
    requires ReadsIntegers(fl) && ExactAdd(fl) && hash != "" && HasCross(atoms)
    ensures CrossChecksConservation(fl, atoms, hash) <==> CrossShape(atoms) && NothingToCross(atoms)
  {
    hide ReadsIntegers, ExactAdd, CrossTotal, CrossSummable, CrossConserves, CrossCheck, NoNegativeFusion, CrossShape,
      HasCross, TokenIsotopeV;
    if CrossShape(atoms) && NothingToCross(atoms) {
      hide NothingToCross;
      forall values: seq<string> | |values| == |atoms| && CrossSummable(fl, WithValues(atoms, values))
        ensures TokenIsotopeV(fl, WithValues(atoms, values), hash) == Ok(true)
             <==> ConservesUnfused(fl, WithValues(atoms, values))
      {
        var w := WithValues(atoms, values);
        SameShape(atoms, values);
        CrossShapeKept(atoms, values);
        CrossCheckIsTotal(fl, w);
        CrossIsChecked(fl, w, hash);
        if NoNegativeFusion(fl, w) {
          NothingCrosses(fl, w);
        }
      }
    } else if !CrossShape(atoms) {
      var values := seq(|atoms|, _ => "0");
      NothingMoved(fl, atoms);
      SameShape(atoms, values);
      CrossShapeKept(atoms, values);
      CrossCheckIsTotal(fl, WithValues(atoms, values));
      CrossIsChecked(fl, WithValues(atoms, values), hash);
    } else {
      var i, j :| 0 <= i < |atoms| && 0 <= j < |atoms| && Moves(atoms[i]) && Moves(atoms[j]) &&
                  atoms[i].isotope != "F" && atoms[i].token != atoms[j].token;
      CrossesTokens(fl, atoms, i, j, hash);
      assert |MovedBetween(|atoms|, i, j)| == |atoms|;
    }
  }

  /** In two atoms: a unit of one token is debited, a unit of another is put into a buffer, and the check passes. */
  lemma OneTokenForAnother(fl: Floats, a: Atom, b: Atom, hash: string)
    requires ReadsIntegers(fl) && ExactAdd(fl) && hash != ""
    requires a.isotope == "V" && a.value == "-1" && b.isotope == "B" && b.value == "1" && a.token != b.token
    requires b.metaType == "walletBundle" && b.metaId != ""
    ensures TokenIsotopeV(fl, [a, b], hash) == Ok(true) && !CrossConserves(fl, [a, b])
  {
    assert IsCross([a, b][1]) && WithValues([a, b], MovedBetween(2, 0, 1)) == [a, b];
    CrossesTokens(fl, [a, b], 0, 1, hash);
    hide *;
  }

  lemma CrossSumOfNone(fl: Floats, atoms: seq<Atom>)
    ensures CrossSum(fl, atoms[..0]) == ZERO
  {
  }

  lemma CrossSumStep(fl: Floats, atoms: seq<Atom>, i: nat)
    requires i < |atoms|
    ensures CrossSum(fl, atoms[..i + 1])
         == if Participates(atoms[i]) then fl.add(CrossSum(fl, atoms[..i]), Parsed(fl.stold(atoms[i].value)))
            else CrossSum(fl, atoms[..i])
  {
    assert atoms[..i + 1][..i] == atoms[..i];
  }

  method VerifyCrossIsotopeConservation(fl: Floats, atoms: seq<Atom>) returns (ok: bool)
    ensures ok == CrossCheck(fl, atoms)
  {
    CrossSumOfNone(fl, atoms);
    hide CrossSum;
    var crossSum := ZERO;
    var sawCrossIsotope := false;
    for i := 0 to |atoms|
      invariant forall j :: 0 <= j < i ==> CrossWellFormed(fl, atoms[j])
      invariant sawCrossIsotope == exists j :: 0 <= j < i && IsCross(atoms[j])
      invariant crossSum == CrossSum(fl, atoms[..i])
    {
      CrossSumStep(fl, atoms, i);
      var a := atoms[i];
      if a.isotope == "B" || a.isotope == "F" {
        sawCrossIsotope := true;
        if a.metaType != "walletBundle" || a.metaId == "" {
          assert !CrossWellFormed(fl, atoms[i]);
          return false;
        }
      } else if a.isotope != "V" {
        continue;
      }
      if a.value == "" {
        continue;
      }
      var parsed := fl.stold(a.value);
      if parsed.None? {
        assert !CrossWellFormed(fl, atoms[i]);
        return false;
      }
      if a.isotope == "F" && parsed.value.IsNegative() {
        assert !CrossWellFormed(fl, atoms[i]);
        return false;
      }
      crossSum := fl.add(crossSum, parsed.value);
    }
    assert atoms[..|atoms|] == atoms;
    if !sawCrossIsotope {
      return true;
    }
    return crossSum.IsTiny();
  }

  /** The sum over a token's V atoms from its first atom on. */
  method SumToken(fl: Floats, atoms: seq<Atom>, start: nat) returns (r: Option<Float>)
    requires Heads(atoms, start)
    ensures r == TokenSum(fl, atoms, start)
  {
    hide FloatSum, VValues;
    EmptySum(fl);
    var token := atoms[start].token;
    var result := ZERO;
    NoneBefore(atoms, start, token);
    for i := start to |atoms|
      invariant FloatSum(fl, VValues(atoms[..i], token)) == Some(result)
    {
      VValuesStep(atoms, i, token);
      if atoms[i].isotope != "V" || atoms[i].token != token {
        continue;
      }
      FloatSumStep(fl, VValues(atoms[..i], token), atoms[i].value);
      var value := fl.strtod(atoms[i].value);
      if value.None? {
        BadValue(fl, atoms, i + 1, token);
        return None;
      }
      result := fl.add(result, value.value);
    }
    assert atoms[..|atoms|] == atoms;
    return Some(result);
  }

  lemma EmptySum(fl: Floats)
    ensures FloatSum(fl, []) == Some(ZERO)
  {
  }

  lemma {:induction false} NoneBefore(atoms: seq<Atom>, n: nat, token: string)
    requires n <= |atoms| && forall j :: 0 <= j < n ==> atoms[j].token != token
    ensures VValues(atoms[..n], token) == []
  {
    if n > 0 {
      NoneBefore(atoms, n - 1, token);
      assert atoms[..n][..n - 1] == atoms[..n - 1];
    }
  }

  lemma {:induction false} BadValue(fl: Floats, atoms: seq<Atom>, n: nat, token: string)
    requires n <= |atoms| && FloatSum(fl, VValues(atoms[..n], token)).None?
    ensures FloatSum(fl, VValues(atoms, token)).None?
    decreases |atoms|
  {
    if n < |atoms| {
      var t := |atoms| - 1;
      assert atoms[..t][..n] == atoms[..n];
      BadValue(fl, atoms[..t], n, token);
      VValuesStep(atoms, t, token);
      FloatSumStep(fl, VValues(atoms[..t], token), atoms[t].value);
      assert atoms[..t + 1] == atoms;
    } else {
      assert atoms[..n] == atoms;
    }
  }

  method VerifyTokenIsotopeV(fl: Floats, atoms: seq<Atom>, molecularHash: string) returns (r: Result<bool>)
    ensures r == TokenIsotopeV(fl, atoms, molecularHash)
  {
    hide FloatSum, VValues, CrossCheck;
    if atoms == [] || molecularHash == "" {
      return Ok(false);
    }
    for i := 0 to |atoms|
      invariant forall j :: 0 <= j < i ==> !IsCross(atoms[j])
    {
      if atoms[i].isotope == "B" || atoms[i].isotope == "F" {
        assert IsCross(atoms[i]);
        var ok := VerifyCrossIsotopeConservation(fl, atoms);
        return Ok(ok);
      }
    }
    for i := 0 to |atoms|
      invariant VScan(fl, atoms, i) == VScan(fl, atoms, 0)
    {
      if atoms[i].isotope != "V" {
        continue;
      }
      var prev := 0;
      while prev < i && atoms[prev].token != atoms[i].token
        invariant 0 <= prev <= i && forall j :: 0 <= j < prev ==> atoms[j].token != atoms[i].token
      {
        prev := prev + 1;
      }
      if prev != i {
        continue;
      }
      var sum := SumToken(fl, atoms, i);
      if sum.None? {
        return Err(RuntimeFailure);
      }
      if sum.value != ZERO {
        return Ok(false);
      }
    }
    return Ok(true);
  }
}
