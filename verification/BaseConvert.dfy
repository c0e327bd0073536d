/** charsetBaseConvert: hexadecimal to any base from 2 to 256, by long division over 32-bit limbs. */
module BaseConvert {
  import opened Common
  import opened Numerals
  import opened Hex
  import opened Bits

  function Symbols(ds: seq<nat>, table: string): (s: string)
    requires Below(ds, |table|)
    ensures |s| == |ds|
  {
    seq(|ds|, i requires 0 <= i < |ds| => table[ds[i]])
  }

  /** The canonical numeral of n in the given base, written with the symbols of the table. */
  function Numeral(n: nat, base: nat, table: string): (s: string)
    requires 2 <= base <= |table|
    ensures |s| == |Digits(n, base)|
  {
    DigitsMeaning(n, base);
    Symbols(Digits(n, base), table)
  }

  /** The checks come in this order: an empty input is never rejected. */
  function Convert(hashHex: string, baseFrom: nat, baseTo: nat, table: Option<string>): Result<string> {
    if hashHex == "" then Ok("")
    else if table.None? || baseTo < 2 || baseTo > 256 || baseFrom != 16 then Err(InvalidArgument)
    else if |table.value| < baseTo || !AllHex(hashHex) then Err(InvalidArgument)
    else Ok(Numeral(HexNumber(hashHex), baseTo, table.value))
  }

  predicate Distinct(table: string) {
    forall i, j :: 0 <= i < j < |table| ==> table[i] != table[j]
  }

  lemma SymbolsInjective(xs: seq<nat>, ys: seq<nat>, table: string)
    requires Distinct(table) && Below(xs, |table|) && Below(ys, |table|)
    requires Symbols(xs, table) == Symbols(ys, table)
    ensures xs == ys
  {
    assert |xs| == |ys|;
    forall i | 0 <= i < |xs|
      ensures xs[i] == ys[i]
    {
      assert Symbols(xs, table)[i] == Symbols(ys, table)[i];
    }
  }

  /** Whatever digits the output spells denote the input's number, without a superfluous leading zero. */
  lemma ConversionExact(hashHex: string, base: nat, table: string, ds: seq<nat>)
    requires hashHex != "" && AllHex(hashHex) && 2 <= base <= 256 && base <= |table| && Distinct(table)
    requires Below(ds, |table|) && Convert(hashHex, 16, base, Some(table)) == Ok(Symbols(ds, table))
    ensures Below(ds, base) && Value(ds, base) == HexNumber(hashHex) && Canonical(ds)
  {
    DigitsMeaning(HexNumber(hashHex), base);
    SymbolsInjective(ds, Digits(HexNumber(hashHex), base), table);
  }

  /** Two inputs convert to the same text exactly when they denote the same number. */
  lemma ConversionInjective(x: string, y: string, base: nat, table: string)
    requires x != "" && y != "" && AllHex(x) && AllHex(y) && 2 <= base <= 256 && base <= |table| && Distinct(table)
    ensures Convert(x, 16, base, Some(table)) == Convert(y, 16, base, Some(table)) <==> HexNumber(x) == HexNumber(y)
  {
    var m, n := HexNumber(x), HexNumber(y);
    DigitsMeaning(m, base);
    DigitsMeaning(n, base);
    if Convert(x, 16, base, Some(table)) == Convert(y, 16, base, Some(table)) {
      SymbolsInjective(Digits(m, base), Digits(n, base), table);
    }
  }

  // ----- packing hex digits into limbs

  lemma HexNumberPrefix(s: string, i: nat)
    requires i < |s|
    ensures HexNumber(s[..i + 1]) == HexNumber(s[..i]) * 16 + HexValue(s[i])
  {
    assert HexDigits(s[..i + 1]) == HexDigits(s[..i]) + [HexValue(s[i])];
    ValueSnoc(HexDigits(s[..i]), HexValue(s[i]), 16);
  }

  lemma {:induction false} LeadingZeroChars(s: string, first: nat)
    requires first <= |s| && forall i :: 0 <= i < first ==> s[i] == '0'
    ensures HexNumber(s[..first]) == 0
  {
    if first > 0 {
      LeadingZeroChars(s, first - 1);
      HexNumberPrefix(s, first - 1);
    } else {
      assert HexDigits(s[..0]) == [];
    }
  }

  /** Completing the limb in progress: v * 16^8 + limb, where the prefix denotes v * 16^inLimb + limb. */
  lemma LimbStep(v: nat, limb: nat, nibble: nat, k: nat)
    requires limb < Pow(16, k) && nibble < 16 && k < 8
    ensures limb * 16 + nibble < Pow(16, k + 1) <= TWO_32
    ensures (v * Pow(16, k) + limb) * 16 + nibble == v * Pow(16, k + 1) + (limb * 16 + nibble)
  {
    var p := Pow(16, k);
    assert Pow(16, k + 1) == 16 * p;
    assert v * (16 * p) == 16 * (v * p);
    Pow16Limb();
    PowAdd(16, k + 1, 8 - (k + 1));
    PowPositive(16, 8 - (k + 1));
    MulMonotone(1, Pow(16, 8 - (k + 1)), Pow(16, k + 1));
  }

  /** The first i digits denote the finished limbs followed by the k digits of the limb in progress. */
  ghost predicate Packed(s: string, i: nat, limbs: seq<nat>, limb: nat, k: nat)
    requires i <= |s|
  {
    && limb < Pow(16, k)
    && HexNumber(s[..i]) == Value(limbs, TWO_32) * Pow(16, k) + limb
  }

  lemma PackedStart(s: string, first: nat)
    requires first <= |s| && forall i :: 0 <= i < first ==> s[i] == '0'
    ensures Packed(s, first, [], 0, 0)
  {
    LeadingZeroChars(s, first);
  }

  /** One more digit fits 32 bits. */
  lemma PackedDigit(s: string, i: nat, limbs: seq<nat>, limb: nat, k: nat)
    requires i < |s| && k < 8 && Packed(s, i, limbs, limb, k)
    ensures limb * 16 + HexValue(s[i]) < TWO_32
    ensures Or(Wrap32(limb * 16), HexValue(s[i])) == limb * 16 + HexValue(s[i])
    ensures Packed(s, i + 1, limbs, limb * 16 + HexValue(s[i]), k + 1)
  {
    hide HexNumber, Value, Pow, Or, HexValue, Wrap32;
    HexNumberPrefix(s, i);
    LimbStep(Value(limbs, TWO_32), limb, HexValue(s[i]), k);
    SmallWrap(limb * 16);
    ShiftFour(limb, HexValue(s[i]));
  }

  lemma ShiftFour(x: nat, d: nat)
    requires d < 16
    ensures Or(x * 16, d) == x * 16 + d
  {
    assert Pow(2, 4) == 16;
    OrShifted(x, d, 4);
  }

  lemma PackedLimb(s: string, i: nat, limbs: seq<nat>, limb: nat, k: nat)
    requires i <= |s| && (limbs == [] || k == 8) && Packed(s, i, limbs, limb, k)
    ensures Packed(s, i, limbs + [limb], 0, 0)
  {
    ValueSnoc(limbs, limb, TWO_32);
    if limbs != [] {
      Pow16Limb();
    }
  }

  lemma PackedEnd(s: string, limbs: seq<nat>, limb: nat)
    requires Packed(s, |s|, limbs, limb, 0)
    ensures Value(limbs, TWO_32) == HexNumber(s)
  {
    assert s[..|s|] == s;
  }

  /** Big-endian 32-bit limbs of the digits from index first on; the first limb takes the odd digits. */
  method PackLimbs(hashHex: string, first: nat) returns (limbs: seq<nat>)
    requires first < |hashHex| && forall i :: 0 <= i < first ==> hashHex[i] == '0'
    ensures Below(limbs, TWO_32) && |limbs| > 0
    ensures Value(limbs, TWO_32) == HexNumber(hashHex)
  {
    hide Packed, HexNumber, HexValue, Value, Pow, Or;
    var digits := |hashHex| - first;
    limbs := [];
    var head := digits % 8;
    if head == 0 {
      head := 8;
    }
    ghost var groups: int := (digits - head) / 8;
    assert digits - head == 8 * groups;
    var limb, inLimb := 0, 0;
    PackedStart(hashHex, first);
    var i := first;
    while i < |hashHex|
      invariant first <= i <= |hashHex| && 0 <= inLimb < head <= 8
      invariant |hashHex| - i - (head - inLimb) == 8 * groups
      invariant if limbs == [] then inLimb == i - first else head == 8
      invariant Below(limbs, TWO_32) && 0 <= limb < TWO_32 && Packed(hashHex, i, limbs, limb, inLimb)
    {
      var nibble := HexValue(hashHex[i]);
      PackedDigit(hashHex, i, limbs, limb, inLimb);
      limb := Or(Wrap32(limb * 16), nibble);
      inLimb := inLimb + 1;
      i := i + 1;
      if inLimb == head {
        PackedLimb(hashHex, i, limbs, limb, inLimb);
        limbs := limbs + [limb];
        limb, inLimb, head, groups := 0, 0, 8, groups - 1;
      }
    }
    assert inLimb == 0;
    PackedEnd(hashHex, limbs, limb);
  }

  // ----- long division

  /** One step of long division: the running remainder and the next limb stay below base * 2^32. */
  lemma DivisionStep(vp: nat, vq: nat, rem: nat, l: nat, base: nat) returns (q: nat, r: nat)
    requires 2 <= base <= 256 && rem < base && l < TWO_32 && vp == vq * base + rem
    ensures q == (rem * TWO_32 + l) / base && r == (rem * TWO_32 + l) % base
    ensures rem * TWO_32 + l < 0x100_0000_0000 && q < TWO_32 && r < base
    ensures vp * TWO_32 + l == (vq * TWO_32 + q) * base + r
  {
    CurrentBound(rem, l, base);
    q, r := QuotientAndRest(rem * TWO_32 + l, base, TWO_32);
    ShiftedStep(vp, vq, rem, l, base, q, r);
  }

  lemma CurrentBound(rem: nat, l: nat, base: nat)
    requires rem < base <= 256 && l < TWO_32
    ensures rem * TWO_32 + l < base * TWO_32 <= 0x100_0000_0000
  {
  }

  lemma QuotientAndRest(n: nat, b: nat, p: nat) returns (q: nat, r: nat)
    requires b > 0 && n < b * p
    ensures q == n / b && r == n % b && r < b && q < p && n == q * b + r
  {
    DivFits(n, b, p);
    DivIdentity(n, b);
    q, r := n / b, n % b;
  }

  lemma ShiftedStep(vp: nat, vq: nat, rem: nat, l: nat, base: nat, q: nat, r: nat)
    requires vp == vq * base + rem && rem * TWO_32 + l == q * base + r
    ensures vp * TWO_32 + l == (vq * TWO_32 + q) * base + r
  {
    Distribute(vq * TWO_32, q, base);
    assert vq * TWO_32 * base == vq * base * TWO_32;
  }

  /** Quotient limbs and remainder of the limbs seen so far. */
  ghost predicate Divided(seen: seq<nat>, base: nat, quotient: seq<nat>, rem: nat) {
    && Below(quotient, TWO_32) && (quotient != [] ==> quotient[0] != 0)
    && rem < base && Value(seen, TWO_32) == Value(quotient, TWO_32) * base + rem
  }

  lemma NothingDivided(base: nat)
    requires base >= 2
    ensures Divided([], base, [], 0)
  {
  }

  lemma DividedNext(seen: seq<nat>, base: nat, quotient: seq<nat>, rem: nat, l: nat)
    requires 2 <= base <= 256 && l < TWO_32 && Divided(seen, base, quotient, rem)
    ensures var cur := rem * TWO_32 + l;
            && cur / base < TWO_32
            && Divided(seen + [l], base, if quotient != [] || cur / base != 0 then quotient + [cur / base] else [],
                       cur % base)
  {
    hide Value;
    var q, r := DivisionStep(Value(seen, TWO_32), Value(quotient, TWO_32), rem, l, base);
    DividedAppend(seen, base, quotient, l, q, r);
  }

  lemma DividedAppend(seen: seq<nat>, base: nat, quotient: seq<nat>, l: nat, q: nat, r: nat)
    requires Below(quotient, TWO_32) && (quotient != [] ==> quotient[0] != 0) && q < TWO_32 && r < base
    requires Value(seen, TWO_32) * TWO_32 + l == (Value(quotient, TWO_32) * TWO_32 + q) * base + r
    ensures Divided(seen + [l], base, if quotient != [] || q != 0 then quotient + [q] else [], r)
  {
    assert quotient == [] ==> Value(quotient, TWO_32) == 0;
    assert Value([], TWO_32) == 0;
    hide Value;
    ValueSnoc(seen, l, TWO_32);
    ValueSnoc(quotient, q, TWO_32);
  }

  /** One long division by base: quotient limbs without a leading zero, and the remainder. */
  method Divide(limbs: seq<nat>, base: nat) returns (quotient: seq<nat>, rem: nat)
    requires Below(limbs, TWO_32) && 2 <= base <= 256
    ensures Below(quotient, TWO_32) && (quotient != [] ==> quotient[0] != 0)
    ensures rem < base && Value(limbs, TWO_32) == Value(quotient, TWO_32) * base + rem
  {
    hide Value, Below;
    quotient, rem := [], 0;
    NothingDivided(base);
    assert limbs[..0] == [];
    for i := 0 to |limbs|
      invariant Divided(limbs[..i], base, quotient, rem)
    {
      var l := limbs[i];
      LimbBelow(limbs, i);
      var cur := rem * TWO_32 + l;
      DividedNext(limbs[..i], base, quotient, rem, l);
      assert limbs[..i] + [l] == limbs[..i + 1];
      var q: uint32 := cur / base;
      rem := cur % base;
      if quotient != [] || q != 0 {
        quotient := quotient + [q];
      }
    }
    assert limbs[..|limbs|] == limbs;
  }

  lemma LimbBelow(limbs: seq<nat>, i: nat)
    requires Below(limbs, TWO_32) && i < |limbs|
    ensures limbs[i] < TWO_32
  {
  }

  // ----- the conversion

  function Reverse(s: string): (r: string)
    ensures |r| == |s|
  {
    if s == "" then "" else Reverse(s[1..]) + [s[0]]
  }

  lemma {:induction false} ReverseSnoc(s: string, c: char)
    ensures Reverse(s + [c]) == [c] + Reverse(s)
  {
    if s == "" {
      assert Reverse([c]) == Reverse([]) + [c];
    } else {
      assert (s + [c])[1..] == s[1..] + [c];
      ReverseSnoc(s[1..], c);
    }
  }

  /** The digits of n that are still to come when the quotient is n; none when it is 0. */
  function Pending(n: nat, base: nat, table: string): string
    requires 2 <= base <= |table|
  {
    if n == 0 then "" else Numeral(n, base, table)
  }

  lemma PendingStep(n: nat, q: nat, r: nat, base: nat, table: string)
    requires 2 <= base <= |table| && n > 0 && r < base && n == q * base + r
    ensures q < n && Pending(n, base, table) == Pending(q, base, table) + [table[r]]
  {
    DivModOfSum(q, r, base);
    DivSmaller(n, base);
    if q == 0 {
      assert Digits(n, base) == [r];
    } else {
      MulMonotone(1, q, base);
      assert Digits(n, base) == Digits(q, base) + [r];
    }
    assert Numeral(n, base, table) == Pending(q, base, table) + [table[r]];
  }

  /** The result is the canonical numeral; the loop ends because every quotient is smaller. */
  method CharsetBaseConvert(hashHex: string, baseFrom: nat, baseTo: nat, baseToSymbolTable: Option<string>)
    returns (r: Result<string>)
    ensures r == Convert(hashHex, baseFrom, baseTo, baseToSymbolTable)
  {
    hide HexNumber, Value, Numeral, Digits;
    if hashHex == "" {
      return Ok("");
    }
    if baseToSymbolTable.None? {
      return Err(InvalidArgument);
    }
    if baseTo == 0 || baseTo > 256 || baseTo == 1 {
      return Err(InvalidArgument);
    }
    if baseFrom != 16 {
      return Err(InvalidArgument);
    }
    var table := baseToSymbolTable.value;
    if |table| < baseTo {
      return Err(InvalidArgument);
    }
    for i := 0 to |hashHex|
      invariant AllHex(hashHex[..i])
    {
      if !IsHexDigit(hashHex[i]) {
        return Err(InvalidArgument);
      }
    }
    assert hashHex[..|hashHex|] == hashHex;
    var first := 0;
    while first < |hashHex| && hashHex[first] == '0'
      invariant first <= |hashHex| && forall i :: 0 <= i < first ==> hashHex[i] == '0'
    {
      first := first + 1;
    }
    if first == |hashHex| {
      LeadingZeroChars(hashHex, first);
      ZeroNumeral(baseTo, table);
      return Ok([table[0]]);
    }
    SignificantDigit(hashHex, first);
    var limbs := PackLimbs(hashHex, first);
    var res := "";
    ghost var text := Numeral(HexNumber(hashHex), baseTo, table);
    while limbs != []
      invariant Below(limbs, TWO_32) && (limbs == [] <==> Value(limbs, TWO_32) == 0)
      invariant Pending(Value(limbs, TWO_32), baseTo, table) + Reverse(res) == text
      decreases Value(limbs, TWO_32)
    {
      var quotient, rem := Divide(limbs, baseTo);
      PendingStep(Value(limbs, TWO_32), Value(quotient, TWO_32), rem, baseTo, table);
      ReverseSnoc(res, table[rem]);
      QuotientZero(quotient);
      res := res + [table[rem]];
      limbs := quotient;
    }
    assert "" + Reverse(res) == Reverse(res);
    return Ok(Reverse(res));
  }

  lemma ZeroNumeral(base: nat, table: string)
    requires 2 <= base <= |table|
    ensures Numeral(0, base, table) == [table[0]]
  {
  }

  lemma QuotientZero(q: seq<nat>)
    requires q != [] ==> q[0] != 0
    ensures q == [] <==> Value(q, TWO_32) == 0
  {
    if q != [] {
      LeadingDigitPositive(q, TWO_32);
    }
  }

  lemma SignificantDigit(s: string, first: nat)
    requires AllHex(s) && first < |s| && s[first] != '0'
    ensures HexNumber(s) > 0
  {
    var ds := HexDigits(s);
    assert ds == ds[..first] + ds[first..];
    ValueConcat(ds[..first], ds[first..], 16);
    assert HexValue(s[first]) != 0;
    LeadingDigitPositive(ds[first..], 16);
    hide Value, Pow;
    MulMonotone(0, Value(ds[..first], 16), Pow(16, |ds[first..]|));
  }
}
