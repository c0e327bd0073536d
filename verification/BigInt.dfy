/** CryptoBigInt: unbounded addition of hex numbers over little-endian 32-bit limbs. */
module BigInt {
  import opened Common
  import opened Numerals
  import opened Hex
  import opened Bits

  /** The number that little-endian limbs denote. */
  function Little(ls: seq<nat>): nat {
    if |ls| == 0 then 0 else Little(ls[..|ls| - 1]) + ls[|ls| - 1] * Pow(TWO_32, |ls| - 1)
  }

  /** The canonical sum of two hex strings; an empty or non-hex operand is rejected. */
  function HexAdd(a: string, b: string): Result<string> {
    if a != "" && b != "" && AllHex(a) && AllHex(b) then Ok(HexNumeral(HexNumber(a) + HexNumber(b)))
    else Err(InvalidArgument)
  }

  /** A numeral's lower-case text: no leading zero unless it is "0". */
  predicate CanonicalHex(t: string) {
    LowerHex(t) && t != "" && (|t| > 1 ==> t[0] != '0')
  }

  /** The sum text is the one canonical lower-case numeral of the sum. */
  lemma HexAddExact(a: string, b: string, t: string)
    requires a != "" && b != "" && AllHex(a) && AllHex(b)
    ensures HexAdd(a, b) == Ok(t) <==> CanonicalHex(t) && HexNumber(t) == HexNumber(a) + HexNumber(b)
  {
    var n := HexNumber(a) + HexNumber(b);
    DigitsMeaning(n, 16);
    if CanonicalHex(t) && HexNumber(t) == n {
      HexTextOfDigits(t);
      assert t[0] != '0' ==> HexDigits(t)[0] != 0;
      DigitsUnique(HexDigits(t), 16);
    }
  }

  // ----- facts about limbs

  lemma LittleSnoc(ls: seq<nat>, x: nat)
    ensures Little(ls + [x]) == Little(ls) + x * Pow(TWO_32, |ls|)
  {
    assert (ls + [x])[..|ls|] == ls;
  }

  lemma {:induction false} LittleZeros(ls: seq<nat>)
    requires forall i :: 0 <= i < |ls| ==> ls[i] == 0
    ensures Little(ls) == 0
  {
    if |ls| > 0 {
      LittleZeros(ls[..|ls| - 1]);
    }
  }

  lemma {:induction false} LittleCons(x: nat, ls: seq<nat>)
    ensures Little([x] + ls) == x + Little(ls) * TWO_32
  {
    if |ls| == 0 {
      assert [x] + ls == [] + [x];
      LittleSnoc([], x);
    } else {
      var k := |ls| - 1;
      var p := Pow(TWO_32, k);
      LittleCons(x, ls[..k]);
      assert [x] + ls == ([x] + ls[..k]) + [ls[k]] && ls == ls[..k] + [ls[k]];
      LittleSnoc([x] + ls[..k], ls[k]);
      LittleSnoc(ls[..k], ls[k]);
      hide Little, Pow;
      LimbScale(ls[k], p);
    }
  }

  lemma LimbScale(x: nat, p: nat)
    ensures x * (TWO_32 * p) == (x * p) * TWO_32
  {
  }

  /** Adding d at limb k adds d * 2^(32 k). */
  lemma {:induction false} LittleUpdate(ls: seq<nat>, k: nat, d: nat)
    requires k < |ls|
    ensures Little(ls[k := ls[k] + d]) == Little(ls) + d * Pow(TWO_32, k)
  {
    var m := ls[k := ls[k] + d];
    var t := |ls| - 1;
    if k == t {
      assert m[..t] == ls[..t];
      Distribute(ls[k], d, Pow(TWO_32, k));
    } else {
      assert m[..t] == ls[..t][k := ls[..t][k] + d];
      LittleUpdate(ls[..t], k, d);
    }
  }

  lemma {:induction false} LittleIsZero(ls: seq<nat>)
    ensures Little(ls) == 0 <==> forall i :: 0 <= i < |ls| ==> ls[i] == 0
  {
    var k := |ls| - 1;
    if k >= 0 {
      LittleIsZero(ls[..k]);
      PowPositive(TWO_32, k);
      if ls[k] > 0 {
        MulMonotone(1, ls[k], Pow(TWO_32, k));
      }
    }
  }

  /** The i low hex digits of s. */
  function LowDigits(s: string, i: nat): nat
    requires i <= |s|
  {
    HexNumber(s[|s| - i..])
  }

  lemma LowDigitsStep(s: string, i: nat)
    requires i < |s|
    ensures LowDigits(s, i + 1) == LowDigits(s, i) + HexValue(s[|s| - 1 - i]) * Pow(16, i)
  {
    var c, tail := s[|s| - 1 - i], s[|s| - i..];
    assert HexDigits(s[|s| - (i + 1)..]) == [HexValue(c)] + HexDigits(tail);
    ValueConcat([HexValue(c)], HexDigits(tail), 16);
    assert [HexValue(c)] == [] + [HexValue(c)];
    ValueSnoc([], HexValue(c), 16);
  }

  lemma Pow16Limbs(i: nat)
    ensures Pow(16, i) == Pow(16, i % 8) * Pow(TWO_32, i / 8)
  {
    PowPower(i / 8);
    PowAdd(16, i % 8, 8 * (i / 8));
    assert i == i % 8 + 8 * (i / 8);
  }

  lemma {:induction false} PowPower(k: nat)
    ensures Pow(16, 8 * k) == Pow(TWO_32, k)
  {
    if k > 0 {
      PowPower(k - 1);
      PowAdd(16, 8, 8 * (k - 1));
      Pow16Limb();
    }
  }

  lemma Pow16IsPow2(m: nat)
    requires m < 8
    ensures Pow(2, 4 * m) == Pow(16, m) && Pow(16, m) * 16 <= TWO_32
  {
    if m > 0 {
      Pow16IsPow2(m - 1);
      PowAdd(2, 4, 4 * (m - 1));
      assert Pow(2, 4) == 16;
    }
    Pow16Limb();
    PowAdd(16, m + 1, 7 - m);
    PowPositive(16, 7 - m);
    MulMonotone(1, Pow(16, 7 - m), Pow(16, m + 1));
  }

  /** The next hex digit lands on untouched bits of its limb, inside 32 bits. */
  lemma DigitFits(limb: nat, d: nat, m: nat)
    requires m < 8 && d < 16 && limb < Pow(16, m)
    ensures d * Pow(16, m) + limb < Pow(16, m + 1) <= TWO_32
    ensures Wrap32(d * Pow(16, m)) == d * Pow(16, m)
    ensures Or(limb, Wrap32(d * Pow(16, m))) == limb + d * Pow(16, m)
  {
    var p := Pow(16, m);
    assert Pow(16, m + 1) == 16 * p;
    hide Or, Pow, Wrap32;
    Pow16IsPow2(m);
    MulMonotone(d, 15, p);
    SmallWrap(d * p);
    OrShifted(d, limb, 4 * m);
    OrCommutes(limb, d * p);
  }

  /** The limbs hold the i low digits of s, and nothing above them. */
  ghost predicate Filled(s: string, i: nat, ls: seq<nat>)
    requires i <= |s|
  {
    && |ls| == (|s| + 7) / 8
    && Little(ls) == LowDigits(s, i)
    && (i / 8 < |ls| ==> ls[i / 8] < Pow(16, i % 8))
    && forall j :: i / 8 < j < |ls| ==> ls[j] == 0
  }

  lemma FilledStart(s: string, ls: seq<nat>)
    requires s != "" && |ls| == (|s| + 7) / 8 && forall j :: 0 <= j < |ls| ==> ls[j] == 0
    ensures Filled(s, 0, ls)
  {
    LittleZeros(ls);
    assert s[|s|..] == "";
  }

  lemma FilledStep(s: string, i: nat, ls: seq<nat>)
    requires i < |s| && Filled(s, i, ls)
    ensures i / 8 < |ls|
    ensures var l := Or(ls[i / 8], Wrap32(HexValue(s[|s| - 1 - i]) * Pow(2, i % 8 * 4)));
            l < TWO_32 && Filled(s, i + 1, ls[i / 8 := l])
  {
    hide HexNumber, HexValue, Little, Pow, Or, Wrap32, LowDigits;
    var k, m, digit := i / 8, i % 8, HexValue(s[|s| - 1 - i]);
    LowDigitsStep(s, i);
    Pow16IsPow2(m);
    DigitFits(ls[k], digit, m);
    LittleUpdate(ls, k, digit * Pow(16, m));
    Pow16Limbs(i);
    MulAssoc(digit, Pow(16, m), Pow(TWO_32, k));
    NextDigit(i);
    PowZero();
  }

  lemma FilledEnd(s: string, ls: seq<nat>)
    requires Filled(s, |s|, ls)
    ensures Little(ls) == HexNumber(s)
  {
    assert s[0..] == s;
  }

  lemma PowZero()
    ensures Pow(16, 0) == 1
  {
  }

  // ----- printing

  /** A limb as std::hex with width 8 and fill '0' prints it. */
  function HexPadded(limb: nat): string {
    DigitsMeaning(limb, 16);
    HexText(PadLeft(Digits(limb, 16), 8))
  }

  /** Printing one more, lower limb behind a non-zero number. */
  lemma HexAppendLimb(v: nat, limb: nat)
    requires v > 0 && limb < TWO_32
    ensures HexNumeral(v) + HexPadded(limb) == HexNumeral(limb + v * TWO_32)
  {
    Pow16Limb();
    DigitsMeaning(v, 16);
    DigitsMeaning(limb, 16);
    DigitsMeaning(limb + v * TWO_32, 16);
    hide Digits, Fixed, Pow, PadLeft, Value;
    PadLeftIsFixed(limb, 8, 16);
    DigitsAppend(v, limb, 8, 16);
    TextConcat(Digits(v, 16), PadLeft(Digits(limb, 16), 8));
  }

  lemma TextConcat(xs: seq<nat>, ys: seq<nat>)
    requires Below(xs, 16) && Below(ys, 16)
    ensures HexText(xs) + HexText(ys) == HexText(xs + ys)
  {
  }

  lemma SuffixCons(ls: seq<nat>, i: nat, top: nat)
    requires i < top <= |ls|
    ensures Little(ls[i..top]) == ls[i] + Little(ls[i + 1..top]) * TWO_32
  {
    assert ls[i..top] == [ls[i]] + ls[i + 1..top];
    LittleCons(ls[i], ls[i + 1..top]);
  }

  lemma {:induction false} DropZeroLimbs(ls: seq<nat>, top: nat)
    requires top <= |ls| && forall i :: top <= i < |ls| ==> ls[i] == 0
    ensures Little(ls) == Little(ls[..top])
    decreases |ls| - top
  {
    if top < |ls| {
      DropZeroLimbs(ls, top + 1);
      assert ls[..top + 1][..top] == ls[..top];
    } else {
      assert ls[..top] == ls;
    }
  }

  // ----- adding

  lemma CarryStep(a: nat, b: nat, r: nat, carry: nat, x: nat, y: nat, p: nat)
    requires r + carry * p == a + b && carry <= 1 && x < TWO_32 && y < TWO_32
    ensures var sum := x + y + carry;
            sum / TWO_32 <= 1
            && (r + (sum % TWO_32) * p) + (sum / TWO_32) * (TWO_32 * p) == (a + x * p) + (b + y * p)
  {
    var sum := x + y + carry;
    var q, l := sum / TWO_32, sum % TWO_32;
    assert sum == q * TWO_32 + l;
    assert (q * TWO_32 + l) * p == (x + y + carry) * p;
    Distribute(q * TWO_32, l, p);
    Distribute(x + y, carry, p);
    Distribute(x, y, p);
    MulAssoc(q, TWO_32, p);
  }

  class CryptoBigInt {
    var limbs: seq<uint32>

    /** The number held. */
    ghost function Number(): nat
      reads this
    {
      Little(limbs)
    }

    constructor ()
      ensures Number() == 0 && limbs == [0]
    {
      limbs := [0];
    }

    /** A rejected string leaves the limbs as they were. */
    method FromHexString(hexStr: string) returns (r: Result<()>)
      modifies this
      ensures r == if AllHex(hexStr) then Ok(()) else Err(InvalidArgument)
      ensures r.Ok? ==> Number() == HexNumber(hexStr)
      ensures r.Err? ==> limbs == old(limbs)
    {
      hide Filled, HexNumber, HexValue, Little, Pow, Or, Wrap32, LowDigits;
      if hexStr == "" {
        limbs := [0];
        EmptyIsZero();
        return Ok(());
      }
      for k := 0 to |hexStr|
        invariant AllHex(hexStr[..k]) && limbs == old(limbs)
      {
        if !IsHexDigit(hexStr[k]) {
          return Err(InvalidArgument);
        }
      }
      assert hexStr[..|hexStr|] == hexStr;
      var numLimbs := (|hexStr| + 7) / 8;
      limbs := seq(numLimbs, _ => 0);
      FilledStart(hexStr, limbs);
      for i := 0 to |hexStr|
        invariant |limbs| == numLimbs && Filled(hexStr, i, limbs)
      {
        var digitVal := HexValue(hexStr[|hexStr| - 1 - i]);
        var limbIndex := i / 8;
        var bitOffset := i % 8 * 4;
        FilledStep(hexStr, i, limbs);
        limbs := limbs[limbIndex := Or(limbs[limbIndex], Wrap32(digitVal * Pow(2, bitOffset)))];
      }
      FilledEnd(hexStr, limbs);
      return Ok(());
    }

    method IsZero() returns (zero: bool)
      ensures zero == (Number() == 0)
    {
      var acc := 0;
      for i := 0 to |limbs|
        invariant acc == 0 <==> forall j :: 0 <= j < i ==> limbs[j] == 0
      {
        OrIsZero(acc, limbs[i]);
        acc := Or(acc, limbs[i]);
      }
      LittleIsZero(limbs);
      return acc == 0;
    }

    /** The canonical lower-case numeral of the number. */
    method ToHexString() returns (result: string)
      ensures result == HexNumeral(Number())
    {
      hide Little, HexNumeral, HexPadded;
      var zero := IsZero();
      if zero {
        ZeroText();
        return "0";
      }
      LittleIsZero(limbs);
      var firstNonzero := |limbs|;
      var i := |limbs|;
      while i > 0 && firstNonzero == |limbs|
        invariant 0 <= i <= |limbs| && firstNonzero <= |limbs|
        invariant firstNonzero == |limbs| ==> forall j :: i <= j < |limbs| ==> limbs[j] == 0
        invariant firstNonzero < |limbs| ==>
             firstNonzero == i && limbs[i] != 0 && forall j :: i < j < |limbs| ==> limbs[j] == 0
      {
        if limbs[i - 1] != 0 {
          firstNonzero := i - 1;
        }
        i := i - 1;
      }
      DropZeroLimbs(limbs, firstNonzero + 1);
      result := HexNumeral(limbs[firstNonzero]);
      ghost var top := firstNonzero + 1;
      SuffixCons(limbs, firstNonzero, top);
      assert limbs[top..top] == [];
      EmptyIsZero();
      i := firstNonzero;
      while i > 0
        invariant 0 <= i <= firstNonzero && Little(limbs[i..top]) > 0
        invariant result == HexNumeral(Little(limbs[i..top]))
      {
        SuffixCons(limbs, i - 1, top);
        HexAppendLimb(Little(limbs[i..top]), limbs[i - 1]);
        result := result + HexPadded(limbs[i - 1]);
        i := i - 1;
      }
      assert limbs[0..top] == limbs[..top];
    }

    /** Removes zero limbs at the top, keeping at least one limb. */
    method Normalize()
      modifies this
      ensures Number() == old(Number())
      ensures |limbs| <= 1 || limbs[|limbs| - 1] != 0
    {
      while |limbs| > 1 && limbs[|limbs| - 1] == 0
        invariant Number() == old(Number())
        decreases |limbs|
      {
        limbs := limbs[..|limbs| - 1];
      }
    }

    /** Adds limb by limb into result; the number is the sum, less the carry out of the top. */
    static method ConstantTimeAdd(result: array<uint32>, a: array<uint32>, b: array<uint32>, numLimbs: nat)
      returns (carryOut: uint32)
      requires numLimbs <= result.Length && numLimbs <= a.Length && numLimbs <= b.Length
      requires result != a && result != b
      modifies result
      ensures Little(result[..numLimbs]) + carryOut * Pow(TWO_32, numLimbs)
           == Little(a[..numLimbs]) + Little(b[..numLimbs])
      ensures carryOut <= 1
      ensures result[numLimbs..] == old(result[numLimbs..])
    {
      hide Little, Pow;
      var carry := 0;
      EmptyIsZero();
      assert result[..0] == [] && a[..0] == [] && b[..0] == [];
      for i := 0 to numLimbs
        invariant 0 <= carry <= 1
        invariant Little(result[..i]) + carry * Pow(TWO_32, i) == Little(a[..i]) + Little(b[..i])
        invariant result[numLimbs..] == old(result[numLimbs..])
      {
        var sum := a[i] as int + b[i] as int + carry;
        CarryStep(Little(a[..i]), Little(b[..i]), Little(result[..i]), carry, a[i], b[i], Pow(TWO_32, i));
        ghost var done := result[..i];
        result[i] := sum % TWO_32;
        carry := sum / TWO_32;
        assert result[..i] == done;
        assert result[..i + 1] == result[..i] + [result[i]] && a[..i + 1] == a[..i] + [a[i]]
            && b[..i + 1] == b[..i] + [b[i]];
        LittleSnoc(result[..i], result[i]);
        LittleSnoc(a[..i], a[i]);
        LittleSnoc(b[..i], b[i]);
        PowStep(i);
      }
      return carry;
    }

    method Add(other: CryptoBigInt) returns (sum: CryptoBigInt)
      ensures fresh(sum) && sum.Number() == Number() + other.Number()
    {
      hide Little, Pow;
      var maxSize := if |limbs| < |other.limbs| then |other.limbs| else |limbs|;
      var own, others := limbs, other.limbs;
      var aLimbs := new uint32[maxSize](i => if 0 <= i < |own| then own[i] else 0);
      var bLimbs := new uint32[maxSize](i => if 0 <= i < |others| then others[i] else 0);
      var resultLimbs := new uint32[maxSize + 1](_ => 0);
      assert aLimbs[..|limbs|] == limbs && bLimbs[..|other.limbs|] == other.limbs;
      DropZeroLimbs(aLimbs[..maxSize], |limbs|);
      DropZeroLimbs(bLimbs[..maxSize], |other.limbs|);
      assert aLimbs[..maxSize][..|limbs|] == limbs && bLimbs[..maxSize][..|other.limbs|] == other.limbs;
      var carry := ConstantTimeAdd(resultLimbs, aLimbs, bLimbs, maxSize);
      resultLimbs[maxSize] := carry;
      LittleSnoc(resultLimbs[..maxSize], carry);
      assert resultLimbs[..] == resultLimbs[..maxSize] + [carry];
      sum := new CryptoBigInt();
      sum.limbs := resultLimbs[..];
      sum.Normalize();
    }
  }

  lemma EmptyIsZero()
    ensures Little([]) == 0 && Little([0]) == 0 && HexNumber("") == 0
  {
    LittleZeros([0]);
  }

  lemma PowStep(i: nat)
    ensures Pow(TWO_32, i + 1) == TWO_32 * Pow(TWO_32, i)
  {
  }

  lemma NextDigit(i: nat)
    ensures if i % 8 == 7 then (i + 1) / 8 == i / 8 + 1 && (i + 1) % 8 == 0
            else (i + 1) / 8 == i / 8 && (i + 1) % 8 == i % 8 + 1
  {
  }

  lemma ZeroText()
    ensures HexNumeral(0) == "0"
  {
  }

  /** Adds two hex strings of any lengths and letter case. */
  method ConstantTimeHexAdd(secretHex: string, positionHex: string) returns (r: Result<string>)
    ensures r == HexAdd(secretHex, positionHex)
  {
    if secretHex == "" || positionHex == "" {
      return Err(InvalidArgument);
    }
    var secret := new CryptoBigInt();
    var s := secret.FromHexString(secretHex);
    if s.Err? {
      return Err(InvalidArgument);
    }
    var position := new CryptoBigInt();
    var p := position.FromHexString(positionHex);
    if p.Err? {
      return Err(InvalidArgument);
    }
    var result := secret.Add(position);
    var text := result.ToHexString();
    return Ok(text);
  }
}
