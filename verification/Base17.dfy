/** The base-17 form of a molecular hash, and the signed symbols it stands for. */
module Base17 {
  import opened Common
  import opened Numerals
  import opened Hex
  import opened BaseConvert

  const SYMBOLS: string := "0123456789abcdefg"

  predicate IsSymbol17(c: char) {
    '0' <= c <= '9' || 'a' <= c <= 'g'
  }

  predicate Signable(hash: string) {
    |hash| == 64 && forall i :: 0 <= i < |hash| ==> IsSymbol17(hash[i])
  }

  method IsSignableHash(hash: string) returns (signable: bool)
    ensures signable == Signable(hash)
  {
    if |hash| != 64 {
      return false;
    }
    for i := 0 to |hash|
      invariant forall j :: 0 <= j < i ==> IsSymbol17(hash[j])
    {
      if !IsSymbol17(hash[i]) {
        return false;
      }
    }
    return true;
  }

  function Digit17(c: char): (v: nat)
    requires IsSymbol17(c)
    ensures v < 17
  {
    if c <= '9' then c as int - 48 else c as int - 87
  }

  lemma SymbolTable(v: nat)
    requires v < 17
    ensures |SYMBOLS| == 17 && IsSymbol17(SYMBOLS[v]) && Digit17(SYMBOLS[v]) == v
  {
  }

  /** Left padding with '0' characters up to 64; a longer text is unchanged. */
  function Pad64(s: string): string {
    seq(if |s| < 64 then 64 - |s| else 0, _ => '0') + s
  }

  /** The molecular hash text of a hex digest. */
  function ToBase17(hex: string): string
    requires hex != "" && AllHex(hex)
  {
    Pad64(Numeral(HexNumber(hex), 17, SYMBOLS))
  }

  /** The digits of a signable text. */
  function Digits17(hash: string): (ds: seq<nat>)
    requires forall i :: 0 <= i < |hash| ==> IsSymbol17(hash[i])
    ensures |ds| == |hash| && Below(ds, 17)
  {
    seq(|hash|, i requires 0 <= i < |hash| => Digit17(hash[i]))
  }

  lemma HexBound(hex: string)
    requires |hex| == 64
    ensures HexNumber(hex) < Pow(17, 64)
  {
    ValueBound(HexDigits(hex), 16);
    PowMonotone(16, 17, 64);
  }

  /** Every 64-digit hex digest becomes exactly 64 base-17 symbols that denote the same number. */
  lemma DigestIsSignable(hex: string)
    requires |hex| == 64 && AllHex(hex)
    ensures Signable(ToBase17(hex))
    ensures Digits17(ToBase17(hex)) == Fixed(HexNumber(hex), 64, 17)
    ensures Value(Digits17(ToBase17(hex)), 17) == HexNumber(hex)
  {
    hide Pow, Fixed, Value, Digits, HexNumber;
    var n := HexNumber(hex);
    HexBound(hex);
    DigitsLength(n, 17, 64);
    DigitsMeaning(n, 17);
    PadLeftIsFixed(n, 64, 17);
    FixedMeaning(n, 64, 17);
    var ds := PadLeft(Digits(n, 17), 64);
    var t := ToBase17(hex);
    assert |t| == 64 == |ds|;
    forall i | 0 <= i < 64
      ensures IsSymbol17(t[i]) && Digit17(t[i]) == ds[i]
    {
      SymbolTable(ds[i]);
      assert t[i] == SYMBOLS[ds[i]];
    }
    assert Digits17(t) == ds;
  }

  /** Two digests have the same base-17 text exactly when they are equal up to letter case. */
  lemma DigestInjective(x: string, y: string)
    requires |x| == |y| == 64 && AllHex(x) && AllHex(y)
    ensures ToBase17(x) == ToBase17(y) <==> Lower(x) == Lower(y)
  {
    DigestIsSignable(x);
    DigestIsSignable(y);
    LowerDigits(x);
    LowerDigits(y);
    if ToBase17(x) == ToBase17(y) {
      FixedUnique(HexDigits(x), HexDigits(y), 16);
    }
  }

  lemma LowerDigits(s: string)
    requires AllHex(s)
    ensures HexDigits(Lower(s)) == HexDigits(s) && Lower(s) == HexText(HexDigits(s))
  {
    forall i | 0 <= i < |s|
      ensures HexValue(Lower(s)[i]) == HexValue(s[i]) && Lower(s)[i] == HexText(HexDigits(s))[i]
    {
      assert IsHexDigit(s[i]);
      HexSymbolOfValue(s[i]);
    }
  }

  /** The signed values of the symbols of a text, in order; other characters are dropped. */
  function Enumerated(hash: string): (vs: seq<int8>)
    ensures |vs| <= |hash| && forall i :: 0 <= i < |vs| ==> -8 <= vs[i] <= 8
  {
    if hash == "" then []
    else
      var c := hash[|hash| - 1];
      Enumerated(hash[..|hash| - 1]) + if IsSymbol17(c) then [Digit17(c) - 8] else []
  }

  method Enumerate(hash: string) returns (target: seq<int8>)
    ensures target == Enumerated(hash)
  {
    target := [];
    for i := 0 to |hash|
      invariant target == Enumerated(hash[..i])
    {
      assert hash[..i + 1][..i] == hash[..i];
      var c := hash[i];
      if c == '0' { target := target + [-8]; }
      else if c == '1' { target := target + [-7]; }
      else if c == '2' { target := target + [-6]; }
      else if c == '3' { target := target + [-5]; }
      else if c == '4' { target := target + [-4]; }
      else if c == '5' { target := target + [-3]; }
      else if c == '6' { target := target + [-2]; }
      else if c == '7' { target := target + [-1]; }
      else if c == '8' { target := target + [0]; }
      else if c == '9' { target := target + [1]; }
      else if c == 'a' { target := target + [2]; }
      else if c == 'b' { target := target + [3]; }
      else if c == 'c' { target := target + [4]; }
      else if c == 'd' { target := target + [5]; }
      else if c == 'e' { target := target + [6]; }
      else if c == 'f' { target := target + [7]; }
      else if c == 'g' { target := target + [8]; }
    }
    assert hash[..|hash|] == hash;
  }

  /** Enumerating a signable hash drops nothing: one value per symbol, its digit less 8. */
  lemma {:induction false} EnumeratedComplete(hash: string)
    requires forall i :: 0 <= i < |hash| ==> IsSymbol17(hash[i])
    ensures |Enumerated(hash)| == |hash|
    ensures forall i :: 0 <= i < |hash| ==> Enumerated(hash)[i] + 8 == Digits17(hash)[i]
  {
    if hash != "" {
      EnumeratedComplete(hash[..|hash| - 1]);
    }
  }

  /** The values recover the hash. */
  lemma EnumeratedInjective(x: string, y: string)
    requires Signable(x) && Signable(y) && Enumerated(x) == Enumerated(y)
    ensures x == y
  {
    EnumeratedComplete(x);
    EnumeratedComplete(y);
    forall i | 0 <= i < 64
      ensures x[i] == y[i]
    {
      assert Digits17(x)[i] == Digits17(y)[i];
    }
  }
}
