/** Positional numerals: what a digit list denotes, and the one canonical digit list of a number. */
module Numerals {
  function Pow(b: nat, e: nat): nat {
    if e == 0 then 1 else b * Pow(b, e - 1)
  }

  /** The number that a digit list denotes, most significant digit first. */
  function Value(ds: seq<nat>, b: nat): nat {
    if |ds| == 0 then 0 else Value(ds[..|ds| - 1], b) * b + ds[|ds| - 1]
  }

  /** Every digit is below the base. */
  predicate Below(ds: seq<nat>, b: nat) {
    forall i :: 0 <= i < |ds| ==> ds[i] < b
  }

  /** No leading zero, except in the one-digit numeral of zero. */
  predicate Canonical(ds: seq<nat>) {
    |ds| > 0 && (|ds| > 1 ==> ds[0] != 0)
  }

  /** The canonical digits of n. DigitsMeaning and DigitsUnique say that they are the only ones. */
  function Digits(n: nat, b: nat): seq<nat>
    requires b >= 2
  {
    if n < b then [n] else
      DivSmaller(n, b);
      Digits(n / b, b) + [n % b]
  }

  /** The k low digits of n, with leading zeros. */
  function Fixed(n: nat, k: nat, b: nat): (ds: seq<nat>)
    requires b >= 1
    ensures |ds| == k
  {
    if k == 0 then [] else Fixed(n / b, k - 1, b) + [n % b]
  }

  function Zeros(k: nat): (z: seq<nat>)
    ensures |z| == k
  {
    seq(k, _ => 0)
  }

  /** Left padding with zero digits up to width k; a longer list is unchanged. */
  function PadLeft(ds: seq<nat>, k: nat): seq<nat> {
    Zeros(if |ds| < k then k - |ds| else 0) + ds
  }

  lemma MulMonotone(x: int, y: int, b: nat)
    requires x <= y
    ensures x * b <= y * b
  {
  }

  lemma MulAssoc(x: int, y: int, z: int)
    ensures (x * y) * z == x * (y * z)
  {
  }

  lemma Distribute(x: int, y: int, z: int)
    ensures (x + y) * z == x * z + y * z
  {
  }

  lemma PowPositive(b: nat, e: nat)
    requires b > 0
    ensures Pow(b, e) > 0
  {
  }

  lemma {:induction false} PowAdd(b: nat, e: nat, f: nat)
    ensures Pow(b, e + f) == Pow(b, e) * Pow(b, f)
  {
    if e == 0 {
    } else {
      PowAdd(b, e - 1, f);
      MulAssoc(b, Pow(b, e - 1), Pow(b, f));
    }
  }

  lemma {:induction false} PowMonotone(b: nat, c: nat, e: nat)
    requires b <= c
    ensures Pow(b, e) <= Pow(c, e)
  {
    if e == 0 {
    } else {
      PowMonotone(b, c, e - 1);
      MulMonotone(b, c, Pow(b, e - 1));
      MulMonotone(Pow(b, e - 1), Pow(c, e - 1), c);
    }
  }

  lemma DivModOfSum(q: nat, r: nat, b: nat)
    requires r < b
    ensures (q * b + r) / b == q && (q * b + r) % b == r
  {
    var n := q * b + r;
    var d := n / b - q;
    assert d * b == (n / b) * b - q * b;
    if d > 0 {
      MulMonotone(1, d, b);
    } else if d < 0 {
      MulMonotone(d, -1, b);
    }
  }

  lemma DivSmaller(n: nat, b: nat)
    requires b >= 2 && n > 0
    ensures n / b < n && (n >= b ==> n / b > 0)
  {
    var q := n / b;
    assert n == q * b + n % b;
    MulMonotone(2, b, n);
    if q >= n {
      MulMonotone(n, q, b);
    } else if q <= 0 {
      MulMonotone(q, 0, b);
    }
  }

  /** Dropping the last of k base-b digits leaves k - 1 of them. */
  lemma DivFits(n: nat, b: nat, p: nat)
    requires b >= 1 && n < b * p
    ensures n / b < p
  {
    assert (n / b) * b <= n;
    if n / b >= p {
      MulMonotone(p, n / b, b);
    }
  }

  lemma ValueSnoc(ds: seq<nat>, d: nat, b: nat)
    ensures Value(ds + [d], b) == Value(ds, b) * b + d
  {
    assert (ds + [d])[..|ds|] == ds;
  }

  lemma DivIdentity(n: nat, b: nat)
    requires b > 0
    ensures n == (n / b) * b + n % b
  {
  }

  lemma Recompose(ds: seq<nat>, q: nat, r: nat, b: nat)
    requires Value(ds, b) == q
    ensures Value(ds + [r], b) == q * b + r
  {
    ValueSnoc(ds, r, b);
  }

  lemma {:induction false} ValueConcat(xs: seq<nat>, ys: seq<nat>, b: nat)
    ensures Value(xs + ys, b) == Value(xs, b) * Pow(b, |ys|) + Value(ys, b)
  {
    if |ys| == 0 {
      assert xs + ys == xs;
    } else {
      var y, k := ys[..|ys| - 1], |ys| - 1;
      assert xs + ys == (xs + y) + [ys[k]] && ys == y + [ys[k]];
      var v, p, w := Value(xs, b), Pow(b, k), Value(y, b);
      ValueConcat(xs, y, b);
      Recompose(xs + y, v * p + w, ys[k], b);
      Recompose(y, w, ys[k], b);
      Distribute(v * p, w, b);
      MulAssoc(v, p, b);
      assert Pow(b, |ys|) == b * p == p * b;
    }
  }

  lemma {:induction false} ValueBound(ds: seq<nat>, b: nat)
    requires b > 0 && Below(ds, b)
    ensures Value(ds, b) < Pow(b, |ds|)
  {
    if |ds| == 0 {
    } else {
      var ys := ds[..|ds| - 1];
      ValueBound(ys, b);
      AppendBound(Value(ys, b), ds[|ds| - 1], Pow(b, |ys|), b);
    }
  }

  lemma AppendBound(v: nat, d: nat, p: nat, b: nat)
    requires v < p && d < b
    ensures v * b + d < b * p
  {
    MulMonotone(v + 1, p, b);
    Distribute(v, 1, b);
  }

  lemma {:induction false} ZerosValue(k: nat, b: nat)
    ensures Value(Zeros(k), b) == 0
  {
    if k == 0 {
    } else {
      assert Zeros(k)[..k - 1] == Zeros(k - 1);
      ZerosValue(k - 1, b);
    }
  }

  lemma PadLeftValue(ds: seq<nat>, k: nat, b: nat)
    ensures Value(PadLeft(ds, k), b) == Value(ds, b)
  {
    var z := Zeros(if |ds| < k then k - |ds| else 0);
    ValueConcat(z, ds, b);
    ZerosValue(|z|, b);
  }

  /** Digits(n, b) is a canonical base-b numeral of n. */
  lemma {:induction false} DigitsMeaning(n: nat, b: nat)
    requires b >= 2
    ensures Value(Digits(n, b), b) == n && Below(Digits(n, b), b) && Canonical(Digits(n, b))
    ensures n > 0 ==> Digits(n, b)[0] != 0
  {
    if n < b {
      Recompose([], 0, n, b);
      assert [] + [n] == [n];
    } else {
      DivSmaller(n, b);
      DigitsMeaning(n / b, b);
      Recompose(Digits(n / b, b), n / b, n % b, b);
      DivIdentity(n, b);
    }
  }

  lemma {:induction false} LeadingDigitPositive(ds: seq<nat>, b: nat)
    requires b > 0 && |ds| > 0 && ds[0] != 0
    ensures Value(ds, b) > 0
  {
    if |ds| == 1 {
      assert ds[..0] == [];
    } else {
      LeadingDigitPositive(ds[..|ds| - 1], b);
      assert Value(ds[..|ds| - 1], b) * b >= b;
    }
  }

  /** Any canonical base-b numeral is the Digits of the number it denotes. */
  lemma {:induction false} DigitsUnique(ds: seq<nat>, b: nat)
    requires b >= 2 && Below(ds, b) && Canonical(ds)
    ensures ds == Digits(Value(ds, b), b)
  {
    var k := |ds| - 1;
    var ys := ds[..k];
    DivModOfSum(Value(ys, b), ds[k], b);
    if k == 0 {
      assert ys == [];
    } else {
      LeadingDigitPositive(ys, b);
      assert Value(ys, b) * b >= b;
      DigitsUnique(ys, b);
      assert ds == ys + [ds[k]];
    }
  }

  lemma {:induction false} DigitsLength(n: nat, b: nat, k: nat)
    requires b >= 2 && k >= 1 && n < Pow(b, k)
    ensures |Digits(n, b)| <= k
  {
    if n >= b {
      assert k > 1 by {
        assert Pow(b, 1) == b * Pow(b, 0);
      }
      DivSmaller(n, b);
      DivFits(n, b, Pow(b, k - 1));
      DigitsLength(n / b, b, k - 1);
    }
  }

  lemma {:induction false} FixedMeaning(n: nat, k: nat, b: nat)
    requires b >= 2 && n < Pow(b, k)
    ensures Value(Fixed(n, k, b), b) == n && Below(Fixed(n, k, b), b)
  {
    if k > 0 {
      DivFits(n, b, Pow(b, k - 1));
      FixedMeaning(n / b, k - 1, b);
      Recompose(Fixed(n / b, k - 1, b), n / b, n % b, b);
      DivIdentity(n, b);
    }
  }

  /** Two equally long digit lists below the base denote the same number only when they are equal. */
  lemma {:induction false} FixedUnique(xs: seq<nat>, ys: seq<nat>, b: nat)
    requires b >= 1 && |xs| == |ys| && Below(xs, b) && Below(ys, b) && Value(xs, b) == Value(ys, b)
    ensures xs == ys
  {
    var k := |xs| - 1;
    if k >= 0 {
      DivModOfSum(Value(xs[..k], b), xs[k], b);
      DivModOfSum(Value(ys[..k], b), ys[k], b);
      FixedUnique(xs[..k], ys[..k], b);
      assert xs == xs[..k] + [xs[k]] && ys == ys[..k] + [ys[k]];
    }
  }

  /** A numeral that fits k digits, padded to k digits, is the k-digit numeral. */
  lemma PadLeftIsFixed(n: nat, k: nat, b: nat)
    requires b >= 2 && k >= 1 && n < Pow(b, k)
    ensures PadLeft(Digits(n, b), k) == Fixed(n, k, b)
  {
    DigitsMeaning(n, b);
    DigitsLength(n, b, k);
    FixedMeaning(n, k, b);
    PadLeftValue(Digits(n, b), k, b);
    FixedUnique(PadLeft(Digits(n, b), k), Fixed(n, k, b), b);
  }

  /** Writing v and then the k low digits of w writes v * b^k + w. */
  lemma DigitsAppend(v: nat, w: nat, k: nat, b: nat)
    requires b >= 2 && v > 0 && w < Pow(b, k)
    ensures Digits(v, b) + Fixed(w, k, b) == Digits(v * Pow(b, k) + w, b)
  {
    var ds := Digits(v, b) + Fixed(w, k, b);
    DigitsMeaning(v, b);
    FixedMeaning(w, k, b);
    ValueConcat(Digits(v, b), Fixed(w, k, b), b);
    DigitsUnique(ds, b);
  }

  /** A 32-bit limb is eight hex digits. */
  lemma Pow16Limb()
    ensures Pow(16, 8) == 0x1_0000_0000
  {
    assert Pow(16, 4) == 65536;
    PowAdd(16, 4, 4);
  }

  lemma OneMore(x: int, n: nat)
    ensures x * (n + 1) == x * n + x
  {
  }
}
