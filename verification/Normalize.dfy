/** Molecule::normalize: the enumerated hash is moved, entry by entry, until it sums to zero. */
module Normalize {
  import opened Common
  import opened Numerals

  predicate InRange(v: seq<int8>) {
    forall i :: 0 <= i < |v| ==> -8 <= v[i] <= 8
  }

  function Sum(v: seq<int>): int {
    if |v| == 0 then 0 else Sum(v[..|v| - 1]) + v[|v| - 1]
  }

  /** One entry after n steps, down to -8 at the lowest or up to 8 at the highest. */
  function Step(x: int, n: nat, up: bool): int {
    if up then (if x + n > 8 then 8 else x + n) else if x - n < -8 then -8 else x - n
  }

  /** The vector after k full passes and one more step on the first j entries. */
  function Level(v: seq<int8>, k: nat, j: nat, up: bool): (w: seq<int>)
    requires InRange(v)
    ensures |w| == |v|
    ensures forall i :: 0 <= i < |w| ==> w[i] == Step(v[i], if i < j then k + 1 else k, up) && -8 <= w[i] <= 8
  {
    seq(|v|, i requires 0 <= i < |v| => Step(v[i], if i < j then k + 1 else k, up))
  }

  lemma SumSnoc(v: seq<int>, x: int)
    ensures Sum(v + [x]) == Sum(v) + x
  {
    assert (v + [x])[..|v|] == v;
  }

  lemma {:induction false} SumUpdate(v: seq<int>, i: nat, x: int)
    requires i < |v|
    ensures Sum(v[i := x]) == Sum(v) - v[i] + x
  {
    var w, t := v[i := x], |v| - 1;
    if i == t {
      assert w[..t] == v[..t];
    } else {
      assert w[..t] == v[..t][i := x];
      SumUpdate(v[..t], i, x);
    }
  }

  lemma {:induction false} SumMonotone(v: seq<int>, w: seq<int>)
    requires |v| == |w| && forall i :: 0 <= i < |v| ==> v[i] <= w[i]
    ensures Sum(v) <= Sum(w)
    ensures Sum(v) == Sum(w) ==> v == w
  {
    if |v| > 0 {
      var t := |v| - 1;
      SumMonotone(v[..t], w[..t]);
      assert v == v[..t] + [v[t]] && w == w[..t] + [w[t]];
    }
  }

  lemma {:induction false} SumBounds(v: seq<int>, lo: int, hi: int)
    requires forall i :: 0 <= i < |v| ==> lo <= v[i] <= hi
    ensures lo * |v| <= Sum(v) <= hi * |v|
  {
    if |v| > 0 {
      var n: nat := |v| - 1;
      SumBounds(v[..n], lo, hi);
      OneMore(lo, n);
      OneMore(hi, n);
    }
  }

  predicate Reached(v: seq<int8>, w: seq<int>, k: nat, j: nat)
    requires InRange(v)
  {
    k <= 16 && j <= |v| && w == Level(v, k, j, Sum(v) < 0)
  }

  /** The closed form: some number of full clamped passes, then one more step on a prefix, in the direction
      that lowers the magnitude of the sum, reaching sum zero. */
  ghost predicate IsNormalForm(v: seq<int8>, w: seq<int>)
    requires InRange(v)
  {
    Sum(w) == 0 && exists k: nat, j: nat :: Reached(v, w, k, j)
  }

  /** Levels are ordered: a later one lies on one side of an earlier one, entry by entry. */
  lemma LevelsOrdered(v: seq<int8>, k: nat, j: nat, k': nat, j': nat, up: bool)
    requires InRange(v) && j <= |v| && j' <= |v|
    requires k < k' || (k == k' && j <= j')
    ensures forall i :: 0 <= i < |v| ==> if up then Level(v, k, j, up)[i] <= Level(v, k', j', up)[i]
                                         else Level(v, k', j', up)[i] <= Level(v, k, j, up)[i]
  {
  }

  /** There is at most one normal form. */
  lemma NormalFormUnique(v: seq<int8>, w: seq<int>, x: seq<int>)
    requires InRange(v) && IsNormalForm(v, w) && IsNormalForm(v, x)
    ensures w == x
  {
    var up := Sum(v) < 0;
    var k: nat, j: nat :| Reached(v, w, k, j);
    var k': nat, j': nat :| Reached(v, x, k', j');
    if k < k' || (k == k' && j <= j') {
      LevelsOrdered(v, k, j, k', j', up);
      SumOrdered(w, x, up);
    } else {
      LevelsOrdered(v, k', j', k, j, up);
      SumOrdered(x, w, up);
    }
  }

  lemma SumOrdered(v: seq<int>, w: seq<int>, up: bool)
    requires |v| == |w| && Sum(v) == Sum(w)
    requires forall i :: 0 <= i < |v| ==> if up then v[i] <= w[i] else w[i] <= v[i]
    ensures v == w
  {
    if up {
      SumMonotone(v, w);
    } else {
      SumMonotone(w, v);
    }
  }

  // ----- the loop

  lemma LevelStart(v: seq<int8>, up: bool)
    requires InRange(v)
    ensures Level(v, 0, 0, up) == v
  {
  }

  lemma LevelPass(v: seq<int8>, k: nat, up: bool)
    requires InRange(v)
    ensures Level(v, k, |v|, up) == Level(v, k + 1, 0, up)
  {
  }

  /** Entry j moves by one unless it is at the end of the range. */
  lemma LevelNext(v: seq<int8>, k: nat, j: nat, up: bool)
    requires InRange(v) && j < |v|
    ensures var w := Level(v, k, j, up);
            Level(v, k, j + 1, up) == w[j := if up then (if w[j] < 8 then w[j] + 1 else w[j])
                                             else if w[j] > -8 then w[j] - 1 else w[j]]
  {
  }

  /** After 16 passes every entry is at the end of the range, past sum zero. */
  lemma LevelEnd(v: seq<int8>, up: bool)
    requires InRange(v)
    ensures if up then Sum(Level(v, 16, 0, up)) >= 0 else Sum(Level(v, 16, 0, up)) <= 0
  {
    var w := Level(v, 16, 0, up);
    if up {
      SumBounds(w, 8, 8);
    } else {
      SumBounds(w, -8, -8);
    }
  }

  /** Terminates for every vector over -8..8, at the one normal form. */
  method Normalize(mapped: seq<int8>) returns (out: seq<int8>)
    requires InRange(mapped)
    ensures IsNormalForm(mapped, out) && out == Normalized(mapped)
  {
    hide Level, Sum, InRange;
    var total: int := 0;
    SumEmpty();
    for i := 0 to |mapped|
      invariant total == Sum(mapped[..i])
    {
      assert mapped[..i + 1] == mapped[..i] + [mapped[i]];
      SumSnoc(mapped[..i], mapped[i]);
      total := total + mapped[i];
    }
    assert mapped[..|mapped|] == mapped;
    var totalCondition := total < 0;
    out := mapped;
    ghost var k: nat := 0;
    LevelStart(mapped, totalCondition);
    assert total == 0 ==> Reached(mapped, out, 0, 0);
    while total != 0
      invariant total == Sum(out) && (if totalCondition then total <= 0 else total >= 0)
      invariant k <= 16
      invariant total != 0 ==> out == Level(mapped, k, 0, totalCondition)
      invariant total == 0 ==> exists i: nat, j: nat :: Reached(mapped, out, i, j)
      decreases 16 - k
    {
      if k == 16 {
        LevelEnd(mapped, totalCondition);
        assert false;
      }
      var j := 0;
      while j < |out| && total != 0
        invariant 0 <= j <= |out| == |mapped|
        invariant total == Sum(out) && (if totalCondition then total <= 0 else total >= 0)
        invariant out == Level(mapped, k, j, totalCondition)
      {
        var c := out[j];
        LevelNext(mapped, k, j, totalCondition);
        SumUpdate(out, j, if totalCondition then c + 1 else c - 1);
        if totalCondition && c < 8 {
          out := out[j := c + 1];
          total := total + 1;
        } else if !totalCondition && c > -8 {
          out := out[j := c - 1];
          total := total - 1;
        }
        j := j + 1;
      }
      assert total == 0 ==> Reached(mapped, out, k, j);
      LevelPass(mapped, k, totalCondition);
      k := k + 1;
    }
    NormalizedIs(mapped, out);
  }

  lemma SumEmpty()
    ensures Sum([]) == 0
  {
  }

  /** From any level on the near side of zero, a later level or this one sums to zero. */
  lemma {:induction false} NormalFormFrom(v: seq<int8>, k: nat, j: nat)
    requires InRange(v) && k <= 16 && j <= |v|
    requires k == 16 ==> j == 0
    requires if Sum(v) < 0 then Sum(Level(v, k, j, true)) <= 0 else Sum(Level(v, k, j, false)) >= 0
    ensures exists w: seq<int8> :: IsNormalForm(v, w)
    decreases 16 - k, |v| - j
  {
    hide Level, Sum, InRange;
    var up := Sum(v) < 0;
    var w: seq<int8> := Level(v, k, j, up);
    if Sum(w) == 0 {
      assert Reached(v, w, k, j);
      assert IsNormalForm(v, w);
    } else if k == 16 {
      LevelEnd(v, up);
    } else if j == |v| {
      LevelPass(v, k, up);
      NormalFormFrom(v, k + 1, 0);
    } else {
      LevelNext(v, k, j, up);
      SumUpdate(w, j, if up then w[j] + 1 else w[j] - 1);
      SumUpdate(w, j, w[j]);
      NormalFormFrom(v, k, j + 1);
    }
  }

  lemma NormalFormExists(v: seq<int8>)
    requires InRange(v)
    ensures exists w: seq<int8> :: IsNormalForm(v, w)
  {
    var up := Sum(v) < 0;
    LevelStart(v, up);
    NormalFormFrom(v, 0, 0);
  }

  /** The normal form of a vector, as a value. */
  ghost function Normalized(v: seq<int8>): (w: seq<int8>)
    requires InRange(v)
    ensures IsNormalForm(v, w)
  {
    NormalFormExists(v);
    var w: seq<int8> :| IsNormalForm(v, w);
    w
  }

  lemma NormalizedIs(v: seq<int8>, w: seq<int8>)
    requires InRange(v) && IsNormalForm(v, w)
    ensures w == Normalized(v)
  {
    NormalFormUnique(v, w, Normalized(v));
  }

  /** How far every entry moved. */
  function Moves(v: seq<int>, w: seq<int>): (m: seq<int>)
    requires |v| == |w|
    ensures |m| == |v|
  {
    seq(|v|, i requires 0 <= i < |v| => if w[i] >= v[i] then w[i] - v[i] else v[i] - w[i])
  }

  lemma {:induction false} SumOfMoves(v: seq<int>, w: seq<int>, up: bool)
    requires |v| == |w| && forall i :: 0 <= i < |v| ==> if up then v[i] <= w[i] else w[i] <= v[i]
    ensures Sum(Moves(v, w)) == if up then Sum(w) - Sum(v) else Sum(v) - Sum(w)
  {
    if |v| > 0 {
      var t := |v| - 1;
      assert Moves(v, w)[..t] == Moves(v[..t], w[..t]);
      SumOfMoves(v[..t], w[..t], up);
    }
  }

  /** Normalizing keeps the length and the range, reaches sum zero, moves every entry in one direction only,
      and moves them by exactly the magnitude of the sum in total. */
  lemma NormalizedMeaning(v: seq<int8>)
    requires InRange(v)
    ensures var w := Normalized(v);
            |w| == |v| && InRange(w) && Sum(w) == 0
            && (Sum(v) <= 0 ==> forall i :: 0 <= i < |v| ==> v[i] <= w[i])
            && (Sum(v) >= 0 ==> forall i :: 0 <= i < |v| ==> w[i] <= v[i])
            && Sum(Moves(v, w)) == if Sum(v) < 0 then -Sum(v) else Sum(v)
  {
    var w, up := Normalized(v), Sum(v) < 0;
    var k: nat, j: nat :| Reached(v, w, k, j);
    SumOfMoves(v, w, up);
    if Sum(v) == 0 {
      LevelStart(v, up);
      assert Reached(v, v, 0, 0);
      NormalizedIs(v, v);
    }
  }

  /** A vector over -8..8 with sum zero is its own normal form. */
  lemma NormalizedFixpoint(v: seq<int8>)
    requires InRange(v) && Sum(v) == 0
    ensures Normalized(v) == v
  {
    LevelStart(v, false);
    assert Reached(v, v, 0, 0);
    NormalizedIs(v, v);
  }

  /** The numbers of chain steps that signing takes. */
  /** The walk starts at the first entry: a sum one off is set right there, if that entry can still move. */
  lemma FirstEntryMoves(v: seq<int8>)
    requires InRange(v) && v != []
    ensures Sum(v) == 1 && v[0] > -8 ==> Normalized(v) == v[0 := v[0] - 1]
    ensures Sum(v) == -1 && v[0] < 8 ==> Normalized(v) == v[0 := v[0] + 1]
  {
    if Sum(v) == 1 && v[0] > -8 {
      var w: seq<int8> := v[0 := v[0] - 1];
      assert Level(v, 0, 1, false) == w;
      SumUpdate(v, 0, v[0] - 1);
      assert Reached(v, w, 0, 1);
      NormalizedIs(v, w);
    }
    if Sum(v) == -1 && v[0] < 8 {
      var w: seq<int8> := v[0 := v[0] + 1];
      assert Level(v, 0, 1, true) == w;
      SumUpdate(v, 0, v[0] + 1);
      assert Reached(v, w, 0, 1);
      NormalizedIs(v, w);
    }
  }

  function SignCounts(w: seq<int8>): (c: seq<int>)
    ensures |c| == |w|
  {
    seq(|w|, i requires 0 <= i < |w| => 8 - w[i] as int)
  }

  lemma {:induction false} SumOfCounts(w: seq<int8>)
    ensures Sum(SignCounts(w)) == 8 * |w| - Sum(w)
  {
    if |w| > 0 {
      var t := |w| - 1;
      assert SignCounts(w)[..t] == SignCounts(w[..t]);
      SumOfCounts(w[..t]);
    }
  }

  /** All 64 signing counts lie in 0..16 and total 512, and no normalized vector is pointwise above a different one. A
      v2 signature runs a chain for each of the 64, so no hash asks it for at least as many steps of every chain as
      another. */
  lemma CountsBalanced(v: seq<int8>, v': seq<int8>)
    requires InRange(v) && InRange(v') && |v| == |v'| == 64
    ensures Sum(SignCounts(Normalized(v))) == 512
    ensures forall i :: 0 <= i < 64 ==> 0 <= SignCounts(Normalized(v))[i] <= 16
    ensures Normalized(v) != Normalized(v') ==> exists i :: 0 <= i < 64 && Normalized(v)[i] < Normalized(v')[i]
  {
    NormalizedMeaning(v);
    NormalizedMeaning(v');
    SumOfCounts(Normalized(v));
    if forall i :: 0 <= i < 64 ==> Normalized(v')[i] <= Normalized(v)[i] {
      SumMonotone(Normalized(v'), Normalized(v));
    }
  }
}
