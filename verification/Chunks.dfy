/** chunkSubstr: cutting a text into equal pieces, and gluing pieces together. */
module Chunks {
  import opened Numerals

  function Concat(parts: seq<string>): string {
    if |parts| == 0 then "" else parts[0] + Concat(parts[1..])
  }

  /** Pieces of the given size, the last one possibly shorter. */
  function Pieces(s: string, size: nat): (parts: seq<string>)
    requires size > 0
  {
    if |s| == 0 then []
    else if |s| <= size then [s]
    else [s[..size]] + Pieces(s[size..], size)
  }

  /** a / b rounded up. */
  function CeilDiv(a: nat, b: nat): nat
    requires b > 0
  {
    (a + b - 1) / b
  }

  lemma CeilMeaning(a: nat, b: nat)
    requires b > 0
    ensures CeilDiv(a, b) * b >= a && (a > 0 ==> (CeilDiv(a, b) - 1) * b < a) && (a == 0 ==> CeilDiv(a, b) == 0)
  {
    DivIdentity(a + b - 1, b);
    Distribute(CeilDiv(a, b), -1, b);
    DivModOfSum(0, b - 1, b);
  }

  lemma PositiveFactor(x: nat, y: nat)
    requires x * y > 0
    ensures x > 0
  {
  }

  lemma {:induction false} PiecesCount(s: string, size: nat)
    requires size > 0
    ensures |Pieces(s, size)| * size >= |s| && (s != "" ==> (|Pieces(s, size)| - 1) * size < |s|)
  {
    if |s| > size {
      var k := |Pieces(s[size..], size)|;
      PiecesCount(s[size..], size);
      Distribute(k, 1, size);
      Distribute(k, -1, size);
    }
  }

  /** Gluing the pieces gives the text back. */
  lemma {:induction false} ConcatPieces(s: string, size: nat)
    requires size > 0
    ensures Concat(Pieces(s, size)) == s
  {
    if |s| > size {
      ConcatPieces(s[size..], size);
      var head, tail := s[..size], Pieces(s[size..], size);
      assert ([head] + tail)[1..] == tail;
      assert head + s[size..] == s;
    } else if |s| > 0 {
      assert Concat([s]) == s + Concat([s][1..]);
    }
  }

  /** All pieces have the given size. */
  predicate Uniform(parts: seq<string>, size: nat) {
    forall i :: 0 <= i < |parts| ==> |parts[i]| == size
  }

  /** Cutting what was glued from pieces of one size gives the pieces back. */
  lemma {:induction false} PiecesConcat(parts: seq<string>, size: nat)
    requires size > 0 && Uniform(parts, size)
    ensures Pieces(Concat(parts), size) == parts
    ensures |Concat(parts)| == |parts| * size
  {
    if |parts| == 1 {
      assert Concat(parts) == parts[0] + Concat(parts[1..]) == parts[0];
    } else if |parts| > 1 {
      var head, rest := parts[0], Concat(parts[1..]);
      PiecesConcat(parts[1..], size);
      Distribute(|parts| - 1, 1, size);
      MulMonotone(1, |parts| - 1, size);
      assert (head + rest)[..size] == head && (head + rest)[size..] == rest;
      assert [head] + parts[1..] == parts;
    }
  }

  /** A text whose length is a multiple of the size is cut into pieces of that size. */
  lemma {:induction false} PiecesUniform(s: string, size: nat, n: nat)
    requires size > 0 && |s| == n * size
    ensures |Pieces(s, size)| == n && Uniform(Pieces(s, size), size)
  {
    if n > 1 {
      Distribute(n - 1, 1, size);
      MulMonotone(1, n - 1, size);
      PiecesUniform(s[size..], size, n - 1);
    }
  }

  /** Splitting L characters over n atoms by the rounded-up quotient makes at least one piece and at most n. */
  lemma FragmentsFit(s: string, n: nat)
    requires s != "" && n > 0
    ensures CeilDiv(|s|, n) > 0
    ensures 1 <= |Pieces(s, CeilDiv(|s|, n))| <= n
  {
    var size := CeilDiv(|s|, n);
    CeilMeaning(|s|, n);
    hide CeilDiv;
    PositiveFactor(size, n);
    PiecesCount(s, size);
    if |Pieces(s, size)| > n {
      MulMonotone(n, |Pieces(s, size)| - 1, size);
    }
  }

  /** The rounded-up quotient is the least size that makes at most n pieces. */
  lemma LeastFragmentSize(s: string, n: nat, size: nat)
    requires s != "" && n > 0 && size > 0
    ensures |Pieces(s, size)| <= n <==> size >= CeilDiv(|s|, n)
  {
    CeilMeaning(|s|, n);
    PiecesCount(s, size);
    hide CeilDiv, Pieces;
    var k, c := |Pieces(s, size)|, CeilDiv(|s|, n);
    if k <= n && size < c {
      MulMonotone(k, n, size);
      MulMonotone(size, c - 1, n);
      Commute(n, size);
    }
    if k > n && size >= c {
      MulMonotone(n, k - 1, size);
      MulMonotone(c, size, n);
      Commute(n, size);
    }
  }

  lemma Commute(x: int, y: int)
    ensures x * y == y * x
  {
  }

  lemma SnocPiece(s: string, size: nat, k: nat)
    requires size > 0 && k * size < |s|
    ensures Pieces(s[..if (k + 1) * size < |s| then (k + 1) * size else |s|], size)
         == Pieces(s[..k * size], size) + [s[k * size..if (k + 1) * size < |s| then (k + 1) * size else |s|]]
  {
    Distribute(k, 1, size);
    var o := k * size;
    var e := if (k + 1) * size < |s| then (k + 1) * size else |s|;
    SnocPieceAt(s[..e], size, k);
    assert s[..e][..o] == s[..o] && s[..e][o..] == s[o..e];
  }

  lemma {:induction false} SnocPieceAt(s: string, size: nat, k: nat)
    requires size > 0 && k * size < |s| <= k * size + size
    ensures Pieces(s, size) == Pieces(s[..k * size], size) + [s[k * size..]]
  {
    if k > 0 {
      var o := (k - 1) * size;
      Distribute(k - 1, 1, size);
      MulMonotone(0, k - 1, size);
      SnocPieceAt(s[size..], size, k - 1);
      assert s[size..][..o] == s[..k * size][size..] && s[size..][o..] == s[k * size..];
      assert s[..k * size][..size] == s[..size];
    }
  }

  /** The number of pieces is the rounded-up quotient; std::ceil on doubles computes it exactly below 2^53. */
  method ChunkSubstr(str: string, size: nat) returns (chunks: seq<string>)
    requires size > 0
    ensures chunks == Pieces(str, size)
  {
    hide Pieces, CeilDiv;
    var numChunks := CeilDiv(|str|, size);
    CeilMeaning(|str|, size);
    chunks := [];
    NoPieces(size);
    var i, offset := 0, 0;
    assert str[..0] == "";
    while i < numChunks
      invariant 0 <= i <= numChunks && offset == i * size
      invariant chunks == Pieces(str[..if offset < |str| then offset else |str|], size)
    {
      MulMonotone(i, numChunks - 1, size);
      SnocPiece(str, size, i);
      Distribute(i, 1, size);
      chunks := chunks + [str[offset..if offset + size < |str| then offset + size else |str|]];
      i, offset := i + 1, offset + size;
    }
    assert str[..|str|] == str;
  }

  lemma NoPieces(size: nat)
    requires size > 0
    ensures Pieces("", size) == []
  {
  }
}
