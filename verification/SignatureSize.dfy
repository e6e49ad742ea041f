/** Every acceptable signature fits the compressed format, as promised in crypto/falcon.h. */
module SignatureSize {
  import opened Words
  import opened Residues
  import opened Formats
  import opened CompressedCodec
  import opened Norms

  /** The maximum size of a compressed signature: header byte, nonce and encoded vector. */
  function CompressedMaxSize(logn: nat): nat
    requires logn <= 10
  {
    (11 * Pow2(logn) + Shr(101, 10 - logn) + 7) / 8 + 41
  }

  /** For a coefficient with k zeros in its code, 5 * k is at most k^2 + 6: the tangent at 2.5. */
  lemma TangentLine(v: int)
    ensures var k := Abs(v) / 128; 16384 * (5 * k) <= v * v + 16384 * 6
  {
    var k, w := Abs(v) / 128, Abs(v);
    assert 128 * k <= w;
    hide *;
    MulLe(128 * k, 128 * k, w);
    MulLe(w, 128 * k, w);
    assert (128 * k) * (128 * k) == 16384 * (k * k);
    SquareOfAbs(v);
    IntegerTangent(k);
  }

  lemma SquareOfAbs(v: int)
    ensures Abs(v) * Abs(v) == v * v
  {}

  lemma IntegerTangent(k: nat)
    ensures 5 * k <= k * k + 6
  {
    if k <= 2 {
      MulLe(k, k, 2);
    } else {
      var j := k - 2;
      MulLe(j, 1, j);
      assert k * k == j * j + 4 * j + 4;
    }
  }

  /** The number of bits of an encoding, against the squared norm. */
  lemma {:induction false} EncodingAgainstNorm(x: seq<int>)
    requires AllInRange(Compressed, x)
    ensures 81920 * |Encoding(Compressed, x)| <= SquaredNorm(x) + (81920 * 9 + 98304) * |x|
  {
    hide Code, Encoding, SquaredNorm, InRange;
    if |x| == 0 {
      EncodingEmpty(Compressed, x);
      EmptyNorm(x);
    } else {
      var n := |x| - 1;
      EncodingLast(Compressed, x);
      EncodingAgainstNorm(x[..n]);
      CodeLength(x[n]);
      TangentLine(x[n]);
      SquaredNormStep(x, n);
      assert x[..n + 1] == x;
    }
  }

  lemma EmptyNorm(x: seq<int>)
    requires |x| == 0
    ensures SquaredNorm(x) == 0
  {}

  /** An in-range vector within the acceptance bound always fits. */
  lemma AcceptableFits(x: seq<int>, logn: nat)
    requires 1 <= logn <= 10 && |x| == Pow2(logn) && AllInRange(Compressed, x) && SquaredNorm(x) <= L2Bound(logn)
    ensures CompressedSize(x) + 41 <= CompressedMaxSize(logn)
  {
    hide SquaredNorm, Encoding, InRange, CompressedMaxSize, Pow2;
    EncodingAgainstNorm(x);
    Pow2Values();
    MaxSizeValue(logn);
  }

  lemma OverheadBits(j: nat)
    requires j <= 9
    ensures Shr(101, j) == [101, 50, 25, 12, 6, 3, 1, 0, 0, 0][j]
  {
    if j > 0 {
      OverheadBits(j - 1);
      ShrNext(101, j - 1);
    }
  }

  lemma MaxSizeValue(logn: nat)
    requires 1 <= logn <= 10
    ensures CompressedMaxSize(logn) == [0, 44, 47, 52, 64, 86, 130, 219, 397, 752, 1462][logn]
  {
    hide Shr, Pow2;
    Pow2Values();
    OverheadBits(10 - logn);
  }
}
