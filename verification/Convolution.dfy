/**
 What the transform is for: it is a bijection on canonical vectors, it evaluates a
 polynomial at the roots of X^n + 1, and it turns multiplication modulo X^n + 1 into
 pointwise multiplication.
 */
module Convolution {
  import opened Words
  import opened Residues
  import opened Polynomials
  import opened NttTree

  ghost predicate Ready(t: Tables, k: nat) {
    t.Valid() && t.Covers(k, 1)
  }

  function Forward(t: Tables, a: Poly, k: nat): (r: Poly)
    requires t.q > 0 && |a| == Pow2(k)
    ensures |r| == |a|
  {
    Ntt(t, a, k, 1)
  }

  lemma ForwardMeaning(t: Tables, a: Poly, k: nat)
    requires t.q > 0 && |a| == Pow2(k)
    ensures Forward(t, a, k) == Ntt(t, a, k, 1)
  {}

  /** The inverse transform, with ni standing for 1/n. */
  function Backward(t: Tables, a: Poly, k: nat, ni: int): (r: Poly)
    requires t.q > 0 && |a| == Pow2(k)
    ensures |r| == |a|
  {
    Scaled(ni, Intt(t, a, k, 1), t.q)
  }

  function Pointwise(a: Poly, b: Poly, q: int): (r: Poly)
    requires q > 0 && |a| == |b|
    ensures |r| == |a|
  {
    seq(|a|, i requires 0 <= i < |a| => (a[i] * b[i]) % q)
  }

  /** The value of a at the i-th root of X^n + 1. */
  function Value(t: Tables, a: Poly, k: nat, i: nat): int
    requires i < Pow2(k)
  {
    Eval(a, Point(t, k, 1, i))
  }

  lemma {:induction false} NttCanonical(t: Tables, a: Poly, k: nat, node: nat)
    requires t.q > 0 && |a| == Pow2(k) && Canonical(a, t.q)
    ensures Canonical(Ntt(t, a, k, node), t.q)
    decreases k
  {
    if k > 0 {
      hide Fold;
      var lo, hi := a[..Pow2(k - 1)], a[Pow2(k - 1)..];
      FoldCanonical(lo, hi, t.S(node), t.q);
      FoldCanonical(lo, hi, -t.S(node), t.q);
      NttCanonical(t, Fold(lo, hi, t.S(node), t.q), k - 1, 2 * node);
      NttCanonical(t, Fold(lo, hi, -t.S(node), t.q), k - 1, 2 * node + 1);
    }
  }

  /** Entry i of the transform is the residue of the value at the i-th root. */
  lemma ForwardValue(t: Tables, a: Poly, k: nat, i: nat)
    requires Ready(t, k) && |a| == Pow2(k) && i < |a|
    ensures Forward(t, Reduce(a, t.q), k)[i] == Value(t, a, k, i) % t.q
  {
    hide Cong, Eval, Ntt, Reduce;
    var r := Reduce(a, t.q);
    ReduceCong(a, t.q);
    NttCanonical(t, r, k, 1);
    NttEval(t, r, k, 1, i);
    var x := Point(t, k, 1, i);
    EvalReduce(a, x, t.q);
    CongTrans(Ntt(t, r, k, 1)[i], Eval(r, x), Eval(a, x), t.q);
    CongMeaning(Ntt(t, r, k, 1)[i], Eval(a, x), t.q);
    ModSmall(Ntt(t, r, k, 1)[i], t.q);
  }

  lemma ReduceCanonical(a: Poly, q: int)
    requires q > 0 && Canonical(a, q)
    ensures Reduce(a, q) == a
  {}

  /** Multiplication modulo X^n + 1 becomes pointwise multiplication. */
  lemma ForwardProduct(t: Tables, a: Poly, b: Poly, k: nat)
    requires Ready(t, k) && |a| == |b| == Pow2(k)
    ensures Forward(t, Reduce(Product(a, b), t.q), k)
         == Pointwise(Forward(t, Reduce(a, t.q), k), Forward(t, Reduce(b, t.q), k), t.q)
  {
    hide Cong, Eval, Forward, Reduce, Product, Pow;
    var n, q := Pow2(k), t.q;
    var p := Product(a, b);
    var fa, fb, fp := Forward(t, Reduce(a, q), k), Forward(t, Reduce(b, q), k), Forward(t, Reduce(p, q), k);
    forall i | 0 <= i < n ensures fp[i] == (fa[i] * fb[i]) % q {
      var x := Point(t, k, 1, i);
      PointPower(t, k, 1, i);
      EvalProduct(a, b, x, q);
      ForwardValue(t, a, k, i);
      ForwardValue(t, b, k, i);
      ForwardValue(t, p, k, i);
      ModOfProduct(Eval(a, x), Eval(b, x), Eval(p, x), q);
    }
    assert fp == Pointwise(fa, fb, q);
  }

  /** The inverse transform undoes the transform. */
  lemma BackwardForward(t: Tables, a: Poly, k: nat, ni: int)
    requires Ready(t, k) && |a| == Pow2(k) && Canonical(a, t.q) && Cong(ni * Pow2(k), 1, t.q)
    ensures Backward(t, Forward(t, a, k), k, ni) == a
  {
    hide Cong, Ntt, Intt;
    InttNtt(t, a, k, 1);
    var n, q := Pow2(k), t.q;
    forall i | 0 <= i < n ensures (ni * ((n * a[i]) % q)) % q == a[i] {
      ScaleBack(ni, n, a[i], q);
    }
  }

  lemma ScaledUnit(c: int, a: Poly, q: int)
    requires q > 0 && Cong(c, 1, q) && Canonical(a, q)
    ensures Scaled(c, a, q) == a
  {
    forall i | 0 <= i < |a| ensures (c * a[i]) % q == a[i] {
      CongScale(a[i], c, 1, q);
      assert a[i] * c == c * a[i];
      ModSmall(a[i], q);
    }
  }

  /** The transform undoes the inverse transform. */
  lemma ForwardBackward(t: Tables, a: Poly, k: nat, ni: int)
    requires Ready(t, k) && |a| == Pow2(k) && Canonical(a, t.q) && Cong(ni * Pow2(k), 1, t.q)
    ensures Forward(t, Backward(t, a, k, ni), k) == a
  {
    hide Cong, Ntt, Intt;
    NttIntt(t, a, ni, k, 1);
    DoubledValue(ni, k);
    var c, q := Doubled(ni, k), t.q;
    ScaledUnit(c, a, q);
  }

  /** Two integer polynomials with congruent values at all roots are congruent. */
  lemma ValuesDetermine(t: Tables, a: Poly, b: Poly, k: nat, ni: int)
    requires Ready(t, k) && |a| == |b| == Pow2(k) && Cong(ni * Pow2(k), 1, t.q)
    requires forall i :: 0 <= i < Pow2(k) ==> Cong(Value(t, a, k, i), Value(t, b, k, i), t.q)
    ensures CongPoly(a, b, t.q) && Reduce(a, t.q) == Reduce(b, t.q)
  {
    hide Eval, Ntt, Value;
    var q := t.q;
    var ra, rb := Reduce(a, q), Reduce(b, q);
    forall i | 0 <= i < |a| ensures Forward(t, ra, k)[i] == Forward(t, rb, k)[i] {
      ForwardValue(t, a, k, i);
      ForwardValue(t, b, k, i);
    }
    assert Forward(t, ra, k) == Forward(t, rb, k);
    BackwardForward(t, ra, k, ni);
    BackwardForward(t, rb, k, ni);
    assert ra == rb;
    assert forall i :: 0 <= i < |a| ==> ra[i] == a[i] % q && rb[i] == b[i] % q;
  }

  /** The values of a product are the products of the values. */
  lemma ValueProduct(t: Tables, a: Poly, b: Poly, k: nat, i: nat)
    requires Ready(t, k) && |a| == |b| == Pow2(k) && i < Pow2(k)
    ensures Cong(Value(t, Product(a, b), k, i), Value(t, a, k, i) * Value(t, b, k, i), t.q)
  {
    PointPower(t, k, 1, i);
    EvalProduct(a, b, Point(t, k, 1, i), t.q);
  }

  /** Values are linear. */
  lemma ValueLinear(t: Tables, r: Poly, a: Poly, c: int, b: Poly, k: nat, i: nat)
    requires t.q > 0 && |r| == |a| == |b| && i < Pow2(k) && forall j :: 0 <= j < |r| ==> r[j] == a[j] + c * b[j]
    ensures Cong(Value(t, r, k, i), Value(t, a, k, i) + c * Value(t, b, k, i), t.q)
  {
    hide Eval, Point, Cong;
    forall j | 0 <= j < |r| ensures Cong(r[j], a[j] + c * b[j], t.q) { CongRefl(r[j], t.q); }
    EvalLinear(r, a, c, b, Point(t, k, 1, i), t.q);
  }

  lemma ModSmall(a: int, q: int)
    requires 0 <= a < q
    ensures a % q == a
  {}

  lemma ModOfProduct(a: int, b: int, p: int, q: int)
    requires q > 0 && Cong(p, a * b, q)
    ensures p % q == ((a % q) * (b % q)) % q
  {
    hide Cong;
    CongMod(a, q);
    CongMod(b, q);
    CongMul(a % q, a, b % q, b, q);
    CongTrans(p, a * b, (a % q) * (b % q), q);
    CongMeaning(p, (a % q) * (b % q), q);
  }

  lemma ScaleBack(ni: int, n: int, a: int, q: int)
    requires q > 0 && Cong(ni * n, 1, q) && 0 <= a < q
    ensures (ni * ((n * a) % q)) % q == a
  {
    hide Cong;
    CongMod(n * a, q);
    CongScale(ni, (n * a) % q, n * a, q);
    assert ni * (n * a) == a * (ni * n);
    CongScale(a, ni * n, 1, q);
    CongTrans(ni * ((n * a) % q), a * (ni * n), a, q);
    CongMeaning(ni * ((n * a) % q), a, q);
    ModSmall(a, q);
  }
}
