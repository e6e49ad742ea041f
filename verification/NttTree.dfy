/**
 The number-theoretic transform as a recursion over the tree of factors
 X^(2^k) - Root(node): node 1 is X^n + 1, and node m splits into nodes 2m and 2m + 1.
 The tables enter only through s(m)^2 = Root(m). All transforms of the repository
 are instances: they differ in the modulus and in how they multiply.
 */
module NttTree {
  import opened Words
  import opened Residues
  import opened Polynomials

  /** A modulus, the twiddle factors s(1), s(2), ... and their inverses. */
  datatype Tables = Tables(q: int, tw: seq<int>, itw: seq<int>) {
    function S(node: nat): int { if node < |tw| then tw[node] else 0 }

    function InvS(node: nat): int { if node < |itw| then itw[node] else 0 }

    /** The value X^(2^k) takes in the factor at this node. */
    function Root(node: nat): int {
      if node <= 1 then -1 else if node % 2 == 0 then S(node / 2) else -S(node / 2)
    }

    ghost predicate NodeValid(m: nat)
      requires q > 1 && m < |tw| == |itw|
    {
      Cong(tw[m] * tw[m], Root(m), q) && Cong(tw[m] * itw[m], 1, q)
    }

    ghost predicate Valid() {
      && q > 1
      && |tw| == |itw|
      && forall m :: 1 <= m < |tw| ==> NodeValid(m)
    }

    /** All inner nodes below this one have table entries. */
    predicate Covers(k: nat, node: nat)
      decreases k
    {
      node >= 1 && (k > 0 ==> node < |tw| && Covers(k - 1, 2 * node) && Covers(k - 1, 2 * node + 1))
    }
  }

  /** A table of n entries has all the inner nodes of a transform of length n. */
  lemma {:induction false} CoversBelow(t: Tables, k: nat, node: nat)
    requires node >= 1 && (node + 1) * Pow2(k) <= 2 * |t.tw|
    ensures t.Covers(k, node)
    decreases k
  {
    if k > 0 {
      var h := Pow2(k - 1);
      assert (node + 1) * (2 * h) == (2 * node + 1) * h + h == (2 * node + 2) * h;
      assert (node + 1) * (2 * h) >= (node + 1) * 2;
      CoversBelow(t, k - 1, 2 * node);
      CoversBelow(t, k - 1, 2 * node + 1);
    }
  }

  /** The residues of lo + c * hi: a polynomial lo + X^h * hi reduced by X^h = c. */
  function Fold(lo: Poly, hi: Poly, c: int, q: int): (r: Poly)
    requires |lo| == |hi| && q > 0
    ensures |r| == |lo|
  {
    seq(|lo|, i requires 0 <= i < |lo| => (lo[i] + c * hi[i]) % q)
  }

  /** The residues of (lo - hi) * c. */
  function Unfold(lo: Poly, hi: Poly, c: int, q: int): (r: Poly)
    requires |lo| == |hi| && q > 0
    ensures |r| == |lo|
  {
    seq(|lo|, i requires 0 <= i < |lo| => ((lo[i] - hi[i]) * c) % q)
  }

  lemma FoldIndex(lo: Poly, hi: Poly, c: int, q: int, i: nat)
    requires |lo| == |hi| && q > 0 && i < |lo|
    ensures Fold(lo, hi, c, q)[i] == (lo[i] + c * hi[i]) % q && Unfold(lo, hi, c, q)[i] == ((lo[i] - hi[i]) * c) % q
  {}

  /** One split: the halves of the result are the halves of a, folded by X^h = s and by X^h = -s. */
  function Butterfly(lo: Poly, hi: Poly, s: int, q: int): (r: Poly)
    requires |lo| == |hi| && q > 0
    ensures |r| == |lo| + |hi|
  {
    Fold(lo, hi, s, q) + Fold(lo, hi, -s, q)
  }

  /** The opposite of Butterfly, up to a factor 2. */
  function Unbutterfly(lo: Poly, hi: Poly, s: int, q: int): (r: Poly)
    requires |lo| == |hi| && q > 0
    ensures |r| == |lo| + |hi|
  {
    Fold(lo, hi, 1, q) + Unfold(lo, hi, s, q)
  }

  function Ntt(t: Tables, a: Poly, k: nat, node: nat): (r: Poly)
    requires t.q > 0 && |a| == Pow2(k)
    ensures |r| == |a|
    decreases k
  {
    if k == 0 then a
    else
      var h := Pow2(k - 1);
      Ntt(t, Fold(a[..h], a[h..], t.S(node), t.q), k - 1, 2 * node)
      + Ntt(t, Fold(a[..h], a[h..], -t.S(node), t.q), k - 1, 2 * node + 1)
  }

  function Intt(t: Tables, a: Poly, k: nat, node: nat): (r: Poly)
    requires t.q > 0 && |a| == Pow2(k)
    ensures |r| == |a|
    decreases k
  {
    if k == 0 then a
    else
      var h := Pow2(k - 1);
      Unbutterfly(Intt(t, a[..h], k - 1, 2 * node), Intt(t, a[h..], k - 1, 2 * node + 1), t.InvS(node), t.q)
  }

  /** The i-th evaluation point: the root of the i-th leaf below the node. */
  function Point(t: Tables, k: nat, node: nat, i: nat): int
    requires i < Pow2(k)
    decreases k
  {
    if k == 0 then t.Root(node)
    else
      var h := Pow2(k - 1);
      if i < h then Point(t, k - 1, 2 * node, i) else Point(t, k - 1, 2 * node + 1, i - h)
  }

  lemma SquareRoot(x: int, h: nat, c: int, s: int, r: int, q: int)
    requires q > 0 && Cong(Pow(x, h), c, q) && (c == s || c == -s) && Cong(s * s, r, q)
    ensures Cong(Pow(x, 2 * h), r, q)
  {
    hide *;
    PowAdd(x, h, h);
    CongMul(Pow(x, h), c, Pow(x, h), c, q);
    assert c * c == s * s;
    CongTrans(Pow(x, 2 * h), c * c, r, q);
  }

  /** Every evaluation point below a node is a 2^k-th root of the value of that node. */
  lemma {:induction false} PointPower(t: Tables, k: nat, node: nat, i: nat)
    requires t.Valid() && t.Covers(k, node) && i < Pow2(k)
    ensures Cong(Pow(Point(t, k, node, i), Pow2(k)), t.Root(node), t.q)
    decreases k
  {
    hide Cong, Pow;
    var x := Point(t, k, node, i);
    if k == 0 {
      CongRefl(x, t.q);
      PowOneValue(x);
    } else {
      var h := Pow2(k - 1);
      assert t.NodeValid(node);
      if i < h {
        PointPower(t, k - 1, 2 * node, i);
        SquareRoot(x, h, t.Root(2 * node), t.tw[node], t.Root(node), t.q);
      } else {
        PointPower(t, k - 1, 2 * node + 1, i - h);
        SquareRoot(x, h, t.Root(2 * node + 1), t.tw[node], t.Root(node), t.q);
      }
    }
  }

  lemma PowOneValue(x: int)
    ensures Pow(x, 1) == x
  {
    assert Pow(x, 1) == x * Pow(x, 0);
  }

  lemma FoldScalar(e: int, u: int, v: int, w: int, c: int, q: int)
    requires q > 0 && Cong(w, c, q) && Cong(e, u + c * v, q)
    ensures Cong(e, u + w * v, q)
  {
    hide *;
    CongScale(v, w, c, q);
    CongShift(u, v * w, v * c, q);
    CongTrans(e, u + v * c, u + v * w, q);
  }

  lemma FoldCong(lo: Poly, hi: Poly, c: int, q: int)
    requires q > 0 && |lo| == |hi|
    ensures forall i :: 0 <= i < |lo| ==> Cong(Fold(lo, hi, c, q)[i], lo[i] + c * hi[i], q)
  {
    forall i | 0 <= i < |lo| ensures Cong(Fold(lo, hi, c, q)[i], lo[i] + c * hi[i], q) {
      CongMod(lo[i] + c * hi[i], q);
    }
  }

  /** Folding with X^h = c keeps the value at every x with x^h = c. */
  lemma FoldEval(lo: Poly, hi: Poly, c: int, x: int, q: int)
    requires q > 0 && |lo| == |hi| && Cong(Pow(x, |lo|), c, q)
    ensures Cong(Eval(Fold(lo, hi, c, q), x), Eval(lo + hi, x), q)
  {
    hide *;
    var f := Fold(lo, hi, c, q);
    FoldCong(lo, hi, c, q);
    EvalLinear(f, lo, c, hi, x, q);
    EvalConcat(lo, hi, x);
    FoldScalar(Eval(f, x), Eval(lo, x), Eval(hi, x), Pow(x, |lo|), c, q);
  }

  /** The transform evaluates the polynomial at its points. */
  lemma {:induction false} NttEval(t: Tables, a: Poly, k: nat, node: nat, i: nat)
    requires t.Valid() && t.Covers(k, node) && |a| == Pow2(k) && i < |a|
    ensures Cong(Ntt(t, a, k, node)[i], Eval(a, Point(t, k, node, i)), t.q)
    decreases k
  {
    hide Cong, Eval, Fold, Pow;
    var x := Point(t, k, node, i);
    if k == 0 {
      EvalConstant(a, x);
      CongRefl(a[0], t.q);
    } else {
      var h := Pow2(k - 1);
      var lo, hi := a[..h], a[h..];
      assert lo + hi == a;
      if i < h {
        NttEval(t, Fold(lo, hi, t.S(node), t.q), k - 1, 2 * node, i);
        PointPower(t, k - 1, 2 * node, i);
        FoldEval(lo, hi, t.S(node), x, t.q);
        CongTrans(Ntt(t, a, k, node)[i], Eval(Fold(lo, hi, t.S(node), t.q), x), Eval(a, x), t.q);
      } else {
        NttEval(t, Fold(lo, hi, -t.S(node), t.q), k - 1, 2 * node + 1, i - h);
        PointPower(t, k - 1, 2 * node + 1, i - h);
        FoldEval(lo, hi, -t.S(node), x, t.q);
        CongTrans(Ntt(t, a, k, node)[i], Eval(Fold(lo, hi, -t.S(node), t.q), x), Eval(a, x), t.q);
      }
    }
  }

  /** Coefficientwise reduction of c * a. */
  function Scaled(c: int, a: Poly, q: int): (r: Poly)
    requires q > 0
    ensures |r| == |a|
  {
    Reduce(Scale(c, a), q)
  }

  lemma CancelTwiddle(s: int, si: int, w: int, hi: int, q: int)
    requires q > 0 && Cong(s * si, 1, q) && Cong(hi, w * si, q)
    ensures Cong(s * hi, w, q)
  {
    hide *;
    CongScale(s, hi, w * si, q);
    MulAssoc(s, w, si);
    assert s * (w * si) == w * (s * si);
    CongScale(w, s * si, 1, q);
    CongTrans(s * hi, w * (s * si), w, q);
  }

  lemma UnbutterflyScalar(u: int, v: int, s: int, si: int, c: int, cx: int, cy: int, q: int)
    requires q > 0 && Cong(s * si, 1, q)
    requires Cong(cx, c * (u + s * v), q) && Cong(cy, c * (u - s * v), q)
    ensures Cong(cx + cy, 2 * c * u, q) && Cong((cx - cy) * si, 2 * c * v, q)
  {
    hide *;
    var x, y, w := c * (u + s * v), c * (u - s * v), 2 * c * v;
    CongAdd(cx, x, cy, y, q);
    CongSub(cx, x, cy, y, q);
    MulAdd(c, u, s * v);
    assert x + y == 2 * c * u;
    MulAssoc(s, c, v);
    assert x - y == s * w;
    CongScale(si, cx - cy, x - y, q);
    CongRefl(w * si, q);
    CancelTwiddle(s, si, w, w * si, q);
    MulAssoc(si, s, w);
    assert si * (s * w) == s * (w * si);
    CongTrans(si * (cx - cy), s * (w * si), w, q);
    assert si * (cx - cy) == (cx - cy) * si;
  }

  lemma ButterflyScalar(u: int, v: int, s: int, si: int, c: int, lo: int, hi: int, q: int)
    requires q > 0 && Cong(s * si, 1, q)
    requires Cong(lo, c * (u + v), q) && Cong(hi, c * ((u - v) * si), q)
    ensures Cong(lo + s * hi, 2 * c * u, q) && Cong(lo - s * hi, 2 * c * v, q)
  {
    hide *;
    var x, y := c * (u + v), c * (u - v);
    MulAssoc(c, u - v, si);
    assert c * ((u - v) * si) == y * si;
    CancelTwiddle(s, si, y, hi, q);
    CongAdd(lo, x, s * hi, y, q);
    CongSub(lo, x, s * hi, y, q);
    MulAdd(c, u, v);
    assert x + y == 2 * c * u && x - y == 2 * c * v;
  }

  lemma UnbutterflyButterfly(lo: Poly, hi: Poly, s: int, si: int, c: int, q: int)
    requires q > 0 && |lo| == |hi| && Cong(s * si, 1, q)
    ensures Unbutterfly(Scaled(c, Fold(lo, hi, s, q), q), Scaled(c, Fold(lo, hi, -s, q), q), si, q)
         == Scaled(2 * c, lo, q) + Scaled(2 * c, hi, q)
  {
    hide Cong;
    var x, y := Scaled(c, Fold(lo, hi, s, q), q), Scaled(c, Fold(lo, hi, -s, q), q);
    forall i | 0 <= i < |lo|
      ensures Fold(x, y, 1, q)[i] == Scaled(2 * c, lo, q)[i] && Unfold(x, y, si, q)[i] == Scaled(2 * c, hi, q)[i]
    {
      ModOfScaledMod(c, lo[i] + s * hi[i], q);
      ModOfScaledMod(c, lo[i] + -s * hi[i], q);
      assert -s * hi[i] == -(s * hi[i]);
      UnbutterflyScalar(lo[i], hi[i], s, si, c, x[i], y[i], q);
      CongMeaning(x[i] + y[i], 2 * c * lo[i], q);
      CongMeaning((x[i] - y[i]) * si, 2 * c * hi[i], q);
    }
  }

  lemma ButterflyUnbutterfly(lo: Poly, hi: Poly, s: int, si: int, c: int, q: int)
    requires q > 0 && |lo| == |hi| && Cong(s * si, 1, q)
    ensures var x, y := Scaled(c, Fold(lo, hi, 1, q), q), Scaled(c, Unfold(lo, hi, si, q), q);
      Fold(x, y, s, q) == Scaled(2 * c, lo, q) && Fold(x, y, -s, q) == Scaled(2 * c, hi, q)
  {
    hide Cong;
    var x, y := Scaled(c, Fold(lo, hi, 1, q), q), Scaled(c, Unfold(lo, hi, si, q), q);
    forall i | 0 <= i < |lo|
      ensures Fold(x, y, s, q)[i] == Scaled(2 * c, lo, q)[i] && Fold(x, y, -s, q)[i] == Scaled(2 * c, hi, q)[i]
    {
      ModOfScaledMod(c, lo[i] + hi[i], q);
      ModOfScaledMod(c, (lo[i] - hi[i]) * si, q);
      ButterflyScalar(lo[i], hi[i], s, si, c, x[i], y[i], q);
      assert -s * y[i] == -(s * y[i]);
      CongMeaning(x[i] + s * y[i], 2 * c * lo[i], q);
      CongMeaning(x[i] - s * y[i], 2 * c * hi[i], q);
    }
  }

  lemma ScaledOne(a: Poly, q: int)
    requires q > 0 && Canonical(a, q)
    ensures Scaled(1, a, q) == a
  {}

  lemma ScaledConcat(c: int, a: Poly, b: Poly, q: int)
    requires q > 0
    ensures Scaled(c, a, q) + Scaled(c, b, q) == Scaled(c, a + b, q)
  {}

  lemma FoldCanonical(lo: Poly, hi: Poly, c: int, q: int)
    requires |lo| == |hi| && q > 0
    ensures Canonical(Fold(lo, hi, c, q), q) && Canonical(Unfold(lo, hi, c, q), q)
  {}

  /** The inverse recursion undoes the transform up to the factor n. */
  lemma {:induction false} InttNtt(t: Tables, a: Poly, k: nat, node: nat)
    requires t.Valid() && t.Covers(k, node) && |a| == Pow2(k) && Canonical(a, t.q)
    ensures Intt(t, Ntt(t, a, k, node), k, node) == Scaled(Pow2(k), a, t.q)
    decreases k
  {
    hide Cong, Fold, Unbutterfly, Scaled;
    if k == 0 {
      ScaledOne(a, t.q);
    } else {
      var lo, hi := a[..Pow2(k - 1)], a[Pow2(k - 1)..];
      assert a == lo + hi;
      var s := t.tw[node];
      FoldCanonical(lo, hi, s, t.q);
      FoldCanonical(lo, hi, -s, t.q);
      InttNtt(t, Fold(lo, hi, s, t.q), k - 1, 2 * node);
      InttNtt(t, Fold(lo, hi, -s, t.q), k - 1, 2 * node + 1);
      assert t.NodeValid(node);
      UnbutterflyButterfly(lo, hi, s, t.itw[node], Pow2(k - 1), t.q);
      ScaledConcat(Pow2(k), lo, hi, t.q);
      InttConcat(t, Ntt(t, Fold(lo, hi, s, t.q), k - 1, 2 * node), Ntt(t, Fold(lo, hi, -s, t.q), k - 1, 2 * node + 1), k, node);
    }
  }

  lemma InttConcat(t: Tables, lo: Poly, hi: Poly, k: nat, node: nat)
    requires t.q > 0 && k > 0 && |lo| == |hi| == Pow2(k - 1)
    ensures Intt(t, lo + hi, k, node)
         == Unbutterfly(Intt(t, lo, k - 1, 2 * node), Intt(t, hi, k - 1, 2 * node + 1), t.InvS(node), t.q)
  {
    assert (lo + hi)[..|lo|] == lo && (lo + hi)[|lo|..] == hi;
  }

  lemma NttConcat(t: Tables, lo: Poly, hi: Poly, k: nat, node: nat)
    requires t.q > 0 && k > 0 && |lo| == |hi| == Pow2(k - 1)
    ensures Ntt(t, lo + hi, k, node)
         == Ntt(t, Fold(lo, hi, t.S(node), t.q), k - 1, 2 * node) + Ntt(t, Fold(lo, hi, -t.S(node), t.q), k - 1, 2 * node + 1)
  {
    assert (lo + hi)[..|lo|] == lo && (lo + hi)[|lo|..] == hi;
  }

  /** c doubled k times. */
  function Doubled(c: int, k: nat): int
    decreases k
  {
    if k == 0 then c else Doubled(2 * c, k - 1)
  }

  lemma {:induction false} DoubledValue(c: int, k: nat)
    ensures Doubled(c, k) == c * Pow2(k)
    decreases k
  {
    if k > 0 {
      DoubledValue(2 * c, k - 1);
      MulAssoc(2, c, Pow2(k - 1));
    }
  }

  /** The transform undoes the inverse recursion up to the factor n (scaled by any c). */
  lemma {:induction false} NttIntt(t: Tables, a: Poly, c: int, k: nat, node: nat)
    requires t.Valid() && t.Covers(k, node) && |a| == Pow2(k)
    ensures Ntt(t, Scaled(c, Intt(t, a, k, node), t.q), k, node) == Scaled(Doubled(c, k), a, t.q)
    decreases k
  {
    hide Cong, Fold, Unfold, Scaled, Ntt;
    if k == 0 {
      NttLeaf(t, Scaled(c, a, t.q), node);
    } else {
      var lo, hi := a[..Pow2(k - 1)], a[Pow2(k - 1)..];
      assert a == lo + hi;
      var u, v := Intt(t, lo, k - 1, 2 * node), Intt(t, hi, k - 1, 2 * node + 1);
      var s, si := t.tw[node], t.itw[node];
      assert t.NodeValid(node);
      ButterflyUnbutterfly(u, v, s, si, c, t.q);
      ScaledConcat(c, Fold(u, v, 1, t.q), Unfold(u, v, si, t.q), t.q);
      NttConcat(t, Scaled(c, Fold(u, v, 1, t.q), t.q), Scaled(c, Unfold(u, v, si, t.q), t.q), k, node);
      NttIntt(t, lo, 2 * c, k - 1, 2 * node);
      NttIntt(t, hi, 2 * c, k - 1, 2 * node + 1);
      ScaledConcat(Doubled(c, k), lo, hi, t.q);
    }
  }

  lemma NttLeaf(t: Tables, a: Poly, node: nat)
    requires t.q > 0 && |a| == 1
    ensures Ntt(t, a, 0, node) == a
  {}
}
