/**
 Integer polynomials as coefficient sequences (lowest degree first), and multiplication
 modulo X^n + 1. The schoolbook formula is ProductCoefficient; evaluation turns the
 product into a product of numbers wherever x^n is congruent to -1.
 */
module Polynomials {
  import opened Residues

  type Poly = seq<int>

  function Eval(a: Poly, x: int): int {
    if |a| == 0 then 0 else a[0] + x * Eval(a[1..], x)
  }

  /** Every coefficient reduced into 0..m-1. */
  function Reduce(a: Poly, m: int): (r: Poly)
    requires m > 0
    ensures |r| == |a|
  {
    seq(|a|, i requires 0 <= i < |a| => a[i] % m)
  }

  predicate Canonical(a: Poly, m: int) {
    forall i :: 0 <= i < |a| ==> 0 <= a[i] < m
  }

  /** Coefficientwise congruence. */
  predicate CongPoly(a: Poly, b: Poly, m: int)
    requires m > 0
  {
    |a| == |b| && forall i :: 0 <= i < |a| ==> Cong(a[i], b[i], m)
  }

  function Scale(c: int, a: Poly): (r: Poly)
    ensures |r| == |a|
  {
    seq(|a|, i requires 0 <= i < |a| => c * a[i])
  }

  function Add(a: Poly, b: Poly): (r: Poly)
    requires |a| == |b|
    ensures |r| == |a|
  {
    seq(|a|, i requires 0 <= i < |a| => a[i] + b[i])
  }

  function Sub(a: Poly, b: Poly): (r: Poly)
    requires |a| == |b|
    ensures |r| == |a|
  {
    seq(|a|, i requires 0 <= i < |a| => a[i] - b[i])
  }

  /** X * a modulo X^n + 1. */
  function TimesX(a: Poly): (r: Poly)
    requires |a| > 0
    ensures |r| == |a|
  {
    [-a[|a| - 1]] + a[..|a| - 1]
  }

  function Zeros(n: nat): (r: Poly)
    ensures |r| == n
  {
    seq(n, i => 0)
  }

  /** a * b modulo X^n + 1, where n is the length of b (Horner's rule in X). */
  function Product(a: Poly, b: Poly): (r: Poly)
    requires |b| > 0
    ensures |r| == |b|
  {
    if |a| == 0 then Zeros(|b|)
    else Add(Scale(a[0], b), TimesX(Product(a[1..], b)))
  }

  /** Coefficient j of b, for -n <= j < n, continued by X^n = -1. */
  function Wrapped(b: Poly, j: int): int
    requires -|b| <= j < |b|
  {
    if j >= 0 then b[j] else -b[j + |b|]
  }


  /** The sum of a[j] * b[k - j] over j >= i, with b continued by X^n = -1. */
  function ConvolutionFrom(a: Poly, b: Poly, k: int, i: nat): int
    requires i <= |a| && k < |b| && |a| - 1 - k <= |b|
    decreases |a| - i
  {
    if i == |a| then 0 else a[i] * Wrapped(b, k - i) + ConvolutionFrom(a, b, k, i + 1)
  }

  lemma {:induction false} ConvolutionShift(a: Poly, b: Poly, k: int, i: nat)
    requires |a| > 0 && 1 <= i <= |a| && 0 <= k < |b| && |a| <= |b|
    ensures ConvolutionFrom(a, b, k, i) ==
            if k > 0 then ConvolutionFrom(a[1..], b, k - 1, i - 1) else -ConvolutionFrom(a[1..], b, |b| - 1, i - 1)
    decreases |a| - i
  {
    if i < |a| {
      ConvolutionShift(a, b, k, i + 1);
      assert a[1..][i - 1] == a[i];
      if k == 0 {
        assert a[i] * Wrapped(b, 0 - i) == -(a[i] * Wrapped(b, |b| - i));
      }
    }
  }

  /** Schoolbook multiplication: every coefficient of the product is a signed convolution sum. */
  lemma {:induction false} ProductCoefficient(a: Poly, b: Poly, k: nat)
    requires k < |b| && |a| <= |b|
    ensures Product(a, b)[k] == ConvolutionFrom(a, b, k, 0)
    decreases |a|
  {
    if |a| > 0 {
      ConvolutionShift(a, b, k, 1);
      ProductCoefficient(a[1..], b, if k > 0 then k - 1 else |b| - 1);
    }
  }

  lemma {:induction false} EvalConcat(a: Poly, b: Poly, x: int)
    ensures Eval(a + b, x) == Eval(a, x) + Pow(x, |a|) * Eval(b, x)
  {
    if |a| == 0 {
      assert a + b == b;
    } else {
      EvalConcat(a[1..], b, x);
      assert (a + b)[1..] == a[1..] + b;
      MulAdd(x, Eval(a[1..], x), Pow(x, |a| - 1) * Eval(b, x));
      MulAssoc(x, Pow(x, |a| - 1), Eval(b, x));
    }
  }

  lemma EvalConstant(a: Poly, x: int)
    requires |a| == 1
    ensures Eval(a, x) == a[0]
  {
    assert a[1..] == [];
  }

  lemma LinearStep(r: int, a: int, c: int, b: int, x: int, s: int, u: int, v: int, m: int)
    requires m > 0 && Cong(r, a + c * b, m) && Cong(s, u + c * v, m)
    ensures Cong(r + x * s, (a + x * u) + c * (b + x * v), m)
  {
    hide *;
    CongScale(x, s, u + c * v, m);
    CongAdd(r, a + c * b, x * s, x * (u + c * v), m);
    MulAdd(x, u, c * v);
    MulAdd(c, b, x * v);
    MulAssoc(x, c, v);
    assert (a + c * b) + x * (u + c * v) == (a + x * u) + c * (b + x * v);
  }

  /** Evaluation is linear: r is congruent to a + c * b in every coefficient. */
  lemma {:induction false} EvalLinear(r: Poly, a: Poly, c: int, b: Poly, x: int, m: int)
    requires m > 0 && |r| == |a| == |b|
    requires forall i :: 0 <= i < |r| ==> Cong(r[i], a[i] + c * b[i], m)
    ensures Cong(Eval(r, x), Eval(a, x) + c * Eval(b, x), m)
  {
    if |r| > 0 {
      hide Cong;
      assert forall i :: 0 <= i < |r| - 1 ==> r[1..][i] == r[i + 1] && a[1..][i] == a[i + 1] && b[1..][i] == b[i + 1];
      EvalLinear(r[1..], a[1..], c, b[1..], x, m);
      LinearStep(r[0], a[0], c, b[0], x, Eval(r[1..], x), Eval(a[1..], x), Eval(b[1..], x), m);
    }
  }

  lemma EvalCong(a: Poly, b: Poly, x: int, m: int)
    requires m > 0 && CongPoly(a, b, m)
    ensures Cong(Eval(a, x), Eval(b, x), m)
  {
    forall i | 0 <= i < |a| ensures Cong(a[i], b[i] + 0 * b[i], m) {}
    EvalLinear(a, b, 0, b, x, m);
  }

  /** Reducing the coefficients keeps the value modulo m. */
  lemma EvalReduce(a: Poly, x: int, m: int)
    requires m > 0
    ensures Cong(Eval(Reduce(a, m), x), Eval(a, x), m)
  {
    ReduceCong(a, m);
    EvalCong(Reduce(a, m), a, x, m);
  }

  lemma ReduceCong(a: Poly, m: int)
    requires m > 0
    ensures CongPoly(Reduce(a, m), a, m) && Canonical(Reduce(a, m), m)
  {
    forall i | 0 <= i < |a| ensures Cong(Reduce(a, m)[i], a[i], m) { CongMod(a[i], m); }
  }

  lemma {:induction false} EvalZeros(n: nat, x: int)
    ensures Eval(Zeros(n), x) == 0
  {
    if n > 0 {
      EvalZeros(n - 1, x);
      assert Zeros(n)[1..] == Zeros(n - 1);
    }
  }

  lemma EvalTopLast(body: Poly, top: int, x: int)
    ensures Eval(body + [top], x) == Eval(body, x) + Pow(x, |body|) * top
    ensures Eval([-top] + body, x) == x * Eval(body, x) - top
  {
    EvalConcat(body, [top], x);
    EvalConstant([top], x);
    assert ([-top] + body)[1..] == body;
  }

  lemma WrapAround(x: int, v: int, w: int, top: int, m: int)
    requires m > 0 && Cong(x * w, -1, m)
    ensures Cong(x * v - top, x * (v + w * top), m)
  {
    hide *;
    CongScale(top, x * w, -1, m);
    CongShift(x * v, top * (x * w), top * -1, m);
    MulAdd(x, v, w * top);
    MulAssoc(x, w, top);
    assert x * v + top * (x * w) == x * (v + w * top);
    assert x * v + top * -1 == x * v - top;
    CongSym(x * v + top * (x * w), x * v + top * -1, m);
  }

  /** Multiplying by X multiplies the value by x, wherever x^n is -1. */
  lemma EvalTimesX(a: Poly, x: int, m: int)
    requires m > 0 && |a| > 0 && Cong(Pow(x, |a|), -1, m)
    ensures Cong(Eval(TimesX(a), x), x * Eval(a, x), m)
  {
    hide Cong, Eval;
    var body, top := a[..|a| - 1], a[|a| - 1];
    assert a == body + [top] && TimesX(a) == [-top] + body;
    EvalTopLast(body, top, x);
    WrapAround(x, Eval(body, x), Pow(x, |body|), top, m);
  }

  lemma ProductStep(s: int, rest: int, x: int, u: int, v: int, a: int, m: int)
    requires m > 0 && Cong(rest, u * v, m) && Cong(s, x * rest, m)
    ensures Cong(s + a * v, (a + x * u) * v, m)
  {
    hide *;
    CongScale(x, rest, u * v, m);
    CongTrans(s, x * rest, x * (u * v), m);
    CongShift(a * v, s, x * (u * v), m);
    MulAdd(v, a, x * u);
    MulAssoc(x, u, v);
  }

  /** The product modulo X^n + 1 evaluates to the product of the values. */
  lemma {:induction false} EvalProduct(a: Poly, b: Poly, x: int, m: int)
    requires m > 0 && |b| > 0 && Cong(Pow(x, |b|), -1, m)
    ensures Cong(Eval(Product(a, b), x), Eval(a, x) * Eval(b, x), m)
  {
    if |a| == 0 {
      EvalZeros(|b|, x);
    } else {
      EvalProduct(a[1..], b, x, m);
      ProductUnfold(a, b, x, m);
      hide Cong, Product, TimesX;
      var rest := Product(a[1..], b);
      EvalTimesX(rest, x, m);
      ProductStep(Eval(TimesX(rest), x), Eval(rest, x), x, Eval(a[1..], x), Eval(b, x), a[0], m);
      CongTrans(Eval(Product(a, b), x), Eval(TimesX(rest), x) + a[0] * Eval(b, x), Eval(a, x) * Eval(b, x), m);
    }
  }

  lemma ProductUnfold(a: Poly, b: Poly, x: int, m: int)
    requires m > 0 && |a| > 0 && |b| > 0
    ensures Cong(Eval(Product(a, b), x), Eval(TimesX(Product(a[1..], b)), x) + a[0] * Eval(b, x), m)
  {
    hide Eval;
    EvalLinear(Product(a, b), TimesX(Product(a[1..], b)), a[0], b, x, m);
  }
}
