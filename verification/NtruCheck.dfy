/** The closing steps of solving the NTRU equation, as in crypto/keygen.c. */
module NtruCheck {
  import opened Words
  import opened Residues
  import opened Polynomials
  import opened NttTree
  import opened Convolution
  import opened Modp
  import opened ModpTransform
  import opened ModpNtt

  const P0: U31 := 2147473409
  const G0: nat := 383167813

  lemma SquareStep(e: nat, r: int, r2: int)
    requires Cong(Pow(383167813, e), r, 2147473409) && r * r == r2 + 2147473409 * ((r * r - r2) / 2147473409)
    ensures Cong(Pow(383167813, 2 * e), r2, 2147473409)
  {
    PowAdd(383167813, e, e);
    hide Cong, Pow;
    var w, k := Pow(383167813, e), (r * r - r2) / 2147473409;
    CongMul(w, r, w, r, 2147473409);
    assert r * r == r2 + k * 2147473409;
    CongIntro(r * r, r2, k, 2147473409);
    CongTrans(Pow(383167813, 2 * e), r * r, r2, 2147473409);
  }

  /** The first entry of the table of primes is as the transform needs it. */
  lemma FirstPrime()
    ensures Generator(G0, P0)
  {
    FirstSquares();
    hide Pow;
    SquareStep(32, 1276384561, 2027081968);
    SquareStep(64, 2027081968, 21133924);
    SquareStep(128, 21133924, 486666911);
    SquareStep(256, 486666911, 1044177596);
    SquareStep(512, 1044177596, -1);
  }

  lemma FirstSquares()
    ensures Cong(Pow(383167813, 32), 1276384561, 2147473409)
  {
    assert Pow(383167813, 1) == 383167813 * Pow(383167813, 0);
    hide Pow;
    SquareStep(1, 383167813, 2094155704);
    SquareStep(2, 2094155704, 1759521232);
    SquareStep(4, 1759521232, 151851426);
    SquareStep(8, 151851426, 1221036673);
    SquareStep(16, 1221036673, 1276384561);
  }

  /** f * G - g * F is q over the integers modulo X^n + 1. */
  ghost predicate NtruEquation(f: Poly, g: Poly, F: Poly, G: Poly)
    requires |f| == |g| == |F| == |G| > 0
  {
    Sub(Product(f, G), Product(g, F)) == [12289] + Zeros(|f| - 1)
  }

  ghost predicate Bounded(a: Poly, m: int) { forall i :: 0 <= i < |a| ==> -m <= a[i] <= m }

  lemma TermBound(x: int, y: int, a: int, b: int)
    requires a >= 0 && b >= 0 && -a <= x <= a && -b <= y <= b
    ensures -(a * b) <= x * y <= a * b
  {
    var u: nat, v: nat := if x < 0 then -x else x, if y < 0 then -y else y;
    MulLe(u, v, b);
    MulLe(b, u, a);
    assert x * y == u * v || x * y == -(u * v);
  }

  /** Coefficients of a product are at most n times the product of the bounds. */
  lemma {:induction false} ProductBounded(a: Poly, b: Poly, m: nat, n: nat)
    requires |b| > 0 && Bounded(a, m) && Bounded(b, n)
    ensures Bounded(Product(a, b), |a| * (m * n))
  {
    if |a| > 0 {
      ProductBounded(a[1..], b, m, n);
      var rest := Product(a[1..], b);
      MulAdd(m * n, |a| - 1, 1);
      assert |a| * (m * n) == (|a| - 1) * (m * n) + m * n;
      forall i | 0 <= i < |b| ensures -(|a| * (m * n)) <= Product(a, b)[i] <= |a| * (m * n) {
        TermBound(a[0], b[i], m, n);
        assert TimesX(rest)[i] == if i == 0 then -rest[|b| - 1] else rest[i - 1];
      }
    }
  }

  /** Polynomials bounded by half the modulus that are congruent are equal. */
  lemma SmallCongruent(a: Poly, b: Poly, m: nat, p: nat)
    requires p > 2 * m && Bounded(a, m) && Bounded(b, m) && CongPoly(a, b, p)
    ensures a == b
  {
    forall i | 0 <= i < |a| ensures a[i] == b[i] {
      var k := CongElim(a[i], b[i], p);
      SmallMultiple(k, p);
    }
  }

  /** The value of f * G - g * F, from the values of its parts. */
  function Residual(t: Tables, f: Poly, g: Poly, F: Poly, G: Poly, logn: nat, i: nat): int
    requires i < Pow2(logn)
  {
    Value(t, f, logn, i) * Value(t, G, logn, i) - Value(t, g, logn, i) * Value(t, F, logn, i)
  }

  lemma ResidualMeaning(t: Tables, f: Poly, g: Poly, F: Poly, G: Poly, logn: nat, i: nat)
    requires i < Pow2(logn)
    ensures Residual(t, f, g, F, G, logn, i)
         == Value(t, f, logn, i) * Value(t, G, logn, i) - Value(t, g, logn, i) * Value(t, F, logn, i)
  {}

  lemma EquationValue(t: Tables, f: Poly, g: Poly, F: Poly, G: Poly, logn: nat, i: nat)
    requires Ready(t, logn) && |f| == |g| == |F| == |G| == Pow2(logn) && i < Pow2(logn)
    ensures Cong(Value(t, Sub(Product(f, G), Product(g, F)), logn, i),
                 Residual(t, f, g, F, G, logn, i), t.q)
  {
    hide *;
    var x, y := Product(f, G), Product(g, F);
    ReadyModulus(t, logn);
    ResidualMeaning(t, f, g, F, G, logn, i);
    SubEntries(x, y);
    ValueProduct(t, f, G, logn, i);
    ValueProduct(t, g, F, logn, i);
    ValueLinear(t, Sub(x, y), x, -1, y, logn, i);
    DifferenceScalar(Value(t, Sub(x, y), logn, i), Value(t, x, logn, i), Value(t, y, logn, i), Value(t, f, logn, i),
                     Value(t, G, logn, i), Value(t, g, logn, i), Value(t, F, logn, i), Residual(t, f, g, F, G, logn, i), t.q);
  }

  lemma SubEntries(x: Poly, y: Poly)
    requires |x| == |y|
    ensures forall j :: 0 <= j < |x| ==> Sub(x, y)[j] == x[j] + -1 * y[j]
  {}

  lemma ReadyModulus(t: Tables, logn: nat)
    requires Ready(t, logn)
    ensures t.q > 0
  {}

  lemma DifferenceScalar(d: int, vx: int, vy: int, f: int, G: int, g: int, F: int, r: int, q: int)
    requires q > 0 && Cong(d, vx + -1 * vy, q) && Cong(vx, f * G, q) && Cong(vy, g * F, q) && r == f * G - g * F
    ensures Cong(d, r, q)
  {
    hide *;
    CongSub(vx, f * G, vy, g * F, q);
    assert vx + -1 * vy == vx - vy;
    CongTrans(d, vx - vy, f * G - g * F, q);
  }

  lemma ConstantValue(t: Tables, c: int, logn: nat, i: nat)
    requires i < Pow2(logn)
    ensures Value(t, [c] + Zeros(Pow2(logn) - 1), logn, i) == c
  {
    hide Eval, Point, Zeros;
    var x := Point(t, logn, 1, i);
    EvalConcat([c], Zeros(Pow2(logn) - 1), x);
    EvalConstant([c], x);
    EvalZeros(Pow2(logn) - 1, x);
  }

  /** One comparison of the closing loop. */
  lemma CheckWord(a: U32, b: U32, c: U32, d: U32, x: int, y: int, z: int, w: int, p: U31, p0i: U31)
    requires Reducer(p, p0i) && a < p && b < p && c < p && d < p && 12289 < p
    requires Cong(a, x, p) && Cong(b, y, p) && Cong(c, z, p) && Cong(d, w, p)
    ensures ModpSub(ModpMontyMul(a, b, p, p0i), ModpMontyMul(c, d, p, p0i), p) == ModpMontyMul(12289, 1, p, p0i)
            <==> Cong(x * y - z * w, 12289, p)
  {
    hide *;
    ReducerMeaning(p, p0i);
    MontyMeaning(a, b, p, p0i);
    MontyMeaning(c, d, p, p0i);
    MontyMeaning(12289, 1, p, p0i);
    var u: int, v: int, r: int := ModpMontyMul(a, b, p, p0i), ModpMontyMul(c, d, p, p0i), ModpMontyMul(12289, 1, p, p0i);
    AddSubMeaning(u, v, p);
    CongMul(a, x, b, y, p);
    CongMul(c, z, d, w, p);
    CongTrans(0x8000_0000 * u, a * b, x * y, p);
    CongTrans(0x8000_0000 * v, c * d, z * w, p);
    CongSub(0x8000_0000 * u, x * y, 0x8000_0000 * v, z * w, p);
    MulAdd(0x8000_0000, u, v);
    CongMod(u - v, p);
    if (u - v) % p == r {
      CongSym((u - v) % p, u - v, p);
      CongScale(0x8000_0000, u - v, r, p);
      CongTrans(x * y - z * w, 0x8000_0000 * (u - v), 0x8000_0000 * r, p);
      CongTrans(x * y - z * w, 0x8000_0000 * r, 12289, p);
    }
    if Cong(x * y - z * w, 12289, p) {
      CongTrans(0x8000_0000 * (u - v), x * y - z * w, 12289, p);
      CongTrans(0x8000_0000 * (u - v), 12289, 0x8000_0000 * r, p);
      CancelRadix31(u - v, r, p, p0i);
      CongTrans((u - v) % p, u - v, r, p);
      RemainderBound(u - v, p);
      CongCanonical((u - v) % p, r, p);
    }
  }

  /** The comparisons all succeed exactly when the equation holds over the integers. */
  lemma EquationFromValues(t: Tables, f: Poly, g: Poly, F: Poly, G: Poly, logn: nat)
    requires logn <= 10 && t == KeyTables(G0, P0) && |f| == |g| == |F| == |G| == Pow2(logn)
    requires Bounded(f, 128) && Bounded(g, 128) && Bounded(F, 128) && Bounded(G, 128)
    ensures NtruEquation(f, g, F, G) <==> forall i :: 0 <= i < Pow2(logn) ==>
      Cong(Residual(t, f, g, F, G, logn, i), 12289, 2147473409)
  {
    hide *;
    EquationMeaning(f, g, F, G);
    var lhs, rhs := Sub(Product(f, G), Product(g, F)), [12289] + Zeros(|f| - 1);
    forall i | 0 <= i < Pow2(logn) ensures Value(t, rhs, logn, i) == 12289
      && Cong(Value(t, lhs, logn, i), Residual(t, f, g, F, G, logn, i), 2147473409)
    {
      EquationAtRoot(t, f, g, F, G, logn, i);
    }
    if NtruEquation(f, g, F, G) {
      forall i | 0 <= i < Pow2(logn) ensures Cong(Residual(t, f, g, F, G, logn, i), 12289, 2147473409) {
        assert Value(t, lhs, logn, i) == 12289;
        CongSym(12289, Residual(t, f, g, F, G, logn, i), 2147473409);
      }
    }
    if forall i :: 0 <= i < Pow2(logn) ==> Cong(Residual(t, f, g, F, G, logn, i), 12289, 2147473409) {
      forall i | 0 <= i < Pow2(logn) ensures Cong(Value(t, lhs, logn, i), Value(t, rhs, logn, i), 2147473409) {
        CongTrans(Value(t, lhs, logn, i), Residual(t, f, g, F, G, logn, i), 12289, 2147473409);
      }
      EquationBounds(f, g, F, G, logn);
      SmallDetermined(t, lhs, rhs, logn);
    }
  }

  lemma EquationMeaning(f: Poly, g: Poly, F: Poly, G: Poly)
    requires |f| == |g| == |F| == |G| > 0
    ensures NtruEquation(f, g, F, G) <==> Sub(Product(f, G), Product(g, F)) == [12289] + Zeros(|f| - 1)
  {}

  lemma EquationAtRoot(t: Tables, f: Poly, g: Poly, F: Poly, G: Poly, logn: nat, i: nat)
    requires logn <= 10 && t == KeyTables(G0, P0) && |f| == |g| == |F| == |G| == Pow2(logn) && i < Pow2(logn)
    ensures Value(t, [12289] + Zeros(Pow2(logn) - 1), logn, i) == 12289
    ensures Cong(Value(t, Sub(Product(f, G), Product(g, F)), logn, i), Residual(t, f, g, F, G, logn, i), 2147473409)
  {
    hide *;
    PrimeShape();
    FirstPrime();
    KeyReady(G0, P0, logn);
    ConstantValue(t, 12289, logn, i);
    EquationValue(t, f, g, F, G, logn, i);
  }

  /** Small polynomials with the same values modulo the prime are equal. */
  lemma SmallDetermined(t: Tables, a: Poly, b: Poly, logn: nat)
    requires logn <= 10 && t == KeyTables(G0, P0) && |a| == |b| == Pow2(logn)
    requires Bounded(a, 40000000) && Bounded(b, 40000000)
    requires forall i :: 0 <= i < Pow2(logn) ==> Cong(Value(t, a, logn, i), Value(t, b, logn, i), 2147473409)
    ensures a == b
  {
    hide *;
    PrimeShape();
    FirstPrime();
    KeyReady(G0, P0, logn);
    HalfPowerMeaning(logn, P0);
    ValuesDetermine(t, a, b, logn, HalfPower(logn, P0));
    SmallCongruent(a, b, 40000000, 2147473409);
  }

  lemma PrimeShape()
    ensures Modulus(P0) && P0 == 2147473409
  {}

  lemma EquationBounds(f: Poly, g: Poly, F: Poly, G: Poly, logn: nat)
    requires logn <= 10 && |f| == |g| == |F| == |G| == Pow2(logn)
    requires Bounded(f, 128) && Bounded(g, 128) && Bounded(F, 128) && Bounded(G, 128)
    ensures Bounded(Sub(Product(f, G), Product(g, F)), 40000000) && Bounded([12289] + Zeros(|f| - 1), 40000000)
  {
    Pow2Values();
    Pow2Monotone(logn, 10);
    hide Product;
    ProductBounded(f, G, 128, 128);
    ProductBounded(g, F, 128, 128);
    MulLe(128 * 128, |f|, 1024);
  }

  /** Residues of signed 8-bit coefficients. */
  method SetSmall(f: seq<I8>) returns (r: array<U32>)
    ensures fresh(r) && r.Length == |f| && r[..] == Reduce(f, 2147473409) && Canonical(r[..], 2147473409)
  {
    r := new U32[|f|];
    var u := 0;
    while u < |f|
      invariant u <= |f|
      invariant forall x :: 0 <= x < u ==> r[x] == (f[x] as int) % 2147473409
    {
      r[u] := ModpSet(f[u], 2147473409);
      u := u + 1;
    }
    assert r[..] == Reduce(f, 2147473409);
  }

  lemma TransformWord(t: Tables, a: Poly, w: seq<U32>, logn: nat, i: nat)
    requires Ready(t, logn) && |a| == |w| == Pow2(logn) && i < |a| && t.q == 2147473409
    requires w == Forward(t, Reduce(a, 2147473409), logn)
    ensures Cong(w[i], Value(t, a, logn, i), 2147473409)
  {
    hide Forward, Value, Reduce;
    ForwardValue(t, a, logn, i);
    CongMod(Value(t, a, logn, i), 2147473409);
  }

  /** The closing check: decides f * G - g * F = q over the integers by one prime. */
  method CheckEquation(f: seq<I8>, g: seq<I8>, F: seq<I8>, G: seq<I8>, logn: nat) returns (ok: bool)
    requires logn <= 10 && |f| == |g| == |F| == |G| == Pow2(logn)
    ensures ok <==> NtruEquation(f, g, F, G)
  {
    hide *;
    FirstPrime();
    PrimeShape();
    KeyReady(G0, P0, logn);
    var p: U31 := 2147473409;
    var p0i := FirstReducer();
    var gm, igm := new U32[Pow2(logn)], new U32[Pow2(logn)];
    ModpMkgm2(gm, igm, logn, G0, p, p0i);
    ghost var t := KeyTables(G0, P0);
    var Gt := SetSmall(G);
    var ft := SetSmall(f);
    var gt := SetSmall(g);
    var Ft := SetSmall(F);
    ModpNtt2(ft, gm[..], logn, p, p0i, t);
    ModpNtt2(gt, gm[..], logn, p, p0i, t);
    ModpNtt2(Ft, gm[..], logn, p, p0i, t);
    ModpNtt2(Gt, gm[..], logn, p, p0i, t);
    ok := CompareWords(ft[..], gt[..], Ft[..], Gt[..], f, g, F, G, logn, p0i);
    SmallBounded(f);
    SmallBounded(g);
    SmallBounded(F);
    SmallBounded(G);
    EquationFromValues(t, f, g, F, G, logn);
  }

  lemma SmallBounded(f: seq<I8>)
    ensures Bounded(f, 128)
  {}

  method FirstReducer() returns (p0i: U31)
    ensures Reducer(2147473409, p0i) && p0i == ModpNinv31(2147473409)
  {
    NinvMeaning(2147473409);
    p0i := ModpNinv31(2147473409);
  }

  /** The comparison loop: it stops at the first difference. */
  method CompareWords(ft: seq<U32>, gt: seq<U32>, Ft: seq<U32>, Gt: seq<U32>, ghost f: Poly, ghost g: Poly, ghost F: Poly, ghost G: Poly,
                      logn: nat, p0i: U31) returns (ok: bool)
    requires |f| == |g| == |F| == |G| == |ft| == |gt| == |Ft| == |Gt| == Pow2(logn) && Reducer(2147473409, p0i)
    requires var t := KeyTables(G0, P0);
      && Ready(t, logn) && t.q == 2147473409
      && ft == Forward(t, Reduce(f, 2147473409), logn) && gt == Forward(t, Reduce(g, 2147473409), logn)
      && Ft == Forward(t, Reduce(F, 2147473409), logn) && Gt == Forward(t, Reduce(G, 2147473409), logn)
    requires Canonical(ft, 2147473409) && Canonical(gt, 2147473409) && Canonical(Ft, 2147473409) && Canonical(Gt, 2147473409)
    ensures var t := KeyTables(G0, P0);
      ok <==> forall i :: 0 <= i < Pow2(logn) ==>
        Cong(Residual(t, f, g, F, G, logn, i), 12289, 2147473409)
  {
    hide Forward, Value, KeyTables, Reducer, ModpMontyMul, ModpSub, Cong, Reduce, Ready, Residual;
    ghost var t := KeyTables(G0, P0);
    var r := ModpMontyMul(12289, 1, 2147473409, p0i);
    var u := 0;
    while u < Pow2(logn)
      invariant u <= Pow2(logn)
      invariant forall i :: 0 <= i < u ==>
        Cong(Residual(t, f, g, F, G, logn, i), 12289, 2147473409)
    {
      TransformWord(t, f, ft, logn, u);
      TransformWord(t, g, gt, logn, u);
      TransformWord(t, F, Ft, logn, u);
      TransformWord(t, G, Gt, logn, u);
      ResidualMeaning(t, f, g, F, G, logn, u);
      CheckWord(ft[u], Gt[u], gt[u], Ft[u], Value(t, f, logn, u), Value(t, G, logn, u), Value(t, g, logn, u), Value(t, F, logn, u), 2147473409, p0i);
      var z := ModpSub(ModpMontyMul(ft[u], Gt[u], 2147473409, p0i), ModpMontyMul(gt[u], Ft[u], 2147473409, p0i), 2147473409);
      if z != r {
        return false;
      }
      u := u + 1;
    }
    ok := true;
  }

  /** The integer that a word stands for in two's complement of 32 bits, or of 31 bits if the top bit is clear. */
  function TwosComplement(w: U32): int {
    if w < 0x4000_0000 then w else if w < 0x8000_0000 then w - 0x8000_0000 else w - 0x1_0000_0000
  }

  /** Bit 30 is copied into bit 31. */
  function OneToPlain(w: U32): int {
    Signed32(if w / 0x4000_0000 % 2 == 1 && w < 0x8000_0000 then w + 0x8000_0000 else w)
  }

  lemma OneToPlainMeaning(w: U32)
    ensures OneToPlain(w) == TwosComplement(w)
  {}

  /** Both ways in which the reduction steps leave an integer in a word come back to it. */
  lemma WordsComeBack(z: int)
    requires -0x4000_0000 <= z < 0x4000_0000
    ensures OneToPlain(Wrap32(z)) == z && OneToPlain(z % 0x8000_0000) == z
  {
    RemainderUnique(z, if z < 0 then -1 else 0, if z < 0 then z + 0x8000_0000 else z, 0x8000_0000);
    RemainderUnique(z, if z < 0 then -1 else 0, if z < 0 then z + 0x1_0000_0000 else z, 0x1_0000_0000);
  }

  /** Conversion to small integers; fails at the first coefficient beyond the limit. */
  method BigToSmall(d: array<I8>, s: seq<U32>, lim: int) returns (ok: bool)
    requires d.Length == |s| && 0 <= lim <= 127
    modifies d
    ensures ok <==> forall i :: 0 <= i < |s| ==> -lim <= TwosComplement(s[i]) <= lim
    ensures ok ==> forall i :: 0 <= i < |s| ==> d[i] == TwosComplement(s[i])
  {
    hide OneToPlain, TwosComplement;
    var u := 0;
    while u < |s|
      invariant u <= |s|
      invariant forall i :: 0 <= i < u ==> -lim <= TwosComplement(s[i]) <= lim && d[i] == TwosComplement(s[i])
    {
      OneToPlainMeaning(s[u]);
      var z := OneToPlain(s[u]);
      if z < -lim || z > lim {
        return false;
      }
      d[u] := z;
      u := u + 1;
    }
    ok := true;
  }

  ghost function Plain(s: seq<U32>): (r: Poly)
    ensures |r| == |s|
  {
    seq(|s|, i requires 0 <= i < |s| => TwosComplement(s[i]))
  }

  /**
   The end of the solver, whatever the reduction steps left in Ft and Gt: it succeeds exactly when
   those words are within the limit and solve the NTRU equation over the integers.
   */
  method FinishSolving(F: array<I8>, G: array<I8>, f: seq<I8>, g: seq<I8>, Ft: seq<U32>, Gt: seq<U32>, lim: int, logn: nat) returns (ok: bool)
    requires logn <= 10 && |f| == |g| == |Ft| == |Gt| == F.Length == G.Length == Pow2(logn) && F != G && 0 <= lim <= 127
    modifies F, G
    ensures ok <==> Bounded(Plain(Ft), lim) && Bounded(Plain(Gt), lim) && NtruEquation(f, g, Plain(Ft), Plain(Gt))
    ensures ok ==> F[..] == Plain(Ft) && G[..] == Plain(Gt)
  {
    hide NtruEquation, TwosComplement;
    assert forall i :: 0 <= i < |Ft| ==> Plain(Ft)[i] == TwosComplement(Ft[i]) && Plain(Gt)[i] == TwosComplement(Gt[i]);
    ok := BigToSmall(F, Ft, lim);
    if !ok { return; }
    ok := BigToSmall(G, Gt, lim);
    if !ok { return; }
    assert F[..] == Plain(Ft) && G[..] == Plain(Gt);
    ok := CheckEquation(f, g, F[..], G[..], logn);
  }
}
