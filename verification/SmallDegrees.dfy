/**
 Degrees at which the norms down to the resultant always fit their words, as crypto/keygen.c assumes:
 2 and 4 for all 8-bit coefficients, and 8 for the norms that key generation accepts.
 */
module SmallDegrees {
  import opened Words
  import opened Residues
  import opened Polynomials
  import opened Norms
  import opened NtruCheck
  import opened Crt
  import opened FieldNorm
  import opened MakeFg

  // ---- Products of two and four coefficients ----

  lemma ProductTwo(a: int, b: int)
    ensures Product([a, b], [a, b]) == [a * a - b * b, 2 * (a * b)]
  {
    var f := [a, b];
    assert f[1..] == [b] && [b][1..] == [];
    assert Product([], f) == [0, 0] && TimesX([0, 0]) == [0, 0];
    assert Product([b], f) == [b * a, b * b];
    assert TimesX([b * a, b * b]) == [-(b * b), b * a];
    assert b * a == a * b;
  }

  lemma ProductFour(a: int, b: int, c: int, d: int)
    ensures Product([a, b, c, d], [a, b, c, d])
         == [a * a - c * c - 2 * (b * d), 2 * (a * b) - 2 * (c * d), 2 * (a * c) + b * b - d * d, 2 * (a * d) + 2 * (b * c)]
  {
    var f := [a, b, c, d];
    var p0, p1 := [0, 0, 0, 0], [d * a, d * b, d * c, d * d];
    var p2 := [c * a - d * d, c * b + d * a, c * c + d * b, c * d + d * c];
    var p3 := [b * a - (c * d + d * c), b * b + (c * a - d * d), b * c + (c * b + d * a), b * d + (c * c + d * b)];
    hide *;
    assert [c] + [d] == [c, d] && [b] + [c, d] == [b, c, d] && [a] + [b, c, d] == f && [d] + [] == [d];
    EmptyProduct(f);
    HornerStep(d, [], f, p0);
    HornerStep(c, [d], f, p1);
    HornerStep(b, [c, d], f, p2);
    HornerStep(a, [b, c, d], f, p3);
    assert b * a == a * b && c * a == a * c && d * a == a * d && c * b == b * c && d * b == b * d && d * c == c * d;
  }

  lemma EmptyProduct(f: Poly)
    requires |f| == 4
    ensures Product([], f) == [0, 0, 0, 0]
  {}

  /** One step of Horner's rule on four coefficients. */
  lemma HornerStep(x: int, rest: Poly, f: Poly, p: Poly)
    requires |f| == |p| == 4 && Product(rest, f) == p
    ensures Product([x] + rest, f) == [x * f[0] - p[3], x * f[1] + p[0], x * f[2] + p[1], x * f[3] + p[2]]
  {
    ProductCons(x, rest, f);
    HornerFour(x, f, p);
  }

  lemma ProductCons(x: int, rest: Poly, f: Poly)
    requires |f| > 0
    ensures Product([x] + rest, f) == Add(Scale(x, f), TimesX(Product(rest, f)))
  {
    assert ([x] + rest)[1..] == rest;
  }

  lemma HornerFour(x: int, f: Poly, p: Poly)
    requires |f| == |p| == 4
    ensures Add(Scale(x, f), TimesX(p)) == [x * f[0] - p[3], x * f[1] + p[0], x * f[2] + p[1], x * f[3] + p[2]]
  {}

  // ---- The norm of two, four and eight coefficients ----

  lemma NormOfPair(a: int, b: int)
    ensures Norm([a, b]) == [a * a + b * b]
  {
    assert Evens([a, b]) == [a] && Odds([a, b]) == [b];
    SingleProduct([a], [a]);
    SingleProduct([b], [b]);
    hide Product;
    assert TimesX([b * b]) == [-(b * b)];
  }

  lemma NormOfFour(a: int, b: int, c: int, d: int)
    ensures Norm([a, b, c, d]) == [a * a - c * c + 2 * (b * d), 2 * (a * c) - b * b + d * d]
  {
    assert Evens([a, b, c, d]) == [a, c] && Odds([a, b, c, d]) == [b, d];
    ProductTwo(a, c);
    ProductTwo(b, d);
    hide Product;
    assert TimesX([b * b - d * d, 2 * (b * d)]) == [-(2 * (b * d)), b * b - d * d];
  }

  lemma NormOfEight(f: Poly)
    requires |f| == 8
    ensures |Norm(f)| == 4
    ensures var p, r := Product([f[0], f[2], f[4], f[6]], [f[0], f[2], f[4], f[6]]), Product([f[1], f[3], f[5], f[7]], [f[1], f[3], f[5], f[7]]);
      Norm(f) == [p[0] + r[3], p[1] - r[0], p[2] - r[1], p[3] - r[2]]
  {
    assert Evens(f) == [f[0], f[2], f[4], f[6]] && Odds(f) == [f[1], f[3], f[5], f[7]];
    hide Product;
  }

  // ---- Squared lengths ----

  function Length2(a: int, b: int): (r: int)
    ensures r >= 0
  {
    SquareNonnegative(a);
    SquareNonnegative(b);
    a * a + b * b
  }

  function Length4(a: int, b: int, c: int, d: int): (r: int)
    ensures r >= 0
  {
    Length2(a, b) + Length2(c, d)
  }

  /** The norm of four coefficients is at most as long as the square of their length. */
  lemma FourShrinks(a: int, b: int, c: int, d: int)
    ensures var t := Length4(a, b, c, d);
      Length2(a * a - c * c + 2 * (b * d), 2 * (a * c) - b * b + d * d) <= t * t
  {
    var x, y := a * b + c * d, c * b - a * d;
    var t := Length4(a, b, c, d);
    var u, v := a * a - c * c + 2 * (b * d), 2 * (a * c) - b * b + d * d;
    FourIdentity(a, b, c, d);
    SquareNonnegative(x + y);
  }

  lemma FourIdentity(a: int, b: int, c: int, d: int)
    ensures var t, w := a * a + b * b + c * c + d * d, (a * b + c * d) + (c * b - a * d);
      var u, v := a * a - c * c + 2 * (b * d), 2 * (a * c) - b * b + d * d;
      t * t == u * u + v * v + 2 * (w * w)
  {}

  /** A square of four coefficients is at most sqrt(2) times as long as the square of their length. */
  lemma SquareStretches(a: int, b: int, c: int, d: int)
    ensures var t := Length4(a, b, c, d);
      Length4(a * a - c * c - 2 * (b * d), 2 * (a * b) - 2 * (c * d), 2 * (a * c) + b * b - d * d, 2 * (a * d) + 2 * (b * c)) <= 2 * (t * t)
  {
    StretchIdentity(a, b, c, d);
    SquareNonnegative((a * b + c * d) - (c * b - a * d));
    SquareNonnegative((a * a + c * c) - (b * b + d * d));
  }

  lemma StretchIdentity(a: int, b: int, c: int, d: int)
    ensures var t, w, e := a * a + b * b + c * c + d * d, (a * b + c * d) - (c * b - a * d), (a * a + c * c) - (b * b + d * d);
      var p, q, r, s := a * a - c * c - 2 * (b * d), 2 * (a * b) - 2 * (c * d), 2 * (a * c) + b * b - d * d, 2 * (a * d) + 2 * (b * c);
      2 * (t * t) == p * p + q * q + r * r + s * s + e * e + 2 * (w * w)
  {}

  /** The triangle inequality for vectors of squared lengths at most 2 * s^2 and 2 * t^2. */
  lemma Triangle(p: Poly, q: Poly, s: int, t: int)
    requires |p| == |q| == 4 && s >= 0 && t >= 0
    requires Length4(p[0], p[1], p[2], p[3]) <= 2 * (s * s) && Length4(q[0], q[1], q[2], q[3]) <= 2 * (t * t)
    ensures Length4(p[0] + q[0], p[1] + q[1], p[2] + q[2], p[3] + q[3]) <= 2 * ((s + t) * (s + t))
  {
    hide *;
    SumLength(p, q);
    SquareOfSum(s, t);
    DotProduct(p, q, s, t);
  }

  /** The inner product of such vectors. */
  lemma DotProduct(p: Poly, q: Poly, s: int, t: int)
    requires |p| == |q| == 4 && s >= 0 && t >= 0
    requires Length4(p[0], p[1], p[2], p[3]) <= 2 * (s * s) && Length4(q[0], q[1], q[2], q[3]) <= 2 * (t * t)
    ensures p[0] * q[0] + p[1] * q[1] + p[2] * q[2] + p[3] * q[3] <= 2 * (s * t)
  {
    hide *;
    var D := p[0] * q[0] + p[1] * q[1] + p[2] * q[2] + p[3] * q[3];
    if s == 0 {
      ZeroLength(p, q);
    } else if t == 0 {
      ZeroLength(q, p);
    } else {
      WeightedLength(p, q, s, t);
      DotBound(Length4(p[0], p[1], p[2], p[3]), Length4(q[0], q[1], q[2], q[3]), D, s, t);
    }
  }

  lemma SquareOfSum(s: int, t: int)
    requires s >= 0 && t >= 0
    ensures (s + t) * (s + t) == s * s + 2 * (s * t) + t * t && s * t >= 0
  {}

  lemma SumLength(p: Poly, q: Poly)
    requires |p| == |q| == 4
    ensures Length4(p[0] + q[0], p[1] + q[1], p[2] + q[2], p[3] + q[3])
         == Length4(p[0], p[1], p[2], p[3]) + Length4(q[0], q[1], q[2], q[3])
            + 2 * (p[0] * q[0] + p[1] * q[1] + p[2] * q[2] + p[3] * q[3])
  {
    forall i | 0 <= i < 4 ensures (p[i] + q[i]) * (p[i] + q[i]) == p[i] * p[i] + q[i] * q[i] + 2 * (p[i] * q[i]) {
      MulAdd(p[i] + q[i], p[i], q[i]);
    }
  }

  lemma ZeroLength(p: Poly, q: Poly)
    requires |p| == |q| == 4 && Length4(p[0], p[1], p[2], p[3]) <= 0
    ensures p[0] * q[0] + p[1] * q[1] + p[2] * q[2] + p[3] * q[3] == 0
    ensures q[0] * p[0] + q[1] * p[1] + q[2] * p[2] + q[3] * p[3] == 0
  {
    hide *;
    LengthParts(p);
    ZeroSquare(p[0], q[0]);
    ZeroSquare(p[1], q[1]);
    ZeroSquare(p[2], q[2]);
    ZeroSquare(p[3], q[3]);
  }

  lemma ZeroSquare(x: int, y: int)
    ensures x * x >= 0 && (x * x <= 0 ==> x * y == 0 && y * x == 0)
  {}

  /** The vector t * p - s * q has a nonnegative squared length. */
  lemma WeightedLength(p: Poly, q: Poly, s: int, t: int)
    requires |p| == |q| == 4
    ensures var D := p[0] * q[0] + p[1] * q[1] + p[2] * q[2] + p[3] * q[3];
      2 * ((s * t) * D) <= (t * t) * Length4(p[0], p[1], p[2], p[3]) + (s * s) * Length4(q[0], q[1], q[2], q[3])
  {
    forall i | 0 <= i < 4 ensures 2 * ((s * t) * (p[i] * q[i])) <= (t * t) * (p[i] * p[i]) + (s * s) * (q[i] * q[i]) {
      WeightedSquare(p[i], q[i], s, t);
    }
    hide *;
    LengthParts(p);
    LengthParts(q);
    DistributeFour(s * t, p[0] * q[0], p[1] * q[1], p[2] * q[2], p[3] * q[3]);
    DistributeFour(t * t, p[0] * p[0], p[1] * p[1], p[2] * p[2], p[3] * p[3]);
    DistributeFour(s * s, q[0] * q[0], q[1] * q[1], q[2] * q[2], q[3] * q[3]);
  }

  lemma LengthParts(p: Poly)
    requires |p| == 4
    ensures Length4(p[0], p[1], p[2], p[3]) == p[0] * p[0] + p[1] * p[1] + p[2] * p[2] + p[3] * p[3]
  {}

  lemma WeightedSquare(x: int, y: int, s: int, t: int)
    ensures 2 * ((s * t) * (x * y)) <= (t * t) * (x * x) + (s * s) * (y * y)
  {
    var u, v := t * x, s * y;
    SquareNonnegative(u - v);
    assert (u - v) * (u - v) == u * u - 2 * (u * v) + v * v;
    assert u * u == (t * t) * (x * x) && v * v == (s * s) * (y * y) && u * v == (s * t) * (x * y);
  }

  lemma DistributeFour(x: int, a: int, b: int, c: int, d: int)
    ensures x * (a + b + c + d) == x * a + x * b + x * c + x * d
  {
    MulAdd(x, a + b + c, d);
    MulAdd(x, a + b, c);
    MulAdd(x, a, b);
  }

  lemma DotBound(P: int, Q: int, D: int, s: int, t: int)
    requires s > 0 && t > 0 && P <= 2 * (s * s) && Q <= 2 * (t * t) && 2 * ((s * t) * D) <= (t * t) * P + (s * s) * Q
    ensures D <= 2 * (s * t)
  {
    var k := s * t;
    SquareNonnegative(s);
    SquareNonnegative(t);
    MulOrder(P, 2 * (s * s), t * t);
    MulOrder(Q, 2 * (t * t), s * s);
    assert (2 * (s * s)) * (t * t) == 2 * (k * k) && (2 * (t * t)) * (s * s) == 2 * (k * k);
    assert P * (t * t) == (t * t) * P && Q * (s * s) == (s * s) * Q;
    assert k > 0 && k * D <= k * (2 * k);
    Cancel(k, D, 2 * k);
  }

  lemma Cancel(k: int, x: int, y: int)
    requires k > 0 && k * x <= k * y
    ensures x <= y
  {
    MulAdd(k, y, 1);
    if x >= y + 1 { MulOrder(y + 1, x, k); }
  }

  // ---- Degree 8 ----

  lemma NormOfEntries(f: Poly)
    requires |f| == 8
    ensures SquaredNorm(f) == Length4(f[0], f[2], f[4], f[6]) + Length4(f[1], f[3], f[5], f[7])
  {
    forall u: nat | u < 8 ensures SquaredNorm(f[..u + 1]) == SquaredNorm(f[..u]) + f[u] * f[u] { SquaredNormStep(f, u); }
    assert f[..0] == [] && f[..8] == f;
    assert SquaredNorm(f[..1]) == f[0] * f[0] && SquaredNorm(f[..2]) == SquaredNorm(f[..1]) + f[1] * f[1];
    assert SquaredNorm(f[..3]) == SquaredNorm(f[..2]) + f[2] * f[2] && SquaredNorm(f[..4]) == SquaredNorm(f[..3]) + f[3] * f[3];
    assert SquaredNorm(f[..5]) == SquaredNorm(f[..4]) + f[4] * f[4] && SquaredNorm(f[..6]) == SquaredNorm(f[..5]) + f[5] * f[5];
    assert SquaredNorm(f[..7]) == SquaredNorm(f[..6]) + f[6] * f[6] && SquaredNorm(f[..8]) == SquaredNorm(f[..7]) + f[7] * f[7];
  }

  /** The norm of eight coefficients has a squared length of at most twice the square of theirs. */
  lemma EightShrinks(f: Poly)
    requires |f| == 8
    ensures |Norm(f)| == 4
    ensures var n, s := Norm(f), SquaredNorm(f); Length4(n[0], n[1], n[2], n[3]) <= 2 * (s * s)
  {
    NormOfEight(f);
    NormOfEntries(f);
    ProductFour(f[0], f[2], f[4], f[6]);
    ProductFour(f[1], f[3], f[5], f[7]);
    var p, r := Product([f[0], f[2], f[4], f[6]], [f[0], f[2], f[4], f[6]]), Product([f[1], f[3], f[5], f[7]], [f[1], f[3], f[5], f[7]]);
    SquareStretches(f[0], f[2], f[4], f[6]);
    SquareStretches(f[1], f[3], f[5], f[7]);
    hide *;
    var q := [r[3], -r[0], -r[1], -r[2]];
    Turned(r);
    Triangle(p, q, Length4(f[0], f[2], f[4], f[6]), Length4(f[1], f[3], f[5], f[7]));
  }

  lemma Turned(r: Poly)
    requires |r| == 4
    ensures Length4(r[3], -r[0], -r[1], -r[2]) == Length4(r[0], r[1], r[2], r[3])
  {
    assert forall i :: 0 <= i < 4 ==> (-r[i]) * (-r[i]) == r[i] * r[i];
  }

  /** The resultant of eight coefficients is at most four times the fourth power of their squared norm. */
  lemma EightResultant(f: Poly)
    requires |f| == Pow2(3)
    ensures |f| == 8 && var w := SquaredNorm(f) * SquaredNorm(f); Resultant(f, 3) <= 4 * (w * w)
  {
    hide *;
    SmallPowers();
    var n := Norm(f);
    EightShrinks(f);
    FourResultant(n);
    ResultantNext(f, 3);
    var t: int, w: int := Length4(n[0], n[1], n[2], n[3]), SquaredNorm(f) * SquaredNorm(f);
    MulLe(t, t, 2 * w);
    MulLe(2 * w, t, 2 * w);
    assert (2 * w) * (2 * w) == 4 * (w * w);
  }

  lemma SmallPowers()
    ensures Pow2(3) == 8 && Pow2(2) == 4 && Pow2(1) == 2
  {}

  lemma FourResultant(n: Poly)
    requires |n| == 4
    ensures Pow2(2) == 4 && var t := Length4(n[0], n[1], n[2], n[3]); Resultant(n, 2) <= t * t
  {
    hide *;
    SmallPowers();
    ResultantNext(n, 2);
    var m := Norm(n);
    ResultantNext(m, 1);
    assert n == [n[0], n[1], n[2], n[3]];
    NormOfFour(n[0], n[1], n[2], n[3]);
    FourShrinks(n[0], n[1], n[2], n[3]);
    assert m == [m[0], m[1]];
    NormOfPair(m[0], m[1]);
    LastNorm(m);
  }

  lemma LastNorm(m: Poly)
    requires |m| == 2 && Norm(m) == [m[0] * m[0] + m[1] * m[1]]
    ensures |Norm(m)| == Pow2(0) && Resultant(Norm(m), 0) == Length2(m[0], m[1])
  {
    assert Pow2(0) == 1;
    hide Norm;
  }

  /** Degrees 2 and 4 for all 8-bit coefficients, and degree 8 for squared norms below the bound of key generation. */
  predicate Small(f: Poly, logn: nat) {
    logn <= 2 || (logn == 3 && SquaredNorm(f) < 16823)
  }

  /** At these degrees all norms fit their words, whatever the coefficients. */
  lemma SmallIsWellSized(f: Poly, primes: seq<SmallPrime>, logn: nat)
    requires 1 <= logn && |f| == Pow2(logn) && PrimeList(primes) && Bounded(f, 128) && Small(f, logn)
    ensures logn <= 10 && WellSized(f, primes, logn)
  {
    SmallMeaning(f, logn);
    hide *;
    PrimeCount(primes);
    forall d: nat | d < logn ensures Fits(NormDown(f, logn, d), primes, MaxBl(d)) { EarlyDepthsFit(f, primes, logn, d); }
    EarlySizes(primes, logn);
    if logn <= 2 {
      EarlyDepthsFit(f, primes, logn, logn);
      DownToResultant(f, logn);
      FitsOne(f, primes, logn);
    } else {
      EightResultant(f);
      FourthPower(SquaredNorm(f));
      DepthThree();
    }
    WellSizedIntro(f, primes, logn);
  }

  lemma SmallMeaning(f: Poly, logn: nat)
    requires Small(f, logn)
    ensures logn <= 3 && (logn == 3 ==> SquaredNorm(f) <= 16822)
  {}

  lemma FourthPower(s: nat)
    requires s <= 16822
    ensures 4 * ((s * s) * (s * s)) <= 320310006226959424
  {
    MulLe(s, s, 16822);
    MulLe(16822, s, 16822);
    var w := s * s;
    MulLe(w, w, 282979684);
    MulLe(282979684, w, 282979684);
  }

  lemma DepthThree()
    ensures MaxBl(3) == 2
  {}

  lemma FitsOne(f: Poly, primes: seq<SmallPrime>, logn: nat)
    requires |f| == Pow2(logn) && logn <= 10 && MaxBl(logn) <= |primes|
    requires NormDown(f, logn, logn) == [Resultant(f, logn)] && Fits(NormDown(f, logn, logn), primes, MaxBl(logn))
    ensures 2 * Resultant(f, logn) < Prod(primes, MaxBl(logn))
  {
    hide NormDown, Resultant, Prod;
    assert Centred(NormDown(f, logn, logn)[0], primes, MaxBl(logn));
  }

  lemma WellSizedIntro(f: Poly, primes: seq<SmallPrime>, logn: nat)
    requires |f| == Pow2(logn) && logn <= 10 && PrimeList(primes) && |primes| >= 209
    requires forall d: nat :: d < logn ==> Fits(NormDown(f, logn, d), primes, MaxBl(d))
    requires Resultant(f, logn) < Prod(primes, MaxBl(logn)) || 2 * Resultant(f, logn) < Prod(primes, MaxBl(logn))
    ensures WellSized(f, primes, logn)
  {
    hide NormDown, Resultant, Prod, Fits;
  }

  /** The resultant of two or four 8-bit coefficients. */
  lemma ResultantSmall(f: Poly, logn: nat)
    requires 1 <= logn <= 2 && |f| == Pow2(logn) && Bounded(f, 128)
    ensures 0 <= Resultant(f, logn) <= if logn == 1 then 0x8000 else 0x2_0000_0000
  {
    hide *;
    SmallPowers();
    ResultantNonnegative(f, logn);
    ResultantNext(f, logn);
    if logn == 1 {
      BoundedNorm(f, 128, 2, 0x8000);
      LastResultant(Norm(f), 0x8000);
    } else {
      BoundedNorm(f, 128, 4, 0x1_0000);
      ResultantNext(Norm(f), 1);
      BoundedNorm(Norm(f), 0x1_0000, 2, 0x2_0000_0000);
      LastResultant(Norm(Norm(f)), 0x2_0000_0000);
    }
  }

  lemma LastResultant(a: Poly, m: int)
    requires |a| == Pow2(0) && Bounded(a, m)
    ensures Resultant(a, 0) <= m
  {
    assert Pow2(0) == 1;
  }
}
