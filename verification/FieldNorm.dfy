/** The field norm and the parity of resultants, as in crypto/keygen.c. */
module FieldNorm {
  import opened Words
  import opened Residues
  import opened Polynomials
  import opened NttTree
  import opened Convolution
  import opened Modp
  import opened ModpTransform

  function Evens(f: Poly): (r: Poly)
    ensures |r| == |f| / 2
  {
    seq(|f| / 2, i requires 0 <= i < |f| / 2 => f[2 * i])
  }

  function Odds(f: Poly): (r: Poly)
    ensures |r| == |f| / 2
  {
    seq(|f| / 2, i requires 0 <= i < |f| / 2 => f[2 * i + 1])
  }

  /** f0^2 - X * f1^2 modulo X^(n/2) + 1, where f = f0(X^2) + X * f1(X^2). */
  function Norm(f: Poly): (r: Poly)
    requires |f| >= 2
    ensures |r| == |f| / 2
  {
    Sub(Product(Evens(f), Evens(f)), TimesX(Product(Odds(f), Odds(f))))
  }

  /** The resultant of f with X^n + 1: the field norm taken down to the integers. */
  function Resultant(f: Poly, logn: nat): int
    requires |f| == Pow2(logn)
    decreases logn
  {
    if logn == 0 then f[0] else Resultant(Norm(f), logn - 1)
  }

  lemma SplitStep(a: int, b: int, x: int, e: int, o: int)
    ensures a + x * (b + x * (e + x * o)) == (a + (x * x) * e) + x * (b + (x * x) * o)
  {
    MulAdd(x, b, x * (e + x * o));
    MulAdd(x, e, x * o);
    MulAdd(x, x * e, x * (x * o));
    MulAdd(x, b, (x * x) * o);
    MulAssoc(x, x, e);
    MulAssoc(x, x, o);
    assert x * (x * (e + x * o)) == (x * x) * e + x * ((x * x) * o);
  }

  /** f(x) is f0(x^2) + x * f1(x^2). */
  lemma {:induction false} EvalSplit(f: Poly, x: int)
    requires |f| % 2 == 0
    ensures Eval(f, x) == Eval(Evens(f), x * x) + x * Eval(Odds(f), x * x)
    decreases |f|
  {
    if |f| > 0 {
      var g := f[2..];
      EvalSplit(g, x);
      assert Evens(f)[1..] == Evens(g) && Odds(f)[1..] == Odds(g);
      assert f[1..][1..] == g;
      assert Eval(f, x) == f[0] + x * (f[1] + x * Eval(g, x));
      SplitStep(f[0], f[1], x, Eval(Evens(g), x * x), Eval(Odds(g), x * x));
    }
  }

  /** The value of the norm where the power of x is -1. */
  lemma EvalNorm(f: Poly, x: int, m: int)
    requires m > 0 && |f| >= 2 && Cong(Pow(x, |f| / 2), -1, m)
    ensures Cong(Eval(Norm(f), x),
                 Eval(Evens(f), x) * Eval(Evens(f), x) - x * (Eval(Odds(f), x) * Eval(Odds(f), x)), m)
  {
    hide Product, Eval, Cong, Pow;
    var e, o := Evens(f), Odds(f);
    var p, r := Product(e, e), Product(o, o);
    EvalProduct(e, e, x, m);
    EvalProduct(o, o, x, m);
    EvalTimesX(r, x, m);
    forall i | 0 <= i < |p| ensures Cong(Norm(f)[i], p[i] + -1 * TimesX(r)[i], m) {
      CongRefl(Norm(f)[i], m);
    }
    EvalLinear(Norm(f), p, -1, TimesX(r), x, m);
    NormScalar(Eval(Norm(f), x), Eval(p, x), Eval(TimesX(r), x), Eval(r, x), Eval(e, x), Eval(o, x), x, m);
  }

  lemma NormScalar(n: int, p: int, t: int, r: int, e: int, o: int, x: int, m: int)
    requires m > 0 && Cong(n, p + -1 * t, m) && Cong(t, x * r, m) && Cong(r, o * o, m) && Cong(p, e * e, m)
    ensures Cong(n, e * e - x * (o * o), m)
  {
    hide *;
    CongScale(x, r, o * o, m);
    CongTrans(t, x * r, x * (o * o), m);
    CongSub(p, e * e, t, x * (o * o), m);
    assert p + -1 * t == p - t;
    CongTrans(n, p - t, e * e - x * (o * o), m);
  }

  // ---- Parity ----

  /** The field norm keeps the parity of the sum of the coefficients. */
  lemma NormParity(f: Poly)
    requires |f| >= 2 && |f| % 2 == 0
    ensures Cong(Eval(Norm(f), 1), Eval(f, 1), 2)
  {
    hide *;
    PowOne(|f| / 2);
    CongIntro(1, -1, 1, 2);
    EvalNorm(f, 1, 2);
    assert 1 * 1 == 1;
    EvalSplit(f, 1);
    ParityScalar(Eval(Norm(f), 1), Eval(Evens(f), 1), Eval(Odds(f), 1));
  }

  lemma ParityScalar(n: int, e: int, o: int)
    requires Cong(n, e * e - 1 * (o * o), 2)
    ensures Cong(n, e + 1 * o, 2)
  {
    hide *;
    SquareParity(e);
    SquareParity(o);
    CongSub(e * e, e, o * o, o, 2);
    CongIntro(e - o, e + 1 * o, -o, 2);
    CongTrans(n, e * e - 1 * (o * o), e - o, 2);
    CongTrans(n, e - o, e + 1 * o, 2);
  }

  lemma SquareParity(e: int)
    ensures Cong(e * e, e, 2)
  {
    var a := e / 2;
    var c := e - 2 * a;
    hide *;
    CongIntro(e, c, a, 2);
    CongMul(e, c, e, c, 2);
    assert c * c == c;
    CongTrans(e * e, c, e, 2);
  }

  /** The resultant is odd exactly when the sum of the coefficients is. */
  lemma {:induction false} ResultantParity(f: Poly, logn: nat)
    requires |f| == Pow2(logn)
    ensures Resultant(f, logn) % 2 == Eval(f, 1) % 2
    decreases logn
  {
    hide Eval, Norm;
    if logn == 0 {
      EvalConstant(f, 1);
    } else {
      NormParity(f);
      ResultantParity(Norm(f), logn - 1);
      CongMeaning(Eval(Norm(f), 1), Eval(f, 1), 2);
    }
  }

  /** Opposite parities of f and g leave exactly one resultant odd. */
  lemma ExactlyOneOdd(f: Poly, g: Poly, logn: nat, pf: int)
    requires |f| == |g| == Pow2(logn) && 0 <= pf <= 1
    requires Eval(f, 1) % 2 == pf && Eval(g, 1) % 2 == 1 - pf
    ensures (Resultant(f, logn) + Resultant(g, logn)) % 2 == 1
  {
    hide *;
    ResultantParity(f, logn);
    ResultantParity(g, logn);
  }

  /** The samples within the limits, in order. */
  function InLimits(samples: seq<int>): (r: seq<int>) {
    if |samples| == 0 then []
    else
      var s := samples[|samples| - 1];
      InLimits(samples[..|samples| - 1]) + (if -127 <= s <= 127 then [s] else [])
  }

  lemma LimitsNext(samples: seq<int>, u: nat)
    requires u < |samples|
    ensures InLimits(samples[..u + 1]) == InLimits(samples[..u]) + (if -127 <= samples[u] <= 127 then [samples[u]] else [])
  {
    assert samples[..u + 1][..u] == samples[..u];
  }

  /** Each of the samples from..to gives the wrong parity when added to the sum. */
  ghost predicate WrongParity(samples: seq<int>, from: nat, to: nat, sum: int, parity: int) {
    from <= to <= |samples| && forall i :: from <= i < to ==> (sum + samples[i]) % 2 != parity
  }

  /**
   The sampling loop on a stream of samples: the coefficients before the last are the first samples
   within the limits; the last one is the first after them that also completes the required parity.
   It does not end while the samples within the limits are too few or all of the wrong parity.
   */
  method MkgaussChoose(samples: seq<int>, logn: nat, parity: int) returns (ok: bool, f: seq<int>, used: nat)
    requires 0 <= parity <= 1
    ensures ok ==> |f| == Pow2(logn) && Eval(f, 1) % 2 == parity && forall i :: 0 <= i < |f| ==> -127 <= f[i] <= 127
    ensures ok ==> 0 < used <= |samples| && f[|f| - 1] == samples[used - 1]
    ensures ok ==>
      var kept, k := InLimits(samples[..used]), |f| - 1;
      && |kept| > k && kept[..k] == f[..k] && kept[|kept| - 1] == f[k]
      && WrongParity(kept, k, |kept| - 1, Eval(f[..k], 1), parity)
    ensures !ok ==>
      var kept := InLimits(samples);
      && |f| < Pow2(logn) && f <= kept && (|f| < Pow2(logn) - 1 ==> f == kept)
      && (|f| == Pow2(logn) - 1 ==> WrongParity(kept, |f|, |kept|, Eval(f, 1), parity))
  {
    hide Eval, InLimits;
    var n := Pow2(logn);
    f := [];
    used := 0;
    var mod2 := 0;
    SumZero();
    assert samples[..|samples|] == samples;
    ghost var kept: seq<int> := [];
    while |f| < n
      invariant |f| <= n && 0 <= mod2 <= 1 && used <= |samples| && kept == InLimits(samples[..used])
      invariant |f| < n ==> mod2 == Eval(f, 1) % 2 && f <= kept
      invariant |f| < n - 1 ==> f == kept
      invariant |f| == n - 1 ==> WrongParity(kept, |f|, |kept|, Eval(f, 1), parity)
      invariant |f| == n ==> used > 0 && f[n - 1] == samples[used - 1]
      invariant |f| == n ==> Eval(f, 1) % 2 == parity && |kept| >= n && f[..n - 1] == kept[..n - 1] && kept[|kept| - 1] == f[n - 1]
      invariant |f| == n ==> WrongParity(kept, n - 1, |kept| - 1, Eval(f[..n - 1], 1), parity)
      invariant forall i :: 0 <= i < |f| ==> -127 <= f[i] <= 127
      decreases |samples| - used
    {
      if used == |samples| { return false, f, used; }
      var s := samples[used];
      LimitsNext(samples, used);
      used := used + 1;
      if s < -127 || s > 127 { continue; }
      kept := kept + [s];
      SumAppend(f, s);
      if |f| == n - 1 {
        if (mod2 + s % 2) % 2 != parity { continue; }
        assert (f + [s])[..n - 1] == f;
      } else {
        mod2 := (mod2 + s % 2) % 2;
      }
      f := f + [s];
    }
    ok := true;
  }

  lemma SumZero()
    ensures Eval([], 1) == 0 && InLimits([]) == []
  {}

  lemma SumAppend(f: Poly, s: int)
    ensures Eval(f + [s], 1) == Eval(f, 1) + s
  {
    hide Eval;
    EvalConcat(f, [s], 1);
    EvalConstant([s], 1);
    PowOne(|f|);
  }

  // ---- The field norm on transforms ----

  /** Two neighbouring leaves are square roots of the leaf above them, with opposite signs. */
  lemma {:induction false} PairedPoints(t: Tables, k: nat, node: nat, u: nat)
    requires t.Valid() && t.Covers(k + 1, node) && u < Pow2(k)
    ensures 2 * u + 1 < Pow2(k + 1) && t.q > 0
    ensures var x := Point(t, k + 1, node, 2 * u);
      Point(t, k + 1, node, 2 * u + 1) == -x && Cong(x * x, Point(t, k, node, u), t.q)
    decreases k
  {
    hide Cong;
    if k == 0 {
      assert t.NodeValid(node);
      assert Point(t, 1, node, 0) == Point(t, 0, 2 * node, 0);
      assert Point(t, 1, node, 1) == Point(t, 0, 2 * node + 1, 0);
    } else {
      var h := Pow2(k - 1);
      if u < h {
        PairedPoints(t, k - 1, 2 * node, u);
      } else {
        PairedPoints(t, k - 1, 2 * node + 1, u - h);
      }
    }
  }

  /** The product of the values at two neighbouring roots is the value of the norm at the root above. */
  lemma NormValue(t: Tables, f: Poly, logn: nat, u: nat)
    requires logn >= 1 && Ready(t, logn) && |f| == Pow2(logn) && u < Pow2(logn - 1) && t.Covers(logn - 1, 1)
    ensures 2 * u + 1 < Pow2(logn) && |Norm(f)| == Pow2(logn - 1)
    ensures Cong(Value(t, f, logn, 2 * u) * Value(t, f, logn, 2 * u + 1), Value(t, Norm(f), logn - 1, u), t.q)
  {
    hide Cong, Eval, Point, Norm, Evens, Odds;
    PairedPoints(t, logn - 1, 1, u);
    PointPower(t, logn - 1, 1, u);
    var x, r := Point(t, logn, 1, 2 * u), Point(t, logn - 1, 1, u);
    assert -x * -x == x * x;
    EvalSplit(f, x);
    EvalSplit(f, -x);
    EvalNorm(f, r, t.q);
    EvalPoint(Evens(f), x * x, r, t.q);
    EvalPoint(Odds(f), x * x, r, t.q);
    PairScalar(Eval(f, x), Eval(f, -x), Eval(Evens(f), x * x), Eval(Odds(f), x * x), Eval(Evens(f), r), Eval(Odds(f), r),
               Eval(Norm(f), r), x, r, t.q);
  }

  lemma {:induction false} EvalPoint(a: Poly, x: int, y: int, m: int)
    requires m > 0 && Cong(x, y, m)
    ensures Cong(Eval(a, x), Eval(a, y), m)
  {
    hide Cong;
    if |a| == 0 {
      CongRefl(0, m);
    } else {
      EvalPoint(a[1..], x, y, m);
      CongMul(x, y, Eval(a[1..], x), Eval(a[1..], y), m);
      CongShift(a[0], x * Eval(a[1..], x), y * Eval(a[1..], y), m);
    }
  }

  lemma PairScalar(v: int, w: int, e: int, o: int, e': int, o': int, n: int, x: int, r: int, m: int)
    requires m > 0 && v == e + x * o && w == e + -x * o && Cong(x * x, r, m)
    requires Cong(e, e', m) && Cong(o, o', m) && Cong(n, e' * e' - r * (o' * o'), m)
    ensures Cong(v * w, n, m)
  {
    hide *;
    var z := x * o;
    assert -x * o == -z;
    assert v * w == e * e - z * z by { assert (e + z) * (e - z) == e * e - z * z; }
    assert z * z == (x * x) * (o * o) by { MulAssoc(x, o, x * o); MulAssoc(o, x, o); MulAssoc(x, x, o * o); }
    CongMul(e, e', e, e', m);
    CongMul(o, o', o, o', m);
    CongMul(x * x, r, o * o, o' * o', m);
    CongSub(e * e, e' * e', (x * x) * (o * o), r * (o' * o'), m);
    CongTrans(v * w, e' * e' - r * (o' * o'), n, m);
  }

  /** One word of the halving pass. */
  lemma RecWord(w0: U32, w1: U32, x: int, y: int, n: int, p: U31, p0i: U31)
    requires Reducer(p, p0i) && w0 < p && w1 < p && Cong(w0, x, p) && Cong(w1, y, p) && Cong(x * y, n, p)
    ensures ModpMontyMul(ModpMontyMul(w0, w1, p, p0i), ModpR2(p, p0i), p, p0i) == n % p
  {
    hide *;
    ReducerMeaning(p, p0i);
    MontyMeaning(w0, w1, p, p0i);
    R2Meaning(p, p0i);
    var z := ModpMontyMul(w0, w1, p, p0i);
    MontyBy(z, ModpR2(p, p0i), 0x8000_0000, p, p0i);
    RecScalar(w0, w1, x, y, n, z, ModpMontyMul(z, ModpR2(p, p0i), p, p0i), p);
  }

  lemma RecScalar(w0: int, w1: int, x: int, y: int, n: int, z: int, r: int, p: int)
    requires p > 0 && Cong(w0, x, p) && Cong(w1, y, p) && Cong(x * y, n, p) && 0 <= r < p
    requires Cong(0x8000_0000 * z, w0 * w1, p) && Cong(r, z * 0x8000_0000, p)
    ensures r == n % p
  {
    hide *;
    CongMul(w0, x, w1, y, p);
    CongTrans(0x8000_0000 * z, w0 * w1, x * y, p);
    assert z * 0x8000_0000 == 0x8000_0000 * z;
    CongTrans(r, 0x8000_0000 * z, x * y, p);
    CongTrans(r, x * y, n, p);
    CongMeaning(r, n, p);
    RemainderUnique(r, 0, r, p);
  }

  /** The transform of the field norm. */
  ghost function NormTransform(f: Poly, logn: nat, g: nat, p: U31): (r: Poly)
    requires logn >= 1 && |f| == Pow2(logn) && p >= 2
    ensures |r| == Pow2(logn - 1)
  {
    NormSize(f, logn);
    Forward(KeyTables(g, p), Reduce(Norm(f), p), logn - 1)
  }

  /** Replaces the transform of f by the transform of its field norm, in the first half of the array. */
  method ModpPolyRecRes(a: array<U32>, logn: nat, p: U31, p0i: U31, r2: U32, ghost g: nat, ghost f: Poly)
    requires 1 <= logn <= 10 && Reducer(p, p0i) && Generator(g, p) && r2 == ModpR2(p, p0i) && p >= 2
    requires a.Length == |f| == Pow2(logn) && a[..] == Forward(KeyTables(g, p), Reduce(f, p), logn)
    modifies a
    ensures a[..Pow2(logn - 1)] == NormTransform(f, logn, g, p)
  {
    hide *;
    ghost var t := KeyTables(g, p);
    KeyReady(g, p, logn);
    NormSize(f, logn);
    ghost var a0 := a[..];
    ghost var out := NormTransform(f, logn, g, p);
    var hn := Pow2(logn - 1);
    var u := 0;
    while u < hn
      invariant u <= hn && |a0| == a.Length == 2 * hn && |out| == hn
      invariant forall i :: 2 * u <= i < |a0| ==> a[i] == a0[i]
      invariant forall i :: 0 <= i < u ==> a[i] == out[i]
    {
      RecEntry(a0, f, logn, p, p0i, g, u);
      var w0, w1 := a[2 * u], a[2 * u + 1];
      assert w0 == a0[2 * u] && w1 == a0[2 * u + 1];
      a[u] := ModpMontyMul(ModpMontyMul(w0, w1, p, p0i), r2, p, p0i);
      u := u + 1;
    }
  }

  lemma NormSize(f: Poly, logn: nat)
    requires logn >= 1 && |f| == Pow2(logn)
    ensures Pow2(logn) == 2 * Pow2(logn - 1) && |f| >= 2 && |Norm(f)| == Pow2(logn - 1)
  {}

  lemma RecEntry(a: seq<U32>, f: Poly, logn: nat, p: U31, p0i: U31, g: nat, u: nat)
    requires 1 <= logn <= 10 && Reducer(p, p0i) && Generator(g, p) && p >= 2
    requires |a| == |f| == Pow2(logn) && a == Forward(KeyTables(g, p), Reduce(f, p), logn) && u < Pow2(logn - 1)
    ensures 2 * u + 1 < |a|
    ensures ModpMontyMul(ModpMontyMul(a[2 * u], a[2 * u + 1], p, p0i), ModpR2(p, p0i), p, p0i) == NormTransform(f, logn, g, p)[u]
  {
    hide *;
    NormTransformMeaning(f, logn, g, p);
    var t := KeyTables(g, p);
    KeyReady(g, p, logn);
    KeyReady(g, p, logn - 1);
    ReadyCovers(t, logn - 1);
    ReducerMeaning(p, p0i);
    NormSize(f, logn);
    NormValue(t, f, logn, u);
    ForwardValue(t, f, logn, 2 * u);
    ForwardValue(t, f, logn, 2 * u + 1);
    ForwardValue(t, Norm(f), logn - 1, u);
    CongMod(Value(t, f, logn, 2 * u), p);
    CongMod(Value(t, f, logn, 2 * u + 1), p);
    RecWord(a[2 * u], a[2 * u + 1], Value(t, f, logn, 2 * u), Value(t, f, logn, 2 * u + 1), Value(t, Norm(f), logn - 1, u), p, p0i);
  }

  lemma NormTransformMeaning(f: Poly, logn: nat, g: nat, p: U31)
    requires logn >= 1 && |f| == Pow2(logn) && p >= 2
    ensures |f| >= 2 && |Norm(f)| == Pow2(logn - 1)
    ensures NormTransform(f, logn, g, p) == Forward(KeyTables(g, p), Reduce(Norm(f), p), logn - 1)
  {
    NormSize(f, logn);
  }

  lemma ReadyCovers(t: Tables, k: nat)
    requires Ready(t, k)
    ensures t.Valid() && t.Covers(k, 1)
  {}
}
