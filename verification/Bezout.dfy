/** The batched extended binary GCD on big integers, as in crypto/keygen.c. */
module Bezout {
  import opened Words
  import opened Arrays
  import opened Residues
  import opened Modp
  import opened BigNum
  import opened BezoutSteps
  import opened BezoutModular
  import opened GcdSteps
  import opened GcdLanes
  import opened GcdRounds

  // ---- The outer loop ----

  /** Bounds and congruences that every round keeps. */
  ghost predicate GcdState(a: int, b: int, u0: int, u1: int, v0: int, v1: int, x: int, y: int) {
    && 0 <= u0 <= y && 0 <= u1 <= y && 0 <= v0 <= x && 0 <= v1 <= x && x > 0 && y > 0
    && Cong(a, x * u0, y) && Cong(b, x * u1, y) && Cong(a, -y * v0, x) && Cong(b, -y * v1, x)
  }

  lemma GcdBounds(a: int, b: int, u0: int, u1: int, v0: int, v1: int, x: int, y: int)
    requires GcdState(a, b, u0, u1, v0, v1, x, y)
    ensures 0 <= u0 <= y && 0 <= u1 <= y && 0 <= v0 <= x && 0 <= v1 <= x && x > 0 && y > 0
  {}

  lemma GcdStart(x: int, y: int)
    requires x > 0 && y > 0
    ensures GcdState(x, y, 1, y, 0, x - 1, x, y)
  {
    CongIntro(y, x * y, 1 - x, y);
    CongIntro(x, -y * 0, 1, x);
    MulAdd(-y, x, 1);
    CongIntro(y, -y * (x - 1), y, x);
    assert -y * (x - 1) == -y * x + y;
  }

  /** 2^31 is invertible modulo an odd number. */
  lemma OddInverse(m: int, m0: int, m0i: int, r: int, z: int)
    requires m > 0 && Cong(m, m0, 0x8000_0000) && Cong(m0 * m0i, -1, 0x8000_0000)
    requires Cong(0x8000_0000 * r, 0x8000_0000 * z, m)
    ensures Cong(r, z, m)
  {
    hide *;
    CongScale(m0i, m, m0, 0x8000_0000);
    assert m0i * m == m * m0i && m0i * m0 == m0 * m0i;
    CongTrans(m * m0i, m0 * m0i, -1, 0x8000_0000);
    var c := CongElim(m * m0i, -1, 0x8000_0000);
    assert m0i * m == m * m0i;
    CongIntro(0x8000_0000 * c, 1, m0i, m);
    CongCancel(0x8000_0000, c, r, z, m);
  }

  /** One combination keeps a congruence a = f * u: here f is x modulo y, or -y modulo x. */
  lemma RoundScalar(a: int, b: int, u0: int, u1: int, f: int, p: int, q: int, a': int, u': int, m: int, m0: int, m0i: int)
    requires m > 0 && Cong(m, m0, 0x8000_0000) && Cong(m0 * m0i, -1, 0x8000_0000)
    requires Cong(a, f * u0, m) && Cong(b, f * u1, m)
    requires 0x8000_0000 * a' == p * a + q * b && Cong(0x8000_0000 * u', p * u0 + q * u1, m)
    ensures Cong(a', f * u', m)
  {
    hide *;
    CongScale(p, a, f * u0, m);
    CongScale(q, b, f * u1, m);
    CongAdd(p * a, p * (f * u0), q * b, q * (f * u1), m);
    MulAssoc(p, f, u0);
    MulAssoc(q, f, u1);
    MulAdd(f, p * u0, q * u1);
    assert p * (f * u0) + q * (f * u1) == f * (p * u0 + q * u1) by {
      MulAssoc(f, p, u0);
      MulAssoc(f, q, u1);
    }
    CongScale(f, 0x8000_0000 * u', p * u0 + q * u1, m);
    MulAssoc(f, 0x8000_0000, u');
    assert f * (0x8000_0000 * u') == 0x8000_0000 * (f * u');
    CongTrans(0x8000_0000 * a', f * (p * u0 + q * u1), 0x8000_0000 * (f * u'), m);
    OddInverse(m, m0, m0i, a', f * u');
  }

  /** The round as a whole. */
  lemma GcdRound(a: int, b: int, u0: int, u1: int, v0: int, v1: int, x: int, y: int,
                 a': int, b': int, u0': int, u1': int, v0': int, v1': int,
                 pa: int, pb: int, qa: int, qb: int, x0: int, x0i: int, y0: int, y0i: int)
    requires GcdState(a, b, u0, u1, v0, v1, x, y)
    requires Cong(x, x0, 0x8000_0000) && Cong(x0 * x0i, -1, 0x8000_0000)
    requires Cong(y, y0, 0x8000_0000) && Cong(y0 * y0i, -1, 0x8000_0000)
    requires 0x8000_0000 * a' == pa * a + pb * b && 0x8000_0000 * b' == qa * a + qb * b
    requires 0 <= u0' < y && 0 <= u1' < y && 0 <= v0' < x && 0 <= v1' < x
    requires Cong(0x8000_0000 * u0', pa * u0 + pb * u1, y) && Cong(0x8000_0000 * u1', qa * u0 + qb * u1, y)
    requires Cong(0x8000_0000 * v0', pa * v0 + pb * v1, x) && Cong(0x8000_0000 * v1', qa * v0 + qb * v1, x)
    ensures GcdState(a', b', u0', u1', v0', v1', x, y)
  {
    hide *;
    GcdMeaning(a, b, u0, u1, v0, v1, x, y);
    RoundScalar(a, b, u0, u1, x, pa, pb, a', u0', y, y0, y0i);
    RoundScalar(a, b, u0, u1, x, qa, qb, b', u1', y, y0, y0i);
    RoundScalar(a, b, v0, v1, -y, pa, pb, a', v0', x, x0, x0i);
    RoundScalar(a, b, v0, v1, -y, qa, qb, b', v1', x, x0, x0i);
    GcdMeaning(a', b', u0', u1', v0', v1', x, y);
  }

  lemma GcdMeaning(a: int, b: int, u0: int, u1: int, v0: int, v1: int, x: int, y: int)
    requires x > 0 && y > 0
    ensures GcdState(a, b, u0, u1, v0, v1, x, y) <==>
      && 0 <= u0 <= y && 0 <= u1 <= y && 0 <= v0 <= x && 0 <= v1 <= x
      && Cong(a, x * u0, y) && Cong(b, x * u1, y) && Cong(a, -y * v0, x) && Cong(b, -y * v1, x)
  {}

  /**
   When the GCD has come down to 1, the identity holds exactly if y is more than 1: both residues
   are right, and the range leaves only 1 and 1 - x * y.
   */
  lemma GcdEnd(b: int, u0: int, u1: int, v0: int, v1: int, x: int, y: int)
    requires GcdState(1, b, u0, u1, v0, v1, x, y) && u0 < y && v0 < x
    ensures x * u0 - y * v0 == 1 <==> y > 1
  {
    hide *;
    GcdBounds(1, b, u0, u1, v0, v1, x, y);
    GcdMeaning(1, b, u0, u1, v0, v1, x, y);
    UniqueIdentity(u0, v0, x, y);
  }

  lemma UniqueIdentity(u: int, v: int, x: int, y: int)
    requires x > 0 && y > 0 && 0 <= u < y && 0 <= v < x && Cong(1, x * u, y) && Cong(1, -y * v, x)
    ensures x * u - y * v == 1 <==> y > 1
  {
    hide *;
    var d := x * u - y * v;
    assert -y * v == -(y * v) && -v * y == -(y * v);
    CongIntro(d, x * u, -v, y);
    CongTrans(d, x * u, 1, y);
    assert u * x == x * u;
    CongIntro(d, -y * v, u, x);
    CongTrans(d, -y * v, 1, x);
    var k := CongElim(d, 1, x);
    CongRefl(1, y);
    CongSub(d, 1, 1, 1, y);
    assert k * x == x * k;
    CongSym(1, x * u, y);
    CongCancel(x, u, k, 0, y);
    var l := CongElim(k, 0, y);
    MulAssoc(l, y, x);
    assert k * x == (l * y) * x;
    UniqueRange(u, v, x, y, l);
  }

  lemma UniqueRange(u: int, v: int, x: int, y: int, l: int)
    requires x > 0 && y > 0 && 0 <= u < y && 0 <= v < x && x * u - y * v == 1 + l * (y * x)
    ensures x * u - y * v == 1 <==> y > 1
  {
    hide *;
    MulLe(x, u, y - 1);
    MulLe(y, v, x - 1);
    MulAdd(x, y, 1);
    MulAdd(y, x, 1);
    MulLe(x, 1, y);
    MulLe(y, 1, x);
    assert x * y == y * x;
    FinalMultiple(l, y * x, x, y, x * u - y * v);
  }

  lemma FinalMultiple(l: int, w: int, x: int, y: int, d: int)
    requires d == 1 + l * w && -w + y <= d <= w - x && x > 0 && y > 0 && w >= x && w >= y && (y == 1 ==> w == x)
    ensures d == 1 <==> y > 1
  {
    if l >= 1 {
      MulLe(w, 1, l);
    } else if l <= -2 {
      var n := -l;
      assert l * w == -(n * w);
      MulLe(w, 2, n);
    } else if l == -1 {
      assert l * w == -w;
    }
  }

  /** The factors of one round with the sign that makes both results nonnegative. */
  lemma SignedFactors(pa: int, pb: int, a: int, b: int, neg: int)
    requires neg == if pa * a + pb * b < 0 then 1 else 0
    ensures Abs(pa * a + pb * b) == (pa - neg * (pa + pa)) * a + (pb - neg * (pb + pb)) * b
    ensures Factors(pa, pb) ==> Factors(pa - neg * (pa + pa), pb - neg * (pb + pb))
  {
    if neg == 1 {
      assert pa - neg * (pa + pa) == -pa && pb - neg * (pb + pb) == -pb;
      assert -pa * a == -(pa * a) && -pb * b == -(pb * b);
    }
  }

  /** The words of the six running integers, and the invariant on their values. */
  ghost predicate Running(a: seq<int>, b: seq<int>, u0: seq<int>, u1: seq<int>, v0: seq<int>, v1: seq<int>, x: int, y: int) {
    && Limbs(a) && Limbs(b) && Limbs(u0) && Limbs(u1) && Limbs(v0) && Limbs(v1)
    && GcdState(Num(a), Num(b), Num(u0), Num(u1), Num(v0), Num(v1), x, y)
  }

  lemma RunningMeaning(a: seq<int>, b: seq<int>, u0: seq<int>, u1: seq<int>, v0: seq<int>, v1: seq<int>, x: int, y: int)
    ensures Running(a, b, u0, u1, v0, v1, x, y) <==>
      && Limbs(a) && Limbs(b) && Limbs(u0) && Limbs(u1) && Limbs(v0) && Limbs(v1)
      && GcdState(Num(a), Num(b), Num(u0), Num(u1), Num(v0), Num(v1), x, y)
  {}

  /** One round of the outer loop on the six running integers. */
  method BezoutRound(a: array<U32>, b: array<U32>, u0: array<U32>, u1: array<U32>, v0: array<U32>, v1: array<U32>,
                     x: seq<U32>, y: seq<U32>, x0i: U31, y0i: U31)
    requires a != b && a != u0 && a != u1 && a != v0 && a != v1 && b != u0 && b != u1 && b != v0 && b != v1
    requires u0 != u1 && u0 != v0 && u0 != v1 && u1 != v0 && u1 != v1 && v0 != v1
    requires a.Length == b.Length == u0.Length == u1.Length == v0.Length == v1.Length == |x| == |y| >= 1
    requires Limbs(x) && Limbs(y) && Cong(x[0] * x0i, -1, 0x8000_0000) && Cong(y[0] * y0i, -1, 0x8000_0000)
    requires Running(a[..], b[..], u0[..], u1[..], v0[..], v1[..], Num(x), Num(y))
    modifies a, b, u0, u1, v0, v1
    ensures Running(a[..], b[..], u0[..], u1[..], v0[..], v1[..], Num(x), Num(y))
    ensures Num(u0[..]) < Num(y) && Num(v0[..]) < Num(x)
    ensures old(Num(a[..])) >= 0 && old(Num(b[..])) >= 0 && (Num(a[..]), Num(b[..])) == Round(old(Num(a[..])), old(Num(b[..])))
  {
    hide *;
    ghost var A, B := Num(a[..]), Num(b[..]);
    ghost var U0, U1, V0, V1 := Num(u0[..]), Num(u1[..]), Num(v0[..]), Num(v1[..]);
    RunningMeaning(a[..], b[..], u0[..], u1[..], v0[..], v1[..], Num(x), Num(y));
    GcdBounds(A, B, U0, U1, V0, V1, Num(x), Num(y));
    LowestWord(a[..]);
    LowestWord(b[..]);
    LowestWord(x);
    LowestWord(y);
    CongSym(A, a[0], 0x8000_0000);
    CongSym(B, b[0], 0x8000_0000);
    var a_hi, b_hi := ExtractTop(a[..], b[..]);
    LowWords(a[..], b[..]);
    var pa, pb, qa, qb := ReductionFactors(a[0], b[0], a_hi, b_hi, A, B);
    var nega, negb := ZintCoReduce(a, b, pa, pb, qa, qb);
    RoundMeaning(A, B, pa, pb, qa, qb, Num(a[..]), Num(b[..]));
    SignedFactors(pa, pb, A, B, nega);
    SignedFactors(qa, qb, A, B, negb);
    pa, pb := pa - nega * (pa + pa), pb - nega * (pb + pb);
    qa, qb := qa - negb * (qa + qa), qb - negb * (qb + qb);
    ZintCoReduceMod(u0, u1, y, y0i, pa, pb, qa, qb);
    ZintCoReduceMod(v0, v1, x, x0i, pa, pb, qa, qb);
    GcdRound(A, B, U0, U1, V0, V1, Num(x), Num(y), Num(a[..]), Num(b[..]), Num(u0[..]), Num(u1[..]), Num(v0[..]), Num(v1[..]),
             pa, pb, qa, qb, x[0], x0i, y[0], y0i);
    RunningMeaning(a[..], b[..], u0[..], u1[..], v0[..], v1[..], Num(x), Num(y));
  }

  /** The lowest words are the remainders modulo 2^31. */
  lemma LowWords(a: seq<int>, b: seq<int>)
    requires |a| == |b| >= 1 && Limbs(a) && Limbs(b)
    ensures Num(a) >= 0 && Num(b) >= 0 && a[0] == Num(a) % 0x8000_0000 && b[0] == Num(b) % 0x8000_0000
  {
    hide Num, Limbs;
    NumBound(a);
    NumBound(b);
    NumCons(a);
    NumCons(b);
    TailLimbs(a);
    TailLimbs(b);
    RemainderUnique(Num(a), Num(a[1..]), a[0], 0x8000_0000);
    RemainderUnique(Num(b), Num(b[1..]), b[0], 0x8000_0000);
  }

  lemma OneMeaning(a: seq<int>)
    requires |a| >= 1 && Limbs(a)
    ensures Num(a) == 1 <==> a[0] == 1 && forall i :: 1 <= i < |a| ==> a[i] == 0
  {
    hide Base, Place;
    NumCons(a);
    TailZero(a[1..]);
    if a[0] == 1 && forall i :: 1 <= i < |a| ==> a[i] == 0 {
      forall i | 0 <= i < |a[1..]| ensures a[1..][i] == 0 { assert a[1..][i] == a[i + 1]; }
    }
    if Num(a) == 1 {
      assert Num(a[1..]) == 0;
      forall i | 1 <= i < |a| ensures a[i] == 0 { assert a[i] == a[1..][i - 1]; }
    }
  }

  lemma {:induction false} TailZero(s: seq<int>)
    requires Limbs(s)
    ensures Num(s) >= 0
    ensures Num(s) == 0 <==> forall i :: 0 <= i < |s| ==> s[i] == 0
  {
    hide Base, Place;
    NumBound(s);
    if |s| > 0 {
      TailZero(s[1..]);
      NumCons(s);
      if forall i :: 0 <= i < |s| ==> s[i] == 0 {
        forall i | 0 <= i < |s[1..]| ensures s[1..][i] == 0 { assert s[1..][i] == s[i + 1]; }
      }
      if Num(s) == 0 {
        forall i | 0 <= i < |s| ensures s[i] == 0 { if i > 0 { assert s[i] == s[1..][i - 1]; } }
      }
    }
  }

  /** The final test on the words of a. */
  method IsOne(a: seq<U32>) returns (one: bool)
    requires |a| >= 1 && Limbs(a)
    ensures one <==> Num(a) == 1
  {
    OneMeaning(a);
    one := a[0] == 1;
    var j := 1;
    while j < |a|
      invariant 1 <= j <= |a|
      invariant one <==> a[0] == 1 && forall i :: 1 <= i < j ==> a[i] == 0
    {
      one := one && a[j] == 0;
      j := j + 1;
    }
  }

  /** The words of the small number w < 2^31. */
  method SetWord(a: array<U32>, w: U31)
    requires a.Length >= 1
    modifies a
    ensures Limbs(a[..]) && Num(a[..]) == w
  {
    a[0] := w;
    var u := 1;
    while u < a.Length
      invariant 1 <= u <= a.Length && a[0] == w
      invariant forall i :: 1 <= i < u ==> a[i] == 0
    {
      a[u] := 0;
      u := u + 1;
    }
    SmallNumber(a[..]);
  }

  lemma SmallNumber(a: seq<int>)
    requires |a| >= 1 && 0 <= a[0] < 0x8000_0000 && forall i :: 1 <= i < |a| ==> a[i] == 0
    ensures Limbs(a) && Num(a) == a[0]
  {
    NumCons(a);
    var t := a[1..];
    assert forall i :: 0 <= i < |t| ==> t[i] == a[i + 1] == 0;
    TailZero(t);
  }

  lemma Decrement(x: seq<int>, v: seq<int>)
    requires |x| >= 1 && Limbs(x) && x[0] % 2 == 1 && v == [x[0] - 1] + x[1..]
    ensures Limbs(v) && Num(v) == Num(x) - 1
  {
    hide Num;
    NumCons(x);
    NumCons(v);
    assert v[1..] == x[1..];
  }

  lemma OddWords(x: seq<int>)
    requires |x| >= 1 && Limbs(x) && Num(x) % 2 == 1
    ensures x[0] % 2 == 1 && 0 <= x[0] < 0x8000_0000 && Num(x) > 0
  {
    hide Num;
    NumCons(x);
    NumBound(x);
    assert Num(x) % 2 == x[0] % 2;
  }

  /** All rounds. */
  method AllRounds(a: array<U32>, b: array<U32>, u: array<U32>, u1: array<U32>, v: array<U32>, v1: array<U32>,
                   x: seq<U32>, y: seq<U32>, x0i: U31, y0i: U31)
    requires a != b && a != u && a != u1 && a != v && a != v1 && b != u && b != u1 && b != v && b != v1
    requires u != u1 && u != v && u != v1 && u1 != v && u1 != v1 && v != v1
    requires a.Length == b.Length == u.Length == u1.Length == v.Length == v1.Length == |x| == |y| >= 1
    requires Limbs(x) && Limbs(y) && Cong(x[0] * x0i, -1, 0x8000_0000) && Cong(y[0] * y0i, -1, 0x8000_0000)
    requires Running(a[..], b[..], u[..], u1[..], v[..], v1[..], Num(x), Num(y))
    requires Num(a[..]) == Num(x) >= 0 && Num(b[..]) == Num(y) >= 0
    modifies a, b, u, u1, v, v1
    ensures Running(a[..], b[..], u[..], u1[..], v[..], v1[..], Num(x), Num(y))
    ensures Num(u[..]) < Num(y) && Num(v[..]) < Num(x)
    ensures (Num(a[..]), Num(b[..])) == Rounds(Num(x), Num(y), (62 * |x| + 30) / 30)
  {
    hide *;
    var num := 62 * |x| + 30;
    ghost var r: nat := 0;
    RoundsNext(Num(x), Num(y), 0);
    while num >= 30
      invariant num == 62 * |x| + 30 - 30 * r && num >= 0 && (Num(a[..]), Num(b[..])) == Rounds(Num(x), Num(y), r)
      invariant Running(a[..], b[..], u[..], u1[..], v[..], v1[..], Num(x), Num(y))
      invariant num < 30 ==> Num(u[..]) < Num(y) && Num(v[..]) < Num(x)
      decreases num
    {
      BezoutRound(a, b, u, u1, v, v1, x, y, x0i, y0i);
      RoundsNext(Num(x), Num(y), r);
      num, r := num - 30, r + 1;
    }
    RemainderUnique(62 * |x| + 30, r, num, 30);
  }

  /**
   Extended GCD. It succeeds exactly if both operands are odd and the rounds come down to 1, which for
   operands below 2^62 means that they have no common divisor. Then u and v are in range and satisfy
   x * u - y * v = 1, provided y is more than 1; when y is 1 they do not satisfy it. It does succeed
   for x = y = 1, with u = v = 0, so that case is not empty.
   */
  method ZintBezout(u: array<U32>, v: array<U32>, x: seq<U32>, y: seq<U32>) returns (ok: bool)
    requires u != v && u.Length == v.Length == |x| == |y| && Limbs(x) && Limbs(y)
    modifies u, v
    ensures Num(x) >= 0 && Num(y) >= 0 && (ok <==> GcdIsOne(Num(x), Num(y), |x|))
    ensures |x| > 0 && Num(x) % 2 == 1 && Num(y) % 2 == 1 && Num(x) < 0x4000_0000_0000_0000 && Num(y) < 0x4000_0000_0000_0000 ==>
      (ok <==> Coprime(Num(x), Num(y)))
    ensures |x| == 0 || Num(x) % 2 == 0 || Num(y) % 2 == 0 ==> !ok
    ensures ok ==> Limbs(u[..]) && Limbs(v[..]) && 0 <= Num(u[..]) < Num(y) && 0 <= Num(v[..]) < Num(x)
    ensures ok ==> (Num(x) * Num(u[..]) - Num(y) * Num(v[..]) == 1 <==> Num(y) > 1)
    ensures Num(x) == 1 && Num(y) == 1 ==> ok && Num(u[..]) == 0 && Num(v[..]) == 0
  {
    hide *;
    var len := |x|;
    if len == 0 {
      NumEmpty(x);
      assert x == [] && y == [];
      GcdMeaningOne(Num(x), Num(y), 0);
      return false;
    }
    NumBound(x);
    NumBound(y);
    ParityOfWords(x);
    ParityOfWords(y);
    GcdMeaningOne(Num(x), Num(y), len);
    if x[0] % 2 == 0 || y[0] % 2 == 0 { return false; }
    var u1, v1, a, b := new U32[len], new U32[len], new U32[len], new U32[len];
    OddWords(x);
    OddWords(y);
    NinvMeaning(x[0]);
    NinvMeaning(y[0]);
    var x0i := ModpNinv31(x[0]);
    var y0i := ModpNinv31(y[0]);
    CopyFrom(a, x);
    CopyFrom(b, y);
    SetWord(u, 1);
    SetWord(v, 0);
    CopyFrom(u1, y);
    CopyFrom(v1, x);
    v1[0] := v1[0] - 1;
    assert v1[..] == [x[0] - 1] + x[1..];
    Decrement(x, v1[..]);
    GcdStart(Num(x), Num(y));
    RunningMeaning(a[..], b[..], u[..], u1[..], v[..], v1[..], Num(x), Num(y));
    AllRounds(a, b, u, u1, v, v1, x, y, x0i, y0i);
    RunningMeaning(a[..], b[..], u[..], u1[..], v[..], v1[..], Num(x), Num(y));
    GcdBounds(Num(a[..]), Num(b[..]), Num(u[..]), Num(u1[..]), Num(v[..]), Num(v1[..]), Num(x), Num(y));
    ok := IsOne(a[..]);
    if ok { GcdEnd(Num(b[..]), Num(u[..]), Num(u1[..]), Num(v[..]), Num(v1[..]), Num(x), Num(y)); }
    if Num(x) < 0x4000_0000_0000_0000 && Num(y) < 0x4000_0000_0000_0000 {
      OneWord(x);
      OneWord(y);
      RoundsDecide(Num(x), Num(y), len);
      UnitsCoprime(Num(x), Num(y));
    }
  }

  lemma GcdMeaningOne(x: nat, y: nat, len: nat)
    ensures GcdIsOne(x, y, len) <==> len > 0 && x % 2 == 1 && y % 2 == 1 && Rounds(x, y, (62 * len + 30) / 30).0 == 1
  {}

  lemma OneWord(x: seq<int>)
    requires Limbs(x)
    ensures |x| == 1 ==> Num(x) < 0x8000_0000
  {
    NumBound(x);
    assert Base(1) == 0x8000_0000 * Base(0);
  }

  lemma UnitsCoprime(x: nat, y: nat)
    ensures x == 1 && y == 1 ==> Coprime(x, y)
  {}
}
