/** Rebuilding big integers from their residues modulo small primes, as in crypto/keygen.c. */
module Crt {
  import opened Words
  import opened Residues
  import opened Modp
  import opened BigNum
  import opened LimbArithmetic

  /** A modulus, a generator, and the inverse of the product of the previous moduli. */
  datatype SmallPrime = SmallPrime(p: U31, g: U31, s: U31)

  /** The product of the first k moduli. */
  function Prod(primes: seq<SmallPrime>, k: nat): nat
    requires k <= |primes|
  {
    if k == 0 then 1 else Prod(primes, k - 1) * primes[k - 1].p
  }

  /** Every modulus is as the arithmetic needs it, and every s is 2^31 over the previous moduli. */
  ghost predicate GoodPrimes(primes: seq<SmallPrime>) {
    forall i :: 0 <= i < |primes| ==> GoodPrime(primes, i)
  }

  ghost predicate GoodPrime(primes: seq<SmallPrime>, i: nat)
    requires i < |primes|
  {
    var p := primes[i].p;
    Modulus(p) && primes[i].s < p && Cong(primes[i].s * Prod(primes, i), 0x8000_0000, p)
  }

  lemma GoodMeaning(primes: seq<SmallPrime>, i: nat)
    requires GoodPrimes(primes) && i < |primes|
    ensures Modulus(primes[i].p) && primes[i].s < primes[i].p && 0x4000_0000 < primes[i].p
    ensures Cong(primes[i].s * Prod(primes, i), 0x8000_0000, primes[i].p)
  {
    hide Cong, Prod;
    assert GoodPrime(primes, i);
  }

  lemma {:induction false} ProdPositive(primes: seq<SmallPrime>, k: nat)
    requires k <= |primes| && GoodPrimes(primes)
    ensures Prod(primes, k) >= 1
  {
    if k > 0 {
      ProdPositive(primes, k - 1);
      GoodMeaning(primes, k - 1);
      MulLe(Prod(primes, k - 1), 1, primes[k - 1].p);
    }
  }

  lemma ProdNext(primes: seq<SmallPrime>, k: nat)
    requires k < |primes|
    ensures Prod(primes, k + 1) == Prod(primes, k) * primes[k].p && Prod(primes, 0) == 1
  {}

  /** Each modulus divides every later product. */
  lemma {:induction false} ProdDivisible(primes: seq<SmallPrime>, i: nat, k: nat)
    requires i < k <= |primes| && GoodPrimes(primes)
    ensures primes[i].p > 0 && Cong(Prod(primes, k), 0, primes[i].p)
  {
    GoodMeaning(primes, i);
    var p := primes[i].p;
    if i == k - 1 {
      CongIntro(Prod(primes, k), 0, Prod(primes, i), p);
    } else {
      ProdDivisible(primes, i, k - 1);
      CongScale(primes[k - 1].p, Prod(primes, k - 1), 0, p);
      assert primes[k - 1].p * Prod(primes, k - 1) == Prod(primes, k);
    }
  }

  /** n has the first k residues of r. */
  ghost predicate HasResidues(n: int, r: seq<int>, primes: seq<SmallPrime>, k: nat) {
    && k <= |primes| && k <= |r|
    && forall i :: 0 <= i < k ==> primes[i].p > 0 && Cong(n, r[i], primes[i].p)
  }

  lemma ResidueAt(n: int, r: seq<int>, primes: seq<SmallPrime>, k: nat, i: nat)
    requires HasResidues(n, r, primes, k) && i < k
    ensures primes[i].p > 0 && Cong(n, r[i], primes[i].p)
  {}

  /** Coprimality in the form the table provides it: p divides k * q only if it divides k. */
  lemma DivideOut(k: int, q: int, s: int, p: U31)
    requires Modulus(p) && Cong(s * q, 0x8000_0000, p) && Cong(k * q, 0, p)
    ensures Cong(k, 0, p)
  {
    NinvMeaning(p);
    var p0i := ModpNinv31(p);
    assert Reducer(p, p0i);
    hide *;
    CongScale(s, k * q, 0, p);
    CongScale(k, s * q, 0x8000_0000, p);
    MulAssoc(s, k, q);
    assert s * (k * q) == k * (s * q) && k * 0x8000_0000 == 0x8000_0000 * k;
    CongTrans(0x8000_0000 * k, k * (s * q), s * 0, p);
    CancelRadix31(k, 0, p, p0i);
  }

  /** Numbers with the same residues are congruent modulo the product. */
  lemma {:induction false} SameResidues(m: int, n: int, r: seq<int>, primes: seq<SmallPrime>, k: nat)
    requires k <= |primes| && GoodPrimes(primes) && HasResidues(m, r, primes, k) && HasResidues(n, r, primes, k)
    ensures Prod(primes, k) > 0 && Cong(m, n, Prod(primes, k))
  {
    hide *;
    ProdPositive(primes, k);
    if k == 0 {
      ProdZero(primes);
      CongIntro(m, n, m - n, 1);
    } else {
      ResiduesPrefix(m, r, primes, k);
      ResiduesPrefix(n, r, primes, k);
      SameResidues(m, n, r, primes, k - 1);
      GoodMeaning(primes, k - 1);
      ResidueAt(m, r, primes, k, k - 1);
      ResidueAt(n, r, primes, k, k - 1);
      CombineModuli(m, n, r[k - 1], Prod(primes, k - 1), primes[k - 1].p, primes[k - 1].s);
      ProdNext(primes, k - 1);
    }
  }

  lemma ProdZero(primes: seq<SmallPrime>)
    ensures Prod(primes, 0) == 1
  {}

  lemma ResiduesPrefix(n: int, r: seq<int>, primes: seq<SmallPrime>, k: nat)
    requires HasResidues(n, r, primes, k) && k > 0
    ensures HasResidues(n, r, primes, k - 1) && k <= |primes| && k <= |r|
  {}

  lemma CombineModuli(m: int, n: int, r: int, q: nat, p: U31, s: U31)
    requires q > 0 && Modulus(p) && Cong(s * q, 0x8000_0000, p)
    requires Cong(m, n, q) && Cong(m, r, p) && Cong(n, r, p)
    ensures q * p > 0 && Cong(m, n, q * p)
  {
    var j := CongElim(m, n, q);
    hide *;
    CongTrans(m, r, n, p);
    CongRefl(n, p);
    CongSub(m, n, n, n, p);
    DivideOut(j, q, s, p);
    var l := CongElim(j, 0, p);
    MulAssoc(l, p, q);
    assert p * q == q * p;
    MulLe(q, 1, p);
    CongIntro(m, n, l, q * p);
  }

  /** The rebuilt number is the only one in range with its residues. */
  lemma RebuiltUnique(m: int, n: int, r: seq<int>, primes: seq<SmallPrime>, k: nat)
    requires GoodPrimes(primes) && HasResidues(m, r, primes, k) && HasResidues(n, r, primes, k)
    requires 0 <= m < Prod(primes, k) && 0 <= n < Prod(primes, k)
    ensures m == n
  {
    SameResidues(m, n, r, primes, k);
    CongCanonical(m, n, Prod(primes, k));
  }

  // ---- Reduction modulo one prime ----

  /** The first step of the reduction loop: a word modulo p. */
  function WordModP(d: U32, p: U31): U32 { Lift(Wrap32(d as int - p), p) }

  lemma WordModMeaning(d: U32, p: U31)
    requires Modulus(p) && d < 0x8000_0000
    ensures WordModP(d, p) < p && Cong(WordModP(d, p), d, p)
  {
    ReduceOnce(d - p, p);
    CongIntro(d - p, d, -1, p);
    CongMod(d - p, p);
  }

  /** One step of Horner's rule. */
  lemma HornerStep(x: U32, w: U32, rest: int, d: U32, p: U31, p0i: U31)
    requires Reducer(p, p0i) && x < p && Cong(x, rest, p) && w < p && Cong(w, d, p)
    ensures var y := ModpAdd(ModpMontyMul(x, ModpR2(p, p0i), p, p0i), w, p);
      y < p && Cong(y, d + 0x8000_0000 * rest, p)
  {
    hide *;
    ReducerMeaning(p, p0i);
    R2Meaning(p, p0i);
    MontyBy(x, ModpR2(p, p0i), 0x8000_0000, p, p0i);
    var z: int := ModpMontyMul(x, ModpR2(p, p0i), p, p0i);
    CongScale(0x8000_0000, x, rest, p);
    assert x * 0x8000_0000 == 0x8000_0000 * x;
    CongTrans(z, 0x8000_0000 * x, 0x8000_0000 * rest, p);
    CongAdd(w, d, z, 0x8000_0000 * rest, p);
    assert w + z == z + w;
    CongMod(z + w, p);
    AddSubMeaning(z, w, p);
    CongTrans((z + w) % p, z + w, d + 0x8000_0000 * rest, p);
  }

  /** A big unsigned integer modulo p. */
  method ZintModSmallUnsigned(d: seq<U32>, p: U31, p0i: U31, r2: U32) returns (x: U32)
    requires Reducer(p, p0i) && r2 == ModpR2(p, p0i) && Limbs(d) && p > 0
    ensures x < p && Cong(x, Num(d), p)
  {
    hide *;
    ReducerMeaning(p, p0i);
    x := 0;
    var u := |d|;
    assert d[u..] == [];
    NumEmpty(d);
    CongRefl(0, p);
    while u > 0
      invariant 0 <= u <= |d| && x < p && Cong(x, Num(d[u..]), p)
    {
      u := u - 1;
      NumCons(d[u..]);
      assert d[u..][0] == d[u] && d[u..][1..] == d[u + 1..];
      LimbAt(d, u);
      WordModMeaning(d[u], p);
      HornerStep(x, WordModP(d[u], p), Num(d[u + 1..]), d[u], p, p0i);
      x := ModpMontyMul(x, r2, p, p0i);
      var w := WordModP(d[u], p);
      x := ModpAdd(x, w, p);
    }
    assert d[0..] == d;
  }

  // ---- Reconstruction ----

  /** The first k words hold the number with the first k residues of r; the others still hold residues. */
  ghost predicate Partial(x: seq<int>, r: seq<int>, primes: seq<SmallPrime>, k: nat) {
    && 1 <= k <= |primes| && |x| == |r| == |primes|
    && Limbs(x[..k]) && 0 <= Num(x[..k]) < Prod(primes, k) && HasResidues(Num(x[..k]), r, primes, k)
    && x[k..] == r[k..]
  }

  ghost predicate Reduced(r: seq<int>, primes: seq<SmallPrime>) {
    |r| == |primes| && forall i :: 0 <= i < |r| ==> 0 <= r[i] < primes[i].p
  }

  lemma PartialStart(r: seq<int>, primes: seq<SmallPrime>)
    requires |primes| >= 1 && Reduced(r, primes)
    ensures Partial(r, r, primes, 1)
  {
    NumStep(r, 0);
    NumEmpty(r);
    PlaceUnit(r[0], 0);
    ProdNext(primes, 0);
    CongRefl(r[0], primes[0].p);
  }

  lemma PartialWord(x: seq<int>, r: seq<int>, primes: seq<SmallPrime>, k: nat)
    requires Partial(x, r, primes, k) && k < |primes|
    ensures x[k] == r[k] && Limbs(x[..k]) && |x| == |primes|
  {
    assert x[k..][0] == r[k..][0];
  }

  /** The multiple of q to add: q * xr is xp - xq modulo p. */
  lemma CorrectionMeaning(xp: int, xq: int, xr: int, s: int, q: int, p: U31, p0i: U31)
    requires Reducer(p, p0i) && Cong(s * q, 0x8000_0000, p)
    requires Cong(0x8000_0000 * xr, s * ((xp - xq) % p), p)
    ensures Cong(q * xr, xp - xq, p)
  {
    hide *;
    ReducerMeaning(p, p0i);
    var d := (xp - xq) % p;
    CongMod(xp - xq, p);
    CongScale(q, 0x8000_0000 * xr, s * d, p);
    MulAssoc(q, 0x8000_0000, xr);
    MulAssoc(q, s, d);
    assert q * (0x8000_0000 * xr) == 0x8000_0000 * (q * xr) && q * (s * d) == (s * q) * d by { assert q * s == s * q; }
    CongScale(d, s * q, 0x8000_0000, p);
    assert d * (s * q) == (s * q) * d && d * 0x8000_0000 == 0x8000_0000 * d;
    CongTrans(0x8000_0000 * (q * xr), (s * q) * d, 0x8000_0000 * d, p);
    CancelRadix31(q * xr, d, p, p0i);
    CongTrans(q * xr, d, xp - xq, p);
  }

  /** Adding that multiple gives the residue modulo p and keeps the earlier ones. */
  lemma {:induction false} CorrectionResidues(n: int, xq: int, xr: int, r: seq<int>, primes: seq<SmallPrime>, k: nat)
    requires GoodPrimes(primes) && k < |primes| && k < |r| && HasResidues(n, r, primes, k)
    requires primes[k].p > 0 && Cong(xq, n, primes[k].p) && Cong(Prod(primes, k) * xr, r[k] - xq, primes[k].p)
    ensures HasResidues(n + xr * Prod(primes, k), r, primes, k + 1)
  {
    var q := Prod(primes, k);
    assert q * xr == xr * q;
    forall i | 0 <= i < k + 1 ensures primes[i].p > 0 && Cong(n + xr * q, r[i], primes[i].p) {
      var p := primes[i].p;
      GoodMeaning(primes, i);
      if i < k {
        ProdDivisible(primes, i, k);
        CorrectionOld(n, xr, q, r[i], p);
      } else {
        CorrectionNew(n, xq, xr * q, r[i], p);
      }
    }
  }

  lemma CorrectionOld(n: int, xr: int, q: int, r: int, p: int)
    requires p > 0 && Cong(q, 0, p) && Cong(n, r, p)
    ensures Cong(n + xr * q, r, p)
  {
    hide *;
    CongScale(xr, q, 0, p);
    CongAdd(n, r, xr * q, xr * 0, p);
  }

  lemma CorrectionNew(n: int, xq: int, y: int, r: int, p: int)
    requires p > 0 && Cong(xq, n, p) && Cong(y, r - xq, p)
    ensures Cong(n + y, r, p)
  {
    hide *;
    CongSym(xq, n, p);
    CongAdd(n, xq, y, r - xq, p);
  }

  /** One integer of one round of the reconstruction. */
  method RebuildStep(x: array<U32>, tmp: seq<U32>, primes: seq<SmallPrime>, u: nat, p0i: U31, r2: U32, ghost r: seq<int>)
    requires GoodPrimes(primes) && 1 <= u < |primes| && x.Length == |primes| && |tmp| == u
    requires Reduced(r, primes) && Partial(x[..], r, primes, u) && Limbs(tmp) && Num(tmp) == Prod(primes, u)
    requires Reducer(primes[u].p, p0i) && r2 == ModpR2(primes[u].p, p0i) && primes[u].p > 0
    modifies x
    ensures Partial(x[..], r, primes, u + 1)
  {
    hide *;
    ghost var x0: seq<int> := x[..];
    var p := primes[u].p;
    var s := primes[u].s;
    GoodMeaning(primes, u);
    ReducedAt(r, primes, u);
    PartialWord(x0, r, primes, u);
    assert x[..][..u] == x[..u];
    var xp := x[u];
    var xq := ZintModSmallUnsigned(x[..u], p, p0i, r2);
    AddSubMeaning(xp, xq, p);
    MontyMeaning(s, ModpSub(xp, xq, p), p, p0i);
    var xr := ModpMontyMul(s, ModpSub(xp, xq, p), p, p0i);
    CorrectionMeaning(xp, xq, xr, s, Prod(primes, u), p, p0i);
    ZintAddMulSmall(x, tmp, u, xr);
    assert x[..][..u + 1] == x[..u + 1] && x[..][u + 1..] == x[u + 1..] == x0[u + 1..];
    PartialNext(x0, x[..], r, primes, u, xq, xr);
  }

  lemma ReducedAt(r: seq<int>, primes: seq<SmallPrime>, u: nat)
    requires Reduced(r, primes) && u < |primes|
    ensures |r| == |primes| && 0 <= r[u] < primes[u].p
  {}

  lemma {:induction false} PartialNext(x0: seq<int>, x: seq<int>, r: seq<int>, primes: seq<SmallPrime>, u: nat, xq: int, xr: int)
    requires GoodPrimes(primes) && u < |primes| && Partial(x0, r, primes, u) && |x| == |x0|
    requires 0 <= xr < primes[u].p && Cong(xq, Num(x0[..u]), primes[u].p)
    requires Cong(Prod(primes, u) * xr, r[u] - xq, primes[u].p)
    requires Limbs(x[..u + 1]) && Num(x[..u + 1]) == Num(x0[..u]) + xr * Prod(primes, u) && x[u + 1..] == x0[u + 1..]
    ensures Partial(x, r, primes, u + 1)
  {
    hide Num, Cong, HasResidues, GoodPrimes, Prod;
    CorrectionResidues(Num(x0[..u]), xq, xr, r, primes, u);
    ProdNext(primes, u);
    GoodMeaning(primes, u);
    RangeNext(Num(x0[..u]), xr, Prod(primes, u), primes[u].p);
    assert x0[u + 1..] == x0[u..][1..] && r[u + 1..] == r[u..][1..];
  }

  lemma RangeNext(n: int, xr: nat, q: nat, p: nat)
    requires 0 <= n < q && xr < p
    ensures 0 <= n + xr * q < q * p
  {
    hide *;
    MulLe(q, xr, p - 1);
    MulAdd(q, p, 1);
    assert xr * q == q * xr;
  }

  /**
   Rebuilds all integers, one prime at a time, and then centres them if asked to. The arrays hold
   the residues at the start and the words of the integers at the end.
   */
  method ZintRebuildCRT(xs: seq<array<U32>>, primes: seq<SmallPrime>, normalize: bool, ghost rs: seq<seq<int>>)
    requires GoodPrimes(primes) && |primes| >= 1 && |rs| == |xs|
    requires forall i, j :: 0 <= i < j < |xs| ==> xs[i] != xs[j]
    requires forall i :: 0 <= i < |xs| ==> xs[i].Length == |primes| && xs[i][..] == rs[i] && Reduced(rs[i], primes)
    modifies set i | 0 <= i < |xs| :: xs[i]
    ensures forall i :: 0 <= i < |xs| ==> Limbs(xs[i][..])
    ensures forall i :: 0 <= i < |xs| ==> Rebuilt(xs[i][..], rs[i], primes, normalize)
  {
    hide *;
    var xlen := |primes|;
    var tmp := new U32[xlen];
    tmp[0] := primes[0].p;
    OneWord(tmp[..1], primes);
    forall i | 0 <= i < |xs| ensures Partial(xs[i][..], rs[i], primes, 1) { PartialStart(rs[i], primes); }
    var u := 1;
    while u < xlen
      invariant 1 <= u <= xlen && tmp.Length == xlen
      invariant Limbs(tmp[..u]) && Num(tmp[..u]) == Prod(primes, u)
      invariant forall i :: 0 <= i < |xs| ==> Partial(xs[i][..], rs[i], primes, u)
    {
      var p := primes[u].p;
      GoodMeaning(primes, u);
      var p0i := ModpNinv31(p);
      ReducerFor(p);
      var r2 := ModpR2(p, p0i);
      var v := 0;
      while v < |xs|
        invariant 0 <= v <= |xs| && tmp.Length == xlen
        invariant Limbs(tmp[..u]) && Num(tmp[..u]) == Prod(primes, u)
        invariant forall i :: 0 <= i < |xs| ==> Partial(xs[i][..], rs[i], primes, if i < v then u + 1 else u)
      {
        RebuildStep(xs[v], tmp[..u], primes, u, p0i, r2, rs[v]);
        v := v + 1;
      }
      ghost var t0 := tmp[..u];
      var c := ZintMulSmall(tmp, u, p);
      tmp[u] := c;
      assert tmp[..u + 1] == tmp[..u] + [c];
      ProductWord(t0, tmp[..u], c, primes, u);
      u := u + 1;
    }
    assert tmp[..u] == tmp[..];
    forall i | 0 <= i < |xs| ensures Rebuilt(xs[i][..], rs[i], primes, false) { PartialAll(xs[i][..], rs[i], primes); }
    if normalize {
      OddProduct(primes, xlen);
      u := 0;
      while u < |xs|
        invariant 0 <= u <= |xs|
        invariant Limbs(tmp[..]) && Num(tmp[..]) == Prod(primes, xlen)
        invariant forall i :: 0 <= i < |xs| ==> Rebuilt(xs[i][..], rs[i], primes, i < u)
      {
        NormalizeOne(xs[u], tmp[..], primes, rs[u]);
        u := u + 1;
      }
    }
    forall i | 0 <= i < |xs| ensures Limbs(xs[i][..]) { RebuiltLimbs(xs[i][..], rs[i], primes, normalize); }
  }

  /** The words of x are the rebuilt number: in 0..m-1, or centred around 0 in two's complement. */
  ghost predicate Rebuilt(x: seq<int>, r: seq<int>, primes: seq<SmallPrime>, normalize: bool) {
    var v := if normalize then SignedNum(x) else Num(x);
    var m := Prod(primes, |primes|);
    && |x| == |r| == |primes| && Limbs(x) && HasResidues(v, r, primes, |primes|)
    && if normalize then -(m as int) < 2 * v < m else 0 <= v < m
  }

  lemma RebuiltLimbs(x: seq<int>, r: seq<int>, primes: seq<SmallPrime>, normalize: bool)
    requires Rebuilt(x, r, primes, normalize)
    ensures Limbs(x)
  {}

  lemma PartialAll(x: seq<int>, r: seq<int>, primes: seq<SmallPrime>)
    requires |primes| >= 1 && Partial(x, r, primes, |primes|)
    ensures Rebuilt(x, r, primes, false)
  {
    NumAll(x);
  }

  lemma OneWord(t: seq<int>, primes: seq<SmallPrime>)
    requires |primes| >= 1 && |t| == 1 && t[0] == primes[0].p
    ensures Limbs(t) && Num(t) == Prod(primes, 1)
  {
    NumStep(t, 0);
    NumEmpty(t);
    NumAll(t);
    PlaceUnit(t[0], 0);
    ProdNext(primes, 0);
  }

  lemma ReducerFor(p: U31)
    requires Modulus(p)
    ensures Reducer(p, ModpNinv31(p)) && p > 0
  {
    NinvMeaning(p);
  }

  lemma ProductWord(t0: seq<int>, t: seq<int>, c: int, primes: seq<SmallPrime>, u: nat)
    requires u < |primes| && |t0| == |t| == u && Num(t0) == Prod(primes, u) && Limbs(t) && 0 <= c < 0x8000_0000
    requires Num(t) + Place(c, u) == primes[u].p * Num(t0)
    ensures Limbs(t + [c]) && Num(t + [c]) == Prod(primes, u + 1)
  {
    hide Num, Place;
    NumAppend(t, c);
    ProdNext(primes, u);
    assert primes[u].p * Prod(primes, u) == Prod(primes, u) * primes[u].p;
  }

  lemma {:induction false} OddProduct(primes: seq<SmallPrime>, k: nat)
    requires k <= |primes| && GoodPrimes(primes)
    ensures Prod(primes, k) % 2 == 1
  {
    hide Cong;
    if k > 0 {
      OddProduct(primes, k - 1);
      GoodMeaning(primes, k - 1);
      OddTimesOdd(Prod(primes, k - 1), primes[k - 1].p);
    }
  }

  lemma OddTimesOdd(x: int, y: int)
    requires x % 2 == 1 && y % 2 == 1
    ensures (x * y) % 2 == 1
  {
    hide *;
    CongMeaning(x, 1, 2);
    CongMeaning(y, 1, 2);
    CongMul(x, 1, y, 1, 2);
    CongMeaning(x * y, 1, 2);
  }

  method NormalizeOne(x: array<U32>, tmp: seq<U32>, primes: seq<SmallPrime>, ghost r: seq<int>)
    requires GoodPrimes(primes) && x.Length == |tmp| == |primes| && Rebuilt(x[..], r, primes, false)
    requires Limbs(tmp) && Num(tmp) == Prod(primes, |primes|) && Prod(primes, |primes|) % 2 == 1
    modifies x
    ensures Rebuilt(x[..], r, primes, true)
  {
    hide *;
    ghost var x0 := x[..];
    RebuiltMeaning(x0, r, primes);
    ZintNormZero(x, tmp);
    CentredRebuilt(x0, x[..], r, primes);
  }

  lemma RebuiltMeaning(x: seq<int>, r: seq<int>, primes: seq<SmallPrime>)
    requires Rebuilt(x, r, primes, false)
    ensures Limbs(x) && 0 <= Num(x) < Prod(primes, |primes|)
  {}

  lemma {:induction false} CentredRebuilt(x0: seq<int>, x: seq<int>, r: seq<int>, primes: seq<SmallPrime>)
    requires GoodPrimes(primes) && Rebuilt(x0, r, primes, false) && |x| == |x0| && Limbs(x) && Prod(primes, |primes|) % 2 == 1
    requires var n, m := Num(x0), Prod(primes, |primes|); SignedNum(x) == if 2 * n > m then n - m else n
    ensures Rebuilt(x, r, primes, true)
  {
    hide Num, SignedNum, Prod, Cong, GoodPrimes;
    var n, m := Num(x0), Prod(primes, |primes|);
    forall i | 0 <= i < |primes| ensures primes[i].p > 0 && Cong(SignedNum(x), r[i], primes[i].p) {
      ResidueAt(n, r, primes, |primes|, i);
      ProdDivisible(primes, i, |primes|);
      CentredResidue(n, m, r[i], primes[i].p);
    }
  }

  lemma CentredResidue(n: int, m: int, r: int, p: int)
    requires p > 0 && Cong(n, r, p) && Cong(m, 0, p)
    ensures Cong(n - m, r, p)
  {
    hide *;
    CongSub(n, r, m, 0, p);
  }
}
