/**
 Acceptance of a sampled lattice point as a signature, as in crypto/sign.c. The sampler
 and the rounding are arbitrary integer vectors; products of polynomials are exact.
 */
module Signing {
  import opened Words
  import opened Arrays
  import opened Residues
  import opened Polynomials
  import opened NttTree
  import opened Convolution
  import opened MqPoly
  import opened MqTransform
  import opened Norms
  import opened Division
  import opened Verify
  import opened Recovery
  import opened Completion

  /** The running 32-bit sum of squares of the differences, and the disjunction of its top bits. */
  function NormWord(hm: seq<int>, r0: seq<int>, u: nat): (r: (U32, bool))
    requires u <= |hm| == |r0|
  {
    if u == 0 then (0, false)
    else
      NextNorm(NormWord(hm, r0, u - 1), Signed32(hm[u - 1] - r0[u - 1]))
  }

  function NextNorm(sum: (U32, bool), z: int): (U32, bool) {
    var s := Wrap32(sum.0 + z * z);
    (s, sum.1 || s >= 0x8000_0000)
  }

  lemma NarrowTwice(x: int)
    ensures Signed16(Signed32(x)) == Signed16(x)
  {
    var y: int := Signed32(x);
    var k := (x + 0x8000_0000) / 0x1_0000_0000;
    assert x == y + 0x1_0000_0000 * k;
    CongIntro(x + 0x8000, y + 0x8000, 0x1_0000 * k, 0x1_0000);
  }

  /** The saturated norm that the acceptance test starts from. */
  function FirstHalfNorm(hm: seq<int>, r0: seq<int>): U32
    requires |hm| == |r0|
  {
    var (s, ng) := NormWord(hm, r0, |hm|);
    Saturated(s, ng)
  }

  /** The second half of the signature: -r1 in 16 bits. */
  function Narrowed(r1: seq<int>): (s2: seq<I16>)
    ensures |s2| == |r1|
  {
    seq(|r1|, i requires 0 <= i < |r1| => Signed16(-r1[i]))
  }

  method ComputeNorm(hm: seq<U16>, r0: seq<int>) returns (s1: array<I16>, sqn: U32)
    requires |hm| == |r0|
    ensures fresh(s1) && s1.Length == |hm| && forall i :: 0 <= i < |hm| ==> s1[i] == Signed16(hm[i] - r0[i])
    ensures sqn == FirstHalfNorm(hm, r0)
  {
    hide Signed16, Signed32, NextNorm;
    s1 := new I16[|hm|];
    var sum := (0, false);
    var u := 0;
    while u < |hm|
      invariant u <= |hm| && sum == NormWord(hm, r0, u)
      invariant forall i :: 0 <= i < u ==> s1[i] == Signed16(hm[i] - r0[i])
    {
      var z := Signed32(hm[u] - r0[u]);
      NarrowTwice(hm[u] - r0[u]);
      sum := NextNorm(sum, z);
      s1[u] := Signed16(z);
      u := u + 1;
    }
    sqn := Saturated(sum.0, sum.1);
  }

  /** The 16-bit words that hold signed values. */
  function AsWords(s: seq<I16>): (r: seq<U16>)
    ensures |r| == |s| && forall i :: 0 <= i < |s| ==> Signed16(r[i]) == s[i]
  {
    seq(|s|, i requires 0 <= i < |s| => Wrap16(s[i]))
  }

  /**
   Writes s2 only when the vector passes the acceptance test. The output may be the array that holds
   the message: it is read for the last time before anything is written.
   */
  method AcceptPoint(s2: array<U16>, hm: array<U16>, r0: seq<int>, r1: seq<int>, logn: nat) returns (ok: bool, s1: array<I16>)
    requires 1 <= logn <= 10 && hm.Length == |r0| == |r1| == s2.Length == Pow2(logn)
    modifies s2
    ensures ok <==> FirstHalfNorm(old(hm[..]), r0) + SquaredNorm(Narrowed(r1)) <= L2Bound(logn)
    ensures s2[..] == if ok then AsWords(Narrowed(r1)) else old(s2[..])
    ensures fresh(s1) && s1.Length == |r0| && forall i :: 0 <= i < |r0| ==> s1[i] == Signed16(old(hm[i]) - r0[i])
  {
    var sqn;
    s1, sqn := ComputeNorm(hm[..], r0);
    ghost var first := s1[..];
    var s2tmp := new I16[|r1|];
    var u := 0;
    while u < |r1|
      invariant u <= |r1| && s2[..] == old(s2[..]) && s1[..] == first
      invariant forall i :: 0 <= i < u ==> s2tmp[i] == Signed16(-r1[i])
    {
      s2tmp[u] := Signed16(-r1[u]);
      u := u + 1;
    }
    assert s2tmp[..] == Narrowed(r1);
    ok := IsShortHalf(sqn, s2tmp[..], logn, sqn);
    if ok { CopyFrom(s2, AsWords(s2tmp[..])); }
    assert forall i :: 0 <= i < |r0| ==> s1[i] == first[i];
  }

  /** The largest difference that cannot make the sum skip over bit 31; one more is possible for two coefficients. */
  function SquareLimit(logn: nat): int { if logn == 1 then 46341 else 46340 }

  ghost predicate Squarable(hm: seq<int>, r0: seq<int>, limit: int) {
    |hm| == |r0| && forall i :: 0 <= i < |hm| ==> -limit <= hm[i] - r0[i] <= limit
  }

  lemma SquareBelow(z: int, limit: int)
    requires -limit <= z <= limit
    ensures 0 <= z * z <= limit * limit
  {
    var y := Abs(z);
    assert z * z == y * y;
    MulLe(y, y, limit);
    MulLe(limit, y, limit);
  }

  /** A square below 2^31 is at most 46340^2. */
  lemma LargestSquare(z: int)
    requires z * z < 0x8000_0000
    ensures z * z <= 2147395600
  {
    var y := Abs(z);
    assert z * z == y * y;
    if y > 46340 { MulLe(46341, 46341, y); MulLe(y, 46341, y); } else { SquareBelow(z, 46340); }
  }

  lemma {:induction false} NormWordMeaning(hm: seq<int>, r0: seq<int>, u: nat, logn: nat)
    requires |hm| == Pow2(logn) && logn >= 1 && Squarable(hm, r0, SquareLimit(logn)) && u <= |hm|
    ensures var (s, ng) := NormWord(hm, r0, u);
      RunningSum(s, ng, SquaredNorm(Sub(hm, r0)[..u])) && (logn == 1 && u <= 1 && !ng ==> s <= 2147395600)
  {
    if u > 0 {
      hide RunningSum, Signed32, NextNorm, SquaredNorm;
      NormWordMeaning(hm, r0, u - 1, logn);
      var a := Sub(hm, r0);
      SquaredNormStep(a, u - 1);
      assert logn == 1 ==> |hm| == 2 by { assert Pow2(1) == 2; }
      NextNormMeaning(NormWord(hm, r0, u - 1), SquaredNorm(a[..u - 1]), a[u - 1]);
      if u == 1 { FirstNorm(hm, r0); }
    }
  }

  lemma FirstNorm(hm: seq<int>, r0: seq<int>)
    requires |hm| == |r0| >= 1 && -46341 <= hm[0] - r0[0] <= 46341
    ensures var (s, ng) := NormWord(hm, r0, 1); !ng ==> s <= 2147395600
  {
    var z := hm[0] - r0[0];
    SquareBelow(z, 46341);
    if z * z < 0x8000_0000 { LargestSquare(z); }
    FirstSum(z);
    assert NormWord(hm, r0, 0) == (0, false);
  }

  lemma FirstSum(z: int)
    requires -46341 <= z <= 46341 && 0 <= z * z < 0x1_0000_0000
    ensures NextNorm((0, false), Signed32(z)) == (z * z, z * z >= 0x8000_0000)
  {
    assert Signed32(z) == z;
  }

  lemma NextNormMeaning(sum: (U32, bool), total: nat, z: int)
    requires -46341 <= z <= 46341 && RunningSum(sum.0, sum.1, total)
    requires -46340 <= z <= 46340 || (!sum.1 ==> sum.0 <= 2147395600)
    ensures z * z >= 0
    ensures var next := NextNorm(sum, Signed32(z)); RunningSum(next.0, next.1, total + z * z)
  {
    assert Signed32(z) == z;
    if -46340 <= z <= 46340 { SquareBelow(z, 46340); } else { SquareBelow(z, 46341); }
    var w := z * z;
    assert NextNorm(sum, z) == (Wrap32(sum.0 + w), sum.1 || Wrap32(sum.0 + w) >= 0x8000_0000);
  }

  /** While no square can skip over bit 31, the acceptance test is the exact one over the integers. */
  lemma AcceptanceExact(hm: seq<int>, r0: seq<int>, s2: seq<int>, logn: nat)
    requires 1 <= logn <= 10 && |hm| == Pow2(logn) && Squarable(hm, r0, SquareLimit(logn))
    ensures FirstHalfNorm(hm, r0) + SquaredNorm(s2) <= L2Bound(logn) <==> Short(Sub(hm, r0), s2, logn)
  {
    NormWordMeaning(hm, r0, |hm|, logn);
    assert Sub(hm, r0)[..|hm|] == Sub(hm, r0);
  }

  /** The first coordinate of the lattice point with sampled coordinates z0 and z1: z0 * g + z1 * G. */
  ghost function LatticePoint(z0: Poly, z1: Poly, g: Poly, G: Poly): (r: Poly)
    requires |z0| == |z1| == |g| == |G| > 0
    ensures |r| == |g|
  {
    Add(Product(z0, g), Product(z1, G))
  }

  lemma PointValue(z0: Poly, z1: Poly, g: Poly, G: Poly, logn: nat, i: nat)
    requires logn <= 10 && |z0| == |z1| == |g| == |G| == Pow2(logn) && i < Pow2(logn)
    ensures var t := MqTables();
      Cong(Value(t, LatticePoint(z0, z1, g, G), logn, i),
           Value(t, z0, logn, i) * Value(t, g, logn, i) + Value(t, z1, logn, i) * Value(t, G, logn, i), 12289)
  {
    hide *;
    var t := MqTables();
    MqReady(logn);
    ModulusIsQ();
    var p, r := Product(z0, g), Product(z1, G);
    PointMeaning(z0, z1, g, G);
    ValueProduct(t, z0, g, logn, i);
    ValueProduct(t, z1, G, logn, i);
    ValueLinear(t, Add(p, r), p, 1, r, logn, i);
    SumScalar(Value(t, Add(p, r), logn, i), Value(t, p, logn, i), Value(t, r, logn, i),
              Value(t, z0, logn, i) * Value(t, g, logn, i), Value(t, z1, logn, i) * Value(t, G, logn, i));
  }

  lemma PointMeaning(z0: Poly, z1: Poly, g: Poly, G: Poly)
    requires |z0| == |z1| == |g| == |G| > 0
    ensures var p, r := Product(z0, g), Product(z1, G);
      LatticePoint(z0, z1, g, G) == Add(p, r) && forall j :: 0 <= j < |p| ==> Add(p, r)[j] == p[j] + 1 * r[j]
  {
    hide Product;
  }

  lemma SumScalar(d: int, vp: int, vr: int, wp: int, wr: int)
    requires Cong(d, vp + 1 * vr, 12289) && Cong(vp, wp, 12289) && Cong(vr, wr, 12289)
    ensures Cong(d, wp + wr, 12289)
  {
    hide *;
    CongAdd(vp, wp, vr, wr, 12289);
    assert vp + 1 * vr == vp + vr;
    CongTrans(d, vp + vr, wp + wr, 12289);
  }

  /** At one root: h = g / f and f * G = g * F carry (z0 * f + z1 * F) * h to z0 * g + z1 * G. */
  lemma LatticeScalar(f: int, g: int, F: int, G: int, h: int, z0: int, z1: int, s2: int, r0: int)
    requires f % 12289 != 0 && Cong(f * h, g, 12289) && Cong(f * G, g * F, 12289)
    requires Cong(s2, z0 * f + z1 * F, 12289) && Cong(r0, z0 * g + z1 * G, 12289)
    ensures Cong(s2 * h, r0, 12289)
  {
    hide *;
    CongScale(F, f * h, g, 12289);
    assert F * (f * h) == f * (F * h) by { MulAssoc(F, f, h); MulAssoc(f, F, h); assert F * f == f * F; }
    assert F * g == g * F;
    CongTrans(f * (F * h), g * F, f * G, 12289);
    CongSym(f * G, g * F, 12289);
    CongRefl(g * F, 12289);
    CancelValue(f, F * h, G, g * F);
    CongScale(z0, f * h, g, 12289);
    CongScale(z1, F * h, G, 12289);
    CongAdd(z0 * (f * h), z0 * g, z1 * (F * h), z1 * G, 12289);
    CongScale(h, s2, z0 * f + z1 * F, 12289);
    MulAdd(h, z0 * f, z1 * F);
    MulAssoc(z0, f, h);
    MulAssoc(z1, F, h);
    assert h * (z0 * f + z1 * F) == z0 * (f * h) + z1 * (F * h);
    assert h * s2 == s2 * h;
    CongTrans(s2 * h, z0 * (f * h) + z1 * (F * h), z0 * g + z1 * G, 12289);
    CongTrans(s2 * h, z0 * g + z1 * G, r0, 12289);
  }

  /** Every lattice point (r0, s2) satisfies s2 * h = r0 modulo q and X^n + 1. */
  lemma LatticePointQuotient(f: Poly, g: Poly, F: Poly, G: Poly, h: Poly, z0: Poly, z1: Poly, logn: nat)
    requires logn <= 10 && |f| == |g| == |F| == |G| == |h| == |z0| == |z1| == Pow2(logn)
    requires NonzeroEverywhere(f, logn) && IsQuotient(h, g, f) && Completes(G, f, g, F)
    ensures IsQuotient(h, LatticePoint(z0, z1, g, G), LatticePoint(z0, z1, f, F))
  {
    hide *;
    var t := MqTables();
    var r0, s2 := LatticePoint(z0, z1, g, G), LatticePoint(z0, z1, f, F);
    forall i | 0 <= i < Pow2(logn) ensures Cong(Value(t, s2, logn, i) * Value(t, h, logn, i), Value(t, r0, logn, i), 12289) {
      LatticeAtRoot(f, g, F, G, h, z0, z1, logn, i);
    }
    QuotientFromValues(h, r0, s2, logn);
  }

  lemma LatticeAtRoot(f: Poly, g: Poly, F: Poly, G: Poly, h: Poly, z0: Poly, z1: Poly, logn: nat, i: nat)
    requires logn <= 10 && |f| == |g| == |F| == |G| == |h| == |z0| == |z1| == Pow2(logn) && i < Pow2(logn)
    requires NonzeroEverywhere(f, logn) && IsQuotient(h, g, f) && Completes(G, f, g, F)
    ensures var t := MqTables();
      Cong(Value(t, LatticePoint(z0, z1, f, F), logn, i) * Value(t, h, logn, i), Value(t, LatticePoint(z0, z1, g, G), logn, i), 12289)
  {
    hide *;
    var t := MqTables();
    MqReady(logn);
    ModulusIsQ();
    RootFacts(f, g, F, G, logn, i);
    QuotientValue(h, g, f, logn, i);
    QuotientValue(G, Product(g, F), f, logn, i);
    ValueProduct(t, g, F, logn, i);
    PointValue(z0, z1, g, G, logn, i);
    PointValue(z0, z1, f, F, logn, i);
    CongTrans(Value(t, f, logn, i) * Value(t, G, logn, i), Value(t, Product(g, F), logn, i), Value(t, g, logn, i) * Value(t, F, logn, i), 12289);
    LatticeScalar(Value(t, f, logn, i), Value(t, g, logn, i), Value(t, F, logn, i), Value(t, G, logn, i), Value(t, h, logn, i), Value(t, z0, logn, i),
                  Value(t, z1, logn, i), Value(t, LatticePoint(z0, z1, f, F), logn, i), Value(t, LatticePoint(z0, z1, g, G), logn, i));
  }

  lemma RootFacts(f: Poly, g: Poly, F: Poly, G: Poly, logn: nat, i: nat)
    requires logn <= 10 && |f| == |g| == |F| == |G| == Pow2(logn) && i < Pow2(logn)
    requires NonzeroEverywhere(f, logn) && Completes(G, f, g, F)
    ensures Value(MqTables(), f, logn, i) % 12289 != 0 && IsQuotient(G, Product(g, F), f)
  {
    hide Value, MqTables, IsQuotient;
  }

  ghost predicate FitsI16(a: seq<int>) {
    forall i :: 0 <= i < |a| ==> -0x8000 <= a[i] < 0x8000
  }

  ghost function Negated(a: seq<int>): seq<int> {
    seq(|a|, i requires 0 <= i < |a| => -a[i])
  }

  // ---- When a lattice point is a valid signature ----

  /** What narrowing to 16 bits drops, in units of 2^16. */
  ghost function Carry(s2: Poly): (r: Poly)
    ensures |r| == |s2|
  {
    seq(|s2|, i requires 0 <= i < |s2| => (s2[i] - Signed16(s2[i])) / 0x1_0000)
  }

  /** The first half of the vector, centred modulo q. */
  ghost function CenteredDifference(r0: Poly, hm: Poly): (r: Poly)
    requires |r0| == |hm|
    ensures |r| == |r0|
  {
    seq(|r0|, i requires 0 <= i < |r0| => Centered(r0[i] - hm[i]))
  }

  /** The vector is short once its first half is centred: the signer can tell without the public key. */
  ghost predicate CentredShort(r0: Poly, hm: Poly, s2: Poly, logn: nat)
    requires 1 <= logn <= 10 && |r0| == |hm|
  {
    SquaredNorm(CenteredDifference(r0, hm)) + SquaredNorm(s2) <= L2Bound(logn)
  }

  lemma {:induction false} ProductSplit(a: Poly, b: Poly, k: Poly, c: int, h: Poly)
    requires |h| > 0 && |a| == |b| == |k| && forall i :: 0 <= i < |a| ==> a[i] == b[i] + c * k[i]
    ensures Product(b, h) == Sub(Product(a, h), Scale(c, Product(k, h)))
  {
    if |a| > 0 {
      ProductSplit(a[1..], b[1..], k[1..], c, h);
      hide *;
      var p, q, r := Product(a[1..], h), Product(b[1..], h), Product(k[1..], h);
      ProductHead(a, h);
      ProductHead(b, h);
      ProductHead(k, h);
      SplitSequences(Product(a, h), Product(b, h), Product(k, h), p, q, r, a[0], b[0], k[0], c, h);
    }
  }

  lemma ProductHead(a: Poly, h: Poly)
    requires |a| > 0 && |h| > 0
    ensures Product(a, h) == Add(Scale(a[0], h), TimesX(Product(a[1..], h)))
  {}

  lemma SplitSequences(a: Poly, b: Poly, k: Poly, p: Poly, q: Poly, r: Poly, a0: int, b0: int, k0: int, c: int, h: Poly)
    requires |a| == |b| == |k| == |p| == |q| == |r| == |h| > 0 && a0 == b0 + c * k0 && q == Sub(p, Scale(c, r))
    requires a == Add(Scale(a0, h), TimesX(p)) && b == Add(Scale(b0, h), TimesX(q)) && k == Add(Scale(k0, h), TimesX(r))
    ensures b == Sub(a, Scale(c, k))
  {
    forall i | 0 <= i < |h| ensures b[i] == Sub(a, Scale(c, k))[i] {
      ShiftedEntry(p, q, r, c, i);
      SplitEntry(a0, b0, k0, c, h[i], TimesX(p)[i], TimesX(q)[i], TimesX(r)[i]);
    }
  }

  lemma ShiftedEntry(p: Poly, q: Poly, r: Poly, c: int, i: nat)
    requires |p| == |q| == |r| && q == Sub(p, Scale(c, r)) && i < |p|
    ensures TimesX(q)[i] == TimesX(p)[i] - c * TimesX(r)[i]
  {
    var j := if i == 0 then |p| - 1 else i - 1;
    assert q[j] == p[j] - c * r[j];
    assert c * -r[j] == -(c * r[j]);
  }

  lemma SplitEntry(a: int, b: int, k: int, c: int, h: int, x: int, y: int, z: int)
    requires a == b + c * k && y == x - c * z
    ensures b * h + y == (a * h + x) - c * (k * h + z)
  {
    MulAdd(h, b, c * k);
    MulAssoc(c, k, h);
    MulAdd(c, k * h, z);
  }

  lemma CarrySplit(s2: Poly)
    ensures |Narrowed(Negated(s2))| == |s2|
    ensures forall i :: 0 <= i < |s2| ==> s2[i] == Narrowed(Negated(s2))[i] + 0x1_0000 * Carry(s2)[i]
  {
    forall i | 0 <= i < |s2| ensures s2[i] == Narrowed(Negated(s2))[i] + 0x1_0000 * Carry(s2)[i] {
      assert Negated(s2)[i] == -s2[i];
      NarrowParts(s2[i]);
    }
  }

  lemma NarrowParts(x: int)
    ensures x == Signed16(x) + 0x1_0000 * ((x - Signed16(x)) / 0x1_0000)
  {}

  /**
   For every key, every sampled coordinates and every message, the narrowed lattice point is a valid
   signature exactly if its centred first half, corrected by what the narrowing dropped, and its
   second half are short.
   */
  lemma VerdictOfPoint(f: Poly, g: Poly, F: Poly, G: Poly, h: Poly, z0: Poly, z1: Poly, hm: Poly, logn: nat)
    requires 1 <= logn <= 10 && |f| == |g| == |F| == |G| == |h| == |z0| == |z1| == |hm| == Pow2(logn)
    requires NonzeroEverywhere(f, logn) && IsQuotient(h, g, f) && Completes(G, f, g, F)
    ensures var r0, s2 := LatticePoint(z0, z1, g, G), LatticePoint(z0, z1, f, F);
      var t := Narrowed(Negated(s2));
      Valid(hm, t, h, logn) <==> CentredShort(Sub(r0, Scale(0x1_0000, Product(Carry(s2), h))), hm, t, logn)
  {
    hide LatticePoint, IsQuotient, SquaredNorm, NonzeroEverywhere, Completes, Product, Centered, Carry, Narrowed, Negated;
    var r0, s2 := LatticePoint(z0, z1, g, G), LatticePoint(z0, z1, f, F);
    var t, k := Narrowed(Negated(s2)), Carry(s2);
    LatticePointQuotient(f, g, F, G, h, z0, z1, logn);
    CarrySplit(s2);
    ProductSplit(s2, t, k, 0x1_0000, h);
    var r := Sub(r0, Scale(0x1_0000, Product(k, h)));
    forall i | 0 <= i < |hm| ensures NegatedS1(hm, t, h)[i] == CenteredDifference(r, hm)[i] {
      QuotientEntry(h, r0, s2, i);
      SameCentred(Product(s2, h)[i], r0[i], 0x1_0000 * Product(k, h)[i], hm[i]);
    }
    assert NegatedS1(hm, t, h) == CenteredDifference(r, hm);
  }

  lemma SameCentred(p: int, r: int, c: int, m: int)
    requires Cong(p, r, 12289)
    ensures Centered((p - c) - m) == Centered((r - c) - m)
  {
    hide *;
    CongRefl(c + m, 12289);
    CongSub(p, r, c + m, c + m, 12289);
    CenteredUnique((p - c) - m, (r - c) - m);
  }

  lemma {:induction false} ProductOfZeros(a: Poly, h: Poly)
    requires |h| > 0 && forall i :: 0 <= i < |a| ==> a[i] == 0
    ensures Product(a, h) == Zeros(|h|)
  {
    if |a| > 0 {
      ProductOfZeros(a[1..], h);
      assert forall i :: 0 <= i < |h| ==> Scale(0, h)[i] == 0;
    }
  }

  lemma NothingDropped(s2: Poly)
    requires FitsI16(s2)
    ensures Narrowed(Negated(s2)) == s2 && forall i :: 0 <= i < |s2| ==> Carry(s2)[i] == 0
  {
    forall i | 0 <= i < |s2| ensures Narrowed(Negated(s2))[i] == s2[i] && Carry(s2)[i] == 0 {
      assert Negated(s2)[i] == -s2[i] && Signed16(s2[i]) == s2[i];
    }
  }

  /**
   A lattice point whose second half fits 16 bits is a valid signature exactly if it is short with its
   first half centred modulo q. In particular an accepted point is valid exactly under that test.
   */
  lemma AcceptedExactly(f: Poly, g: Poly, F: Poly, G: Poly, h: Poly, z0: Poly, z1: Poly, hm: Poly, logn: nat)
    requires 1 <= logn <= 10 && |f| == |g| == |F| == |G| == |h| == |z0| == |z1| == |hm| == Pow2(logn)
    requires NonzeroEverywhere(f, logn) && IsQuotient(h, g, f) && Completes(G, f, g, F)
    requires FitsI16(LatticePoint(z0, z1, f, F))
    ensures var r0, s2 := LatticePoint(z0, z1, g, G), LatticePoint(z0, z1, f, F);
      Narrowed(Negated(s2)) == s2 && (Valid(hm, s2, h, logn) <==> CentredShort(r0, hm, s2, logn))
  {
    hide LatticePoint, IsQuotient, NonzeroEverywhere, Completes, Product, CentredShort, Carry, Narrowed, Negated, Valid;
    var r0, s2 := LatticePoint(z0, z1, g, G), LatticePoint(z0, z1, f, F);
    NothingDropped(s2);
    ProductOfZeros(Carry(s2), h);
    assert Sub(r0, Scale(0x1_0000, Zeros(|h|))) == r0;
    VerdictOfPoint(f, g, F, G, h, z0, z1, hm, logn);
  }

  /**
   Signing implies verifying: whatever integers the sampler returned, an accepted lattice point
   whose second half fits 16 bits and whose first half is within the limit is a valid
   signature under the public key g / f.
   */
  lemma SigningImpliesVerifying(f: Poly, g: Poly, F: Poly, G: Poly, h: Poly, z0: Poly, z1: Poly, hm: Poly, logn: nat)
    requires 1 <= logn <= 10 && |f| == |g| == |F| == |G| == |h| == |z0| == |z1| == |hm| == Pow2(logn)
    requires NonzeroEverywhere(f, logn) && IsQuotient(h, g, f) && Completes(G, f, g, F)
    requires var r0, s2 := LatticePoint(z0, z1, g, G), LatticePoint(z0, z1, f, F);
      && Squarable(hm, r0, SquareLimit(logn)) && FitsI16(s2)
      && FirstHalfNorm(hm, r0) + SquaredNorm(Narrowed(Negated(s2))) <= L2Bound(logn)
    ensures Valid(hm, Narrowed(Negated(LatticePoint(z0, z1, f, F))), h, logn)
  {
    hide LatticePoint, IsQuotient, SquaredNorm, FirstHalfNorm, NonzeroEverywhere, Completes, Valid, Narrowed, Negated, Centered;
    var r0, s2 := LatticePoint(z0, z1, g, G), LatticePoint(z0, z1, f, F);
    AcceptedExactly(f, g, F, G, h, z0, z1, hm, logn);
    AcceptanceExact(hm, r0, s2, logn);
    var c, d := CenteredDifference(r0, hm), Sub(hm, r0);
    forall i | 0 <= i < |c| ensures c[i] * c[i] <= d[i] * d[i] {
      CenteredMeaning(r0[i] - hm[i]);
      SquareOfOpposite(r0[i] - hm[i], d[i]);
    }
    NormMonotone(c, d);
  }

  lemma SquareOfOpposite(x: int, y: int)
    requires x == -y
    ensures x * x == y * y
  {}
}
