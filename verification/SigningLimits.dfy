/** Why signing needs its bounds: accepted lattice points, at every degree, that are not valid signatures. */
module SigningLimits {
  import opened Words
  import opened Residues
  import opened Polynomials
  import opened Convolution
  import opened MqTransform
  import opened MqPoly
  import opened Norms
  import opened Rounding
  import opened Division
  import opened Verify
  import opened Completion
  import opened NtruCheck
  import opened Signing

  /** The words of the inverse standard deviations, by the logarithm of the degree. */
  const INV_SIGMA: seq<U64> :=
    [0, 4574611497772390042, 4574501679055810265, 4574396282908341804, 4574245855758572086, 4574103865040221165,
     4573969550563515544, 4573842244705920822, 4573721358406441454, 4573606369665796042, 4573496814039276259]

  /** l is the floor of (1.1 * sigma)^2 * 2n, where w is the binary64 word of 1 / sigma. */
  ghost predicate FloorOfBound(l: nat, w: U64, n: nat) {
    var m := SignificandOf(w);
    && Normal(w) && SignOf(w) == 0 && PowerOf(w) == -60
    && 100 * l * m * m <= 121 * 2 * n * 0x1000000000000000000000000000000 < 100 * (l + 1) * m * m
  }

  /** The acceptance bound is (1.1 * sigma)^2 * 2n, rounded down, for the standard deviation of the degree. */
  lemma BoundFromSigma(logn: nat)
    requires 1 <= logn <= 10
    ensures FloorOfBound(L2Bound(logn), INV_SIGMA[logn], Pow2(logn))
  {
    hide Pow2, FloorOfBound;
    Pow2Values();
    Bounds2And4();
    Bounds8And16();
    Bounds32And64();
    Bounds128And256();
    Bounds512And1024();
  }

  lemma Bounds2And4()
    ensures FloorOfBound(101498, 4574611497772390042, 2)
    ensures FloorOfBound(208714, 4574501679055810265, 4)
  {}

  lemma Bounds8And16()
    ensures FloorOfBound(428865, 4574396282908341804, 8)
    ensures FloorOfBound(892039, 4574245855758572086, 16)
  {}

  lemma Bounds32And64()
    ensures FloorOfBound(1852696, 4574103865040221165, 32)
    ensures FloorOfBound(3842630, 4573969550563515544, 64)
  {}

  lemma Bounds128And256()
    ensures FloorOfBound(7959734, 4573842244705920822, 128)
    ensures FloorOfBound(16468416, 4573721358406441454, 256)
  {}

  lemma Bounds512And1024()
    ensures FloorOfBound(34034726, 4573606369665796042, 512)
    ensures FloorOfBound(70265242, 4573496814039276259, 1024)
  {}

  function Constant(c: int, n: nat): (r: Poly)
    requires n > 0
    ensures |r| == n
  {
    [c] + Zeros(n - 1)
  }

  /** Multiplying by a constant scales. */
  lemma {:induction false} ProductConstant(a: Poly, c: int, n: nat)
    requires 0 < n && |a| <= n
    ensures Product(a, Constant(c, n)) == Scale(c, a) + Zeros(n - |a|)
  {
    if |a| == 0 {
      assert Scale(c, a) == [];
    } else {
      ProductConstant(a[1..], c, n);
      var p := Product(a[1..], Constant(c, n));
      assert p == Scale(c, a[1..]) + Zeros(n - |a| + 1) && p[n - 1] == 0;
      forall i | 0 <= i < n ensures Product(a, Constant(c, n))[i] == (Scale(c, a) + Zeros(n - |a|))[i] {
        assert a[0] * c == c * a[0];
        assert TimesX(p)[i] == if i == 0 then 0 else if i < |a| then c * a[i] else 0;
      }
    }
  }

  /** The key of the examples: f = 127, g = 5, F = 6 and G = 97, with f * G - g * F = 12289. */
  lemma ExampleKey(logn: nat)
    requires 1 <= logn <= 10
    ensures Pow2(logn) >= 2
    ensures var n := Pow2(logn);
      NonzeroEverywhere(Constant(127, n), logn) && Completes(Constant(97, n), Constant(127, n), Constant(5, n), Constant(6, n))
  {
    hide *;
    AtLeastTwo(logn);
    var n := Pow2(logn);
    ConstantProducts(n);
    forall i | 0 <= i < n ensures Value(MqTables(), Constant(127, n), logn, i) == 127 { ConstantAtRoot(logn, i); }
    KeyFromValues(logn);
  }

  lemma AtLeastTwo(logn: nat)
    requires logn >= 1
    ensures Pow2(logn) >= 2
  {}

  lemma ConstantAtRoot(logn: nat, i: nat)
    requires i < Pow2(logn)
    ensures Value(MqTables(), Constant(127, Pow2(logn)), logn, i) == 127
  {
    hide Value, MqTables;
    ConstantValue(MqTables(), 127, logn, i);
  }

  lemma KeyFromValues(logn: nat)
    requires logn <= 10 && forall i :: 0 <= i < Pow2(logn) ==> Value(MqTables(), Constant(127, Pow2(logn)), logn, i) == 127
    ensures NonzeroEverywhere(Constant(127, Pow2(logn)), logn)
  {
    hide Value, MqTables, Constant;
  }

  lemma ConstantProducts(n: nat)
    requires n > 0
    ensures Completes(Constant(97, n), Constant(127, n), Constant(5, n), Constant(6, n))
  {
    ProductConstant(Constant(127, n), 97, n);
    ProductConstant(Constant(5, n), 6, n);
    hide Product;
    assert Reduce(Product(Constant(127, n), Constant(97, n)), 12289) == Reduce(Product(Constant(5, n), Constant(6, n)), 12289);
  }

  lemma ExamplePoint(z0: Poly, z1: Poly, a: int, b: int, n: nat)
    requires |z0| == |z1| == n > 0
    ensures LatticePoint(z0, z1, Constant(a, n), Constant(b, n)) == Add(Scale(a, z0), Scale(b, z1))
  {
    ProductConstant(z0, a, n);
    ProductConstant(z1, b, n);
    hide Product;
  }

  lemma ScaledSum(w: Poly, a: int, b: int, c: int, d: int, e: int)
    requires a * b + c * d == e
    ensures Add(Scale(a, Scale(b, w)), Scale(c, Scale(d, w))) == Scale(e, w)
  {
    forall i | 0 <= i < |w| ensures a * (b * w[i]) + c * (d * w[i]) == e * w[i] {
      MulAssoc(a, b, w[i]);
      MulAssoc(c, d, w[i]);
      MulAdd(w[i], a * b, c * d);
    }
  }

  /** The point of the example key with coordinates b * w and d * w. */
  lemma PointOnKey(w: Poly, b: int, d: int, r: int, s: int)
    requires |w| > 0 && 5 * b + 97 * d == r && 127 * b + 6 * d == s
    ensures var n := |w|;
      && LatticePoint(Scale(b, w), Scale(d, w), Constant(5, n), Constant(97, n)) == Scale(r, w)
      && LatticePoint(Scale(b, w), Scale(d, w), Constant(127, n), Constant(6, n)) == Scale(s, w)
  {
    hide *;
    ExamplePoint(Scale(b, w), Scale(d, w), 5, 97, |w|);
    ExamplePoint(Scale(b, w), Scale(d, w), 127, 6, |w|);
    ScaledSum(w, 5, b, 97, d, r);
    ScaledSum(w, 127, b, 6, d, s);
  }

  /** Zero differences leave the sum alone. */
  lemma {:induction false} NormWordTail(hm: seq<int>, r0: seq<int>, k: nat, u: nat, s: U32)
    requires k <= u <= |hm| == |r0| && (forall i :: k <= i < |hm| ==> hm[i] == r0[i])
    requires NormWord(hm, r0, k) == (s, false) && s < 0x8000_0000
    ensures NormWord(hm, r0, u) == (s, false)
  {
    if u > k {
      NormWordTail(hm, r0, k, u - 1, s);
      NextIs(s, 0, s);
      hide NextNorm, Signed32;
      assert hm[u - 1] - r0[u - 1] == 0;
    }
  }

  lemma {:induction false} NormOfPrefix(a: seq<int>, k: nat)
    requires k <= |a|
    ensures SquaredNorm(a[..k]) <= SquaredNorm(a)
  {
    if k < |a| {
      NormOfPrefix(a[..|a| - 1], k);
      assert a[..|a| - 1][..k] == a[..k];
      SquareNonnegative(a[|a| - 1]);
    } else {
      assert a[..k] == a;
    }
  }

  /** The zero vector is not a valid second half for a message whose first coordinates are not small. */
  lemma ZeroIsInvalid(hm: Poly, h: Poly, first: Poly, logn: nat)
    requires 1 <= logn <= 10 && |hm| == |h| == Pow2(logn) && |first| <= |hm|
    requires forall i :: 0 <= i < |first| ==> Centered(-hm[i]) == first[i]
    requires SquaredNorm(first) > L2Bound(logn)
    ensures !Valid(hm, Zeros(Pow2(logn)), h, logn)
  {
    hide SquaredNorm, Product, Centered;
    ProductOfZeros(Zeros(Pow2(logn)), h);
    var t: Poly := NegatedS1(hm, Zeros(Pow2(logn)), h);
    assert t[..|first|] == first;
    NormOfPrefix(t, |first|);
  }

  /** The multiples of q and the remainders that make up the differences. */
  function MultiplesOfQ(logn: nat): Poly { if logn == 1 then [3, 3] else [3, 1, 0, 3] }
  function RemaindersOfQ(logn: nat): Poly { if logn == 1 then [9473, 9475] else [6144, 4959, 200, 9474] }

  /** The message, and a point with second half zero, for which the differences are at most one over the limit. */
  function LimitMessage(logn: nat): (r: Poly)
    requires 1 <= logn <= 10
    ensures |r| == Pow2(logn)
  {
    FourFit(logn);
    RemaindersOfQ(logn) + Zeros(Pow2(logn) - |RemaindersOfQ(logn)|)
  }

  function LimitMultiples(logn: nat): (r: Poly)
    requires 1 <= logn <= 10
    ensures |r| == Pow2(logn)
  {
    FourFit(logn);
    MultiplesOfQ(logn) + Zeros(Pow2(logn) - |MultiplesOfQ(logn)|)
  }

  lemma FourFit(logn: nat)
    requires 1 <= logn <= 10
    ensures Pow2(logn) >= |MultiplesOfQ(logn)| == |RemaindersOfQ(logn)| >= 2
  {
    assert Pow2(1) == 2 && Pow2(2) == 4;
    if logn >= 2 { Pow2Monotone(2, logn); }
  }

  /**
   The limit on the first half is sharp at every degree: with differences of at most one more, this
   key and these sampled integers give an accepted point with second half zero, and it is not a valid
   signature under any key.
   */
  lemma OverflowingPointFails(logn: nat) returns (f: Poly, g: Poly, F: Poly, G: Poly, z0: Poly, z1: Poly, hm: Poly)
    requires 1 <= logn <= 10
    ensures |f| == |g| == |F| == |G| == |z0| == |z1| == |hm| == Pow2(logn)
    ensures NonzeroEverywhere(f, logn) && Completes(G, f, g, F) && Canonical(hm, 12289)
    ensures var r0, s2 := LatticePoint(z0, z1, g, G), LatticePoint(z0, z1, f, F);
      && FitsI16(s2) && Squarable(hm, r0, SquareLimit(logn) + 1)
      && FirstHalfNorm(hm, r0) + SquaredNorm(Narrowed(Negated(s2))) <= L2Bound(logn)
      && forall h: Poly :: |h| == |hm| ==> !Valid(hm, Narrowed(Negated(s2)), h, logn)
  {
    hide *;
    var n := Pow2(logn);
    ExampleKey(logn);
    f, g, F, G := Constant(127, n), Constant(5, n), Constant(6, n), Constant(97, n);
    var w := LimitMultiples(logn);
    hm, z0, z1 := LimitMessage(logn), Scale(6, w), Scale(-127, w);
    hide *;
    PointOnKey(w, 6, -127, -12289, 0);
    MessageRange(logn);
    ScaleZero(w);
    LimitVerdict(logn, LatticePoint(z0, z1, g, G), LatticePoint(z0, z1, f, F));
  }

  lemma LimitVerdict(logn: nat, r0: Poly, s2: Poly)
    requires 1 <= logn <= 10 && r0 == Scale(-12289, LimitMultiples(logn)) && s2 == Zeros(Pow2(logn))
    ensures FitsI16(s2) && Squarable(LimitMessage(logn), r0, SquareLimit(logn) + 1)
    ensures FirstHalfNorm(LimitMessage(logn), r0) + SquaredNorm(Narrowed(Negated(s2))) <= L2Bound(logn)
    ensures forall h: Poly :: |h| == Pow2(logn) ==> !Valid(LimitMessage(logn), Narrowed(Negated(s2)), h, logn)
  {
    hide *;
    ZerosFit(Pow2(logn));
    NothingDropped(s2);
    NormOfZeros(Pow2(logn));
    LimitNorm(logn, LimitMessage(logn), r0);
    forall h: Poly | |h| == Pow2(logn) ensures !Valid(LimitMessage(logn), Narrowed(Negated(s2)), h, logn) {
      LimitInvalid(logn, h);
    }
  }

  lemma ScaleZero(w: Poly)
    ensures Scale(0, w) == Zeros(|w|)
  {}

  lemma ZerosFit(n: nat)
    ensures FitsI16(Zeros(n))
  {}

  lemma MessageRange(logn: nat)
    requires 1 <= logn <= 10
    ensures Canonical(LimitMessage(logn), 12289)
  {}

  lemma NarrowedOnes(n: nat)
    requires n > 0
    ensures Canonical(Scale(6741, Ones(n)), 12289) && !FitsI16(Scale(0x1_0000, Ones(n)))
    ensures Narrowed(Negated(Scale(0x1_0000, Ones(n)))) == Zeros(n)
  {
    var s2 := Scale(0x1_0000, Ones(n));
    assert s2[0] == 0x1_0000;
    assert forall i :: 0 <= i < n ==> Negated(s2)[i] == -0x1_0000;
  }

  lemma {:induction false} NormOfZeros(n: nat)
    ensures SquaredNorm(Zeros(n)) == 0
  {
    if n > 0 {
      NormOfZeros(n - 1);
      assert Zeros(n)[..n - 1] == Zeros(n - 1);
    }
  }

  /** The sum of the squares has wrapped around to a small word, and bit 31 was never set. */
  lemma LimitNorm(logn: nat, hm: Poly, r0: Poly)
    requires 1 <= logn <= 10 && hm == LimitMessage(logn) && r0 == Scale(-12289, LimitMultiples(logn))
    ensures FirstHalfNorm(hm, r0) <= 9268 <= L2Bound(logn) && Squarable(hm, r0, SquareLimit(logn) + 1)
  {
    FourFit(logn);
    var n := Pow2(logn);
    hide NextNorm, Signed32, Pow2;
    assert NormWord(hm, r0, 0) == (0, false);
    if logn == 1 {
      assert hm[0] - r0[0] == 46340 && hm[1] - r0[1] == 46342;
      NextIs(0, 46340, 2147395600);
      NextIs(2147395600, 46342, 9268);
      assert NormWord(hm, r0, 1) == (2147395600, false);
      assert NormWord(hm, r0, 2) == (9268, false);
      NormWordTail(hm, r0, 2, n, 9268);
    } else {
      assert hm[0] - r0[0] == 43011 && hm[1] - r0[1] == 17248 && hm[2] - r0[2] == 200 && hm[3] - r0[3] == 46341;
      NextIs(0, 43011, 1849946121);
      NextIs(1849946121, 17248, 2147439625);
      NextIs(2147439625, 200, 2147479625);
      NextIs(2147479625, 46341, 610);
      assert NormWord(hm, r0, 1) == (1849946121, false);
      assert NormWord(hm, r0, 2) == (2147439625, false);
      assert NormWord(hm, r0, 3) == (2147479625, false);
      assert NormWord(hm, r0, 4) == (610, false);
      NormWordTail(hm, r0, 4, n, 610);
    }
  }

  lemma NextIs(s: U32, z: int, t: U32)
    requires t == (s + z * z) % 0x1_0000_0000 && t < 0x8000_0000 && -46342 <= z <= 46342
    ensures NextNorm((s, false), Signed32(z)) == (t, false)
  {
    assert Signed32(z) == z;
  }

  lemma LimitInvalid(logn: nat, h: Poly)
    requires 1 <= logn <= 10 && |h| == Pow2(logn)
    ensures !Valid(LimitMessage(logn), Zeros(Pow2(logn)), h, logn)
  {
    FourFit(logn);
    hide SquaredNorm, Valid, Pow2;
    if logn == 1 {
      NormOfTwo(2816, 2814);
      ZeroIsInvalid(LimitMessage(logn), h, [2816, 2814], logn);
    } else {
      NormOfFour(-6144, -4959, -200, 2815);
      ZeroIsInvalid(LimitMessage(logn), h, [-6144, -4959, -200, 2815], logn);
    }
  }

  lemma NormOfTwo(a: int, b: int)
    ensures SquaredNorm([a, b]) == a * a + b * b
  {
    assert [a, b][..1] == [a] && [a][..0] == [];
    assert SquaredNorm([a]) == a * a;
  }

  lemma NormOfFour(a: int, b: int, c: int, d: int)
    ensures SquaredNorm([a, b, c, d]) == a * a + b * b + c * c + d * d
  {
    NormOfTwo(a, b);
    assert [a, b, c, d][..3] == [a, b, c] && [a, b, c][..2] == [a, b];
    assert SquaredNorm([a, b, c]) == SquaredNorm([a, b]) + c * c;
  }

  function Ones(n: nat): (r: Poly)
    ensures |r| == n
  {
    seq(n, i => 1)
  }

  /**
   The second half has to fit 16 bits, at every degree: this point has first half zero and a second
   half of multiples of 2^16, so it is narrowed to zero and accepted, and it is not valid under any key.
   */
  lemma NarrowedPointFails(logn: nat) returns (f: Poly, g: Poly, F: Poly, G: Poly, z0: Poly, z1: Poly, hm: Poly)
    requires 1 <= logn <= 10
    ensures |f| == |g| == |F| == |G| == |z0| == |z1| == |hm| == Pow2(logn)
    ensures NonzeroEverywhere(f, logn) && Completes(G, f, g, F) && Canonical(hm, 12289)
    ensures var r0, s2 := LatticePoint(z0, z1, g, G), LatticePoint(z0, z1, f, F);
      && r0 == hm && !FitsI16(s2)
      && FirstHalfNorm(hm, r0) + SquaredNorm(Narrowed(Negated(s2))) <= L2Bound(logn)
      && forall h: Poly :: |h| == |hm| ==> !Valid(hm, Narrowed(Negated(s2)), h, logn)
  {
    hide *;
    var n := Pow2(logn);
    ExampleKey(logn);
    f, g, F, G := Constant(127, n), Constant(5, n), Constant(6, n), Constant(97, n);
    var w := Ones(n);
    hm, z0, z1 := Scale(6741, w), Scale(514, w), Scale(43, w);
    PointOnKey(w, 514, 43, 6741, 0x1_0000);
    var s2 := LatticePoint(z0, z1, f, F);
    NarrowedOnes(n);
    NormOfZeros(n);
    EqualNorm(hm, logn);
    forall h: Poly | |h| == |hm| ensures !Valid(hm, Narrowed(Negated(s2)), h, logn) {
      OnesInvalid(logn, h);
    }
  }

  lemma EqualNorm(hm: Poly, logn: nat)
    requires 1 <= logn <= 10
    ensures FirstHalfNorm(hm, hm) == 0 <= L2Bound(logn)
  {
    assert NormWord(hm, hm, 0) == (0, false);
    NormWordTail(hm, hm, 0, |hm|, 0);
  }

  lemma OnesInvalid(logn: nat, h: Poly)
    requires 1 <= logn <= 10 && |h| == Pow2(logn)
    ensures !Valid(Scale(6741, Ones(Pow2(logn))), Zeros(Pow2(logn)), h, logn)
  {
    FourFit(logn);
    hide SquaredNorm, Valid, Pow2;
    var hm := Scale(6741, Ones(Pow2(logn)));
    if logn == 1 {
      NormOfTwo(5548, 5548);
      ZeroIsInvalid(hm, h, [5548, 5548], logn);
    } else {
      NormOfFour(5548, 5548, 5548, 5548);
      ZeroIsInvalid(hm, h, [5548, 5548, 5548, 5548], logn);
    }
  }
}
