/** Public-key recovery from a signature, and its agreement with verification, as in crypto/vrfy.c. */
module Recovery {
  import opened Words
  import opened Residues
  import opened Polynomials
  import opened NttTree
  import opened Convolution
  import opened Mq
  import opened MqDivision
  import opened MqTransform
  import opened MqInverse
  import opened MqPoly
  import opened Division
  import opened Norms
  import opened Verify
  import opened Keys

  ghost predicate BelowQ(s: seq<I16>) {
    forall i :: 0 <= i < |s| ==> -12289 < s[i] < 12289
  }

  /** The vector (s1, s2) passes the acceptance test. */
  ghost predicate Short(s1: seq<int>, s2: seq<int>, logn: nat)
    requires 1 <= logn <= 10
  {
    SquaredNorm(s1) + SquaredNorm(s2) <= L2Bound(logn)
  }

  /** Decides whether s2 is invertible, for every s2 in the range of residues. */
  method IsInvertible(s2: seq<I16>, logn: nat) returns (ok: bool)
    requires 1 <= logn <= 10 && |s2| == Pow2(logn)
    ensures BelowQ(s2) ==> (ok <==> NonzeroEverywhere(s2, logn))
  {
    hide Forward, MqTables, NonzeroEverywhere, Reduce;
    ModulusIsQ();
    var tt := ReduceSmall(s2);
    MqNtt(tt, logn);
    var borrow := false;
    var u := 0;
    while u < Pow2(logn)
      invariant u <= Pow2(logn)
      invariant borrow <==> exists i :: 0 <= i < u && tt[i] == 0
    {
      borrow := borrow || Top32(Wrap32(tt[u] as int - 1)) == 1;
      u := u + 1;
    }
    ok := !borrow;
    if BelowQ(s2) { TransformNonzero(s2, tt[..], logn); }
  }

  /** Subtraction of a small signed vector from reduced words. */
  method SubtractSmall(h: array<U16>, c0: seq<U16>, s1: seq<I16>)
    requires h.Length == |c0| == |s1|
    modifies h
    ensures Canonical(c0, 12289) && BelowQ(s1) ==> h[..] == Reduce(Sub(c0, s1), 12289) && Canonical(h[..], 12289)
  {
    hide MqSub, Wrap16, SmallWord;
    var u := 0;
    while u < |c0|
      invariant u <= |c0|
      invariant forall x :: 0 <= x < u ==> h[x] == Wrap16(MqSub(c0[x], SmallWord(s1[x])))
    {
      h[u] := Wrap16(MqSub(c0[u], SmallWord(s1[u])));
      u := u + 1;
    }
    if Canonical(c0, 12289) && BelowQ(s1) { DifferenceWords(c0, s1, h[..]); }
  }

  lemma DifferenceWords(c0: seq<U16>, s1: seq<I16>, h: seq<U16>)
    requires |h| == |c0| == |s1| && Canonical(c0, 12289) && BelowQ(s1)
    requires forall x :: 0 <= x < |h| ==> h[x] == Wrap16(MqSub(c0[x], SmallWord(s1[x])))
    ensures h == Reduce(Sub(c0, s1), 12289) && Canonical(h, 12289)
  {
    hide SmallWord, MqSub, Wrap16;
    forall x | 0 <= x < |h| ensures h[x] == (c0[x] - s1[x]) % 12289 {
      DifferenceWord(c0[x], s1[x]);
    }
  }

  lemma DifferenceWord(c: U16, x: I16)
    requires c < 12289 && -12289 < x < 12289
    ensures Wrap16(MqSub(c, SmallWord(x))) == (c - x) % 12289
  {
    hide SmallWord, MqSub;
    SmallWordMeaning(x);
    ModOfSum(c, x, 12289);
  }

  /** The division loop that does not stop at zero divisors but remembers them. */
  method DivideAll(h: array<U16>, d: seq<U16>) returns (borrow: bool)
    requires h.Length == |d|
    modifies h
    ensures borrow <==> exists i :: 0 <= i < |d| && d[i] == 0
    ensures Quotients(h[..], old(h[..]), d)
  {
    hide MqDiv;
    ghost var h0 := h[..];
    borrow := false;
    var u := 0;
    while u < |d|
      invariant u <= |d|
      invariant borrow <==> exists i :: 0 <= i < u && d[i] == 0
      invariant forall i :: 0 <= i < u ==> h[i] == Wrap16(MqDiv(h0[i], d[i]))
      invariant forall i :: u <= i < |d| ==> h[i] == h0[i]
    {
      borrow := borrow || Top32(Wrap32(d[u] as int - 1)) == 1;
      h[u] := Wrap16(MqDiv(h[u], d[u]));
      u := u + 1;
    }
  }

  /**
   Recovers the public key h = (c0 - s1) / s2. It succeeds exactly when (s1, s2) is short
   and s2 is invertible, for every pair of signed 16-bit vectors.
   */
  method VerifyRecover(h: array<U16>, c0: seq<U16>, s1: seq<I16>, s2: seq<I16>, logn: nat) returns (ok: bool)
    requires 1 <= logn <= 10 && |c0| == |s1| == |s2| == h.Length == Pow2(logn) && Canonical(c0, 12289)
    modifies h
    ensures ok <==> Short(s1, s2, logn) && NonzeroEverywhere(s2, logn)
    ensures ok ==> Canonical(h[..], 12289) && IsQuotient(h[..], Sub(c0, s1), s2)
  {
    hide Forward, MqTables, NonzeroEverywhere, IsQuotient, MqDiv, Reduce, Backward, InvN, Quotients, SquaredNorm;
    ModulusIsQ();
    var tt := ReduceSmall(s2);
    SubtractSmall(h, c0, s1);
    MqNtt(tt, logn);
    MqNtt(h, logn);
    ghost var e := h[..];
    var borrow := DivideAll(h, tt[..]);
    ghost var v := h[..];
    MqIntt(h, logn);
    var short := IsShort(s1, s2, logn);
    ok := !borrow && short;
    if BelowQ(s1) && BelowQ(s2) {
      TransformNonzero(s2, tt[..], logn);
      if ok { DivideTransforms(s2, Sub(c0, s1), tt[..], e, v, logn); }
    } else if BelowQ(s1) {
      TooLong(s2, logn);
    } else {
      TooLong(s1, logn);
    }
  }

  lemma QuotientEntry(h: Poly, g: Poly, f: Poly, i: nat)
    requires |f| == |g| == |h| > 0 && IsQuotient(h, g, f) && i < |h|
    ensures Cong(Product(f, h)[i], g[i], 12289)
  {
    hide Product;
    assert Reduce(Product(f, h), 12289)[i] == Reduce(g, 12289)[i];
  }

  lemma CenteredNegate(x: int)
    ensures Centered(-x) == -Centered(x)
  {
    var k, r := x / 12289, x % 12289;
    assert x == k * 12289 + r;
    RemainderUnique(-x, if r == 0 then -k else -k - 1, if r == 0 then 0 else 12289 - r, 12289);
  }

  /** A recovered key makes the signature valid. */
  lemma RecoveredKeyVerifies(c0: Poly, s1: Poly, s2: Poly, h: Poly, logn: nat)
    requires 1 <= logn <= 10 && |c0| == |s1| == |s2| == |h| == Pow2(logn)
    requires Short(s1, s2, logn) && IsQuotient(h, Sub(c0, s1), s2)
    ensures Valid(c0, s2, h, logn)
  {
    hide IsQuotient, Product, Centered, SquaredNorm;
    var t := NegatedS1(c0, s2, h);
    forall i | 0 <= i < |t| ensures t[i] * t[i] <= s1[i] * s1[i] {
      QuotientEntry(h, Sub(c0, s1), s2, i);
      CongRefl(c0[i], 12289);
      CongSub(Product(s2, h)[i], c0[i] - s1[i], c0[i], c0[i], 12289);
      CenteredUnique(Product(s2, h)[i] - c0[i], -s1[i]);
      CenteredMeaning(-s1[i]);
      assert (-s1[i]) * (-s1[i]) == s1[i] * s1[i];
    }
    NormMonotone(t, s1);
  }

  /** The first half of a signature vector, as verification computes it. */
  ghost function CenteredS1(c0: Poly, s2: Poly, h: Poly): (r: seq<I16>)
    requires |c0| == |s2| == |h| > 0
    ensures |r| == |s2|
  {
    seq(|s2|, i requires 0 <= i < |s2| => Centered(c0[i] - Product(s2, h)[i]))
  }

  /** From a valid signature with invertible s2, recovery succeeds and returns the key it was verified with. */
  lemma ValidSignatureRecovers(c0: Poly, s2: Poly, h: Poly, h': Poly, logn: nat)
    requires 1 <= logn <= 10 && |c0| == |s2| == |h| == |h'| == Pow2(logn)
    requires Valid(c0, s2, h, logn) && NonzeroEverywhere(s2, logn) && Canonical(h, 12289)
    ensures var s1 := CenteredS1(c0, s2, h);
      && Short(s1, s2, logn)
      && (Canonical(h', 12289) && IsQuotient(h', Sub(c0, s1), s2) <==> h' == h)
  {
    hide Product, Centered, SquaredNorm, NonzeroEverywhere;
    var s1: Poly, t: Poly := CenteredS1(c0, s2, h), NegatedS1(c0, s2, h);
    forall i | 0 <= i < |t| ensures t[i] == -s1[i] && Cong(Product(s2, h)[i], c0[i] - s1[i], 12289) {
      CenteredNegate(Product(s2, h)[i] - c0[i]);
      CenteredMeaning(c0[i] - Product(s2, h)[i]);
      CongRefl(c0[i], 12289);
      CongSub(c0[i], c0[i], s1[i], c0[i] - Product(s2, h)[i], 12289);
    }
    forall i | 0 <= i < |t| ensures s1[i] * s1[i] <= t[i] * t[i] {
      assert (-s1[i]) * (-s1[i]) == s1[i] * s1[i];
    }
    NormMonotone(s1, t);
    QuotientFromEntries(h, Sub(c0, s1), s2);
    if Canonical(h', 12289) && IsQuotient(h', Sub(c0, s1), s2) {
      QuotientUnique(h, h', Sub(c0, s1), s2, logn);
    }
  }

  lemma QuotientFromEntries(h: Poly, g: Poly, f: Poly)
    requires |f| == |g| == |h| > 0 && forall i :: 0 <= i < |h| ==> Cong(Product(f, h)[i], g[i], 12289)
    ensures IsQuotient(h, g, f)
  {
    hide Product;
    assert Reduce(Product(f, h), 12289) == Reduce(g, 12289);
  }
}
