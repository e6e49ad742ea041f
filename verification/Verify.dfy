/**
 Signature verification over integer polynomials, as in crypto/vrfy.c. The verdict is stated
 without any transform: the vector (s2 * h - c0 centred modulo q, s2) is short enough.
 */
module Verify {
  import opened Words
  import opened Residues
  import opened Polynomials
  import opened NttTree
  import opened Convolution
  import opened Mq
  import opened MqTransform
  import opened MqInverse
  import opened MqPoly
  import opened Norms

  /** The public key as verification expects it: transformed, in Montgomery representation. */
  ghost function PreparedKey(h: Poly, logn: nat): (r: seq<U16>)
    requires logn <= 10 && |h| == Pow2(logn) && Canonical(h, Q)
    ensures |r| == |h|
  {
    NttCanonical(MqTables(), h, logn, 1);
    ToMontySeq(Forward(MqTables(), h, logn))
  }

  /** Conversion of a public key to transformed Montgomery form, in place. */
  method ToNttMonty(h: array<U16>, logn: nat)
    requires logn <= 10 && h.Length == Pow2(logn) && Canonical(h[..], Q)
    modifies h
    ensures h[..] == PreparedKey(old(h[..]), logn)
  {
    MqNtt(h, logn);
    MqPolyToMonty(h);
  }

  /** The residues of s2 * h - c0, centred: the first half of the signature vector, negated. */
  ghost function NegatedS1(c0: Poly, s2: Poly, h: Poly): (r: seq<I16>)
    requires |c0| == |s2| == |h| > 0
    ensures |r| == |s2|
  {
    seq(|s2|, i requires 0 <= i < |s2| => Centered(Product(s2, h)[i] - c0[i]))
  }

  /** The signature (s2) is valid for the hashed message c0 and the public key h. */
  ghost predicate Valid(c0: Poly, s2: Poly, h: Poly, logn: nat)
    requires 1 <= logn <= 10 && |c0| == |s2| == |h| == Pow2(logn)
  {
    SquaredNorm(NegatedS1(c0, s2, h)) + SquaredNorm(s2) <= L2Bound(logn)
  }

  /** Transforming, multiplying by the prepared key and transforming back multiplies by the key. */
  lemma MultiplyByKey(s2: Poly, h: Poly, logn: nat)
    requires logn <= 10 && |s2| == |h| == Pow2(logn) && Canonical(h, Q)
    ensures var t := MqTables();
      var v := Pointwise(Forward(t, Reduce(s2, Q), logn), Forward(t, h, logn), Q);
      Canonical(v, Q) && Backward(t, v, logn, InvN(logn)) == Reduce(Product(s2, h), Q)
  {
    var t := MqTables();
    hide Forward, Backward, Product;
    MqReady(logn);
    ReduceCanonical(h, Q);
    ForwardProduct(t, s2, h, logn);
    InvNMeaning(logn);
    ReduceCong(Product(s2, h), Q);
    BackwardForward(t, Reduce(Product(s2, h), Q), logn, InvN(logn));
  }

  /** The last normalisation loop: residues to centred representatives. */
  function CenterWord(w: U16): I16 {
    Signed16(w - Masked(Q, Top32(Wrap32(6144 - w))))
  }

  method CenterWords(tt: seq<U16>) returns (r: array<I16>)
    ensures fresh(r) && r.Length == |tt|
    ensures Canonical(tt, 12289) ==> forall i :: 0 <= i < |tt| ==> r[i] == Centered(tt[i])
  {
    r := new I16[|tt|];
    var u := 0;
    while u < |tt|
      invariant u <= |tt|
      invariant forall i :: 0 <= i < u ==> tt[i] < 12289 ==> r[i] == Centered(tt[i])
    {
      r[u] := CenterWord(tt[u]);
      u := u + 1;
    }
  }

  lemma CenteredOfDifference(p: int, c: int)
    ensures Centered((p % 12289 - c) % 12289) == Centered(p - c)
  {
    hide *;
    CongMod(p, 12289);
    CongMod(p % 12289 - c, 12289);
    CongRefl(c, 12289);
    CongSub(p % 12289, p, c, c, 12289);
    CongTrans((p % 12289 - c) % 12289, p % 12289 - c, p - c, 12289);
    CenteredUnique((p % 12289 - c) % 12289, p - c);
  }

  /** The words of the verification loops, in range, end with the centred residues of s2 * h - c0. */
  lemma PipelineMeaning(c0: Poly, s2: Poly, h: Poly, logn: nat, r: seq<I16>)
    requires logn <= 10 && |c0| == |s2| == |h| == |r| == Pow2(logn) && Canonical(h, Q)
    requires var t := MqTables();
      var v := Pointwise(Forward(t, Reduce(s2, Q), logn), Forward(t, h, logn), Q);
      var w := SubResidues(Backward(t, v, logn, InvN(logn)), c0);
      forall i :: 0 <= i < |r| ==> r[i] == Centered(w[i])
    ensures r == NegatedS1(c0, s2, h)
  {
    hide Forward, Backward, Product, Pointwise, InvN, MqTables, Centered;
    MultiplyByKey(s2, h, logn);
    var p := Product(s2, h);
    forall i | 0 <= i < |r| ensures r[i] == NegatedS1(c0, s2, h)[i] {
      CenteredOfDifference(p[i], c0[i]);
    }
  }

  /** A coefficient of at least q in absolute value already exceeds every bound. */
  lemma TooLong(s: seq<I16>, logn: nat)
    requires 1 <= logn <= 10 && exists i :: 0 <= i < |s| && !(-12289 < s[i] < 12289)
    ensures SquaredNorm(s) > L2Bound(logn)
  {
    var i :| 0 <= i < |s| && !(-12289 < s[i] < 12289);
    CoordinateBelowNorm(s, i);
    SquareOrder(12289, s[i]);
  }

  lemma PreparedMeaning(h: Poly, logn: nat)
    requires logn <= 10 && |h| == Pow2(logn) && Canonical(h, Q)
    ensures MqTables().q == Q == 12289 && Canonical(Forward(MqTables(), h, logn), Q)
    ensures PreparedKey(h, logn) == ToMontySeq(Forward(MqTables(), h, logn))
  {
    NttCanonical(MqTables(), h, logn, 1);
  }

  lemma CanonicalResults(a: Poly, b: Poly)
    requires |a| == |b|
    ensures Canonical(SubResidues(a, b), 12289)
  {}

  /**
   Decides validity for every signed 16-bit s2, in or out of the range of the modulus.
   The ghost argument is the public key that h represents.
   */
  method VerifyRaw(c0: seq<U16>, s2: seq<I16>, h: seq<U16>, logn: nat, ghost key: Poly) returns (ok: bool)
    requires 1 <= logn <= 10 && |c0| == |s2| == |h| == |key| == Pow2(logn)
    requires Canonical(c0, Q) && Canonical(key, Q) && h == PreparedKey(key, logn)
    ensures ok <==> Valid(c0, s2, key, logn)
  {
    hide Forward, Backward, Product, MqTables, ToMontySeq, SubResidues, NegatedS1, Reduce, InvN, Pointwise, PreparedKey, Centered, Canonical, SquaredNorm, MontyProducts;
    PreparedMeaning(key, logn);
    var tt := ReduceSmall(s2);
    MqNtt(tt, logn);
    ghost var u := tt[..];
    MqPolyMulNtt(tt, h);
    if Canonical(u, Q) { PointwiseWords(u, Forward(MqTables(), key, logn), tt[..]); }
    MqIntt(tt, logn);
    CanonicalResults(tt[..], c0);
    MqPolySub(tt, c0);
    var r := CenterWords(tt[..]);
    ok := IsShort(r[..], s2, logn);
    if forall i :: 0 <= i < |s2| ==> -12289 < s2[i] < 12289 {
      PipelineMeaning(c0, s2, key, logn, r[..]);
    } else {
      TooLong(s2, logn);
    }
  }
}
