/** Rebuilding the last private polynomial from the other three, as in crypto/vrfy.c. */
module Completion {
  import opened Words
  import opened Residues
  import opened Polynomials
  import opened NttTree
  import opened Convolution
  import opened Mq
  import opened MqDivision
  import opened MqTransform
  import opened MqInverse
  import opened MqPoly
  import opened Division
  import opened Keys

  ghost predicate Small(a: Poly) {
    forall i :: 0 <= i < |a| ==> -127 <= a[i] <= 127
  }

  /** g * F modulo X^n + 1 divided by f modulo q. */
  ghost predicate Completes(G: Poly, f: Poly, g: Poly, F: Poly)
    requires |f| == |g| == |F| == |G| > 0
  {
    IsQuotient(G, Product(g, F), f)
  }

  /** A polynomial congruent to a quotient is a quotient. */
  lemma CongruentQuotient(u: Poly, v: Poly, g: Poly, f: Poly, logn: nat)
    requires logn <= 10 && |f| == |g| == |u| == |v| == Pow2(logn)
    requires CongPoly(u, v, 12289) && IsQuotient(v, g, f)
    ensures IsQuotient(u, g, f)
  {
    hide Value, IsQuotient, Cong, MqTables;
    var t := MqTables();
    forall i | 0 <= i < Pow2(logn) ensures Cong(Value(t, f, logn, i) * Value(t, u, logn, i), Value(t, g, logn, i), 12289) {
      QuotientValue(v, g, f, logn, i);
      ValueCong(u, v, logn, i);
      CongScale(Value(t, f, logn, i), Value(t, u, logn, i), Value(t, v, logn, i), 12289);
      CongTrans(Value(t, f, logn, i) * Value(t, u, logn, i), Value(t, f, logn, i) * Value(t, v, logn, i), Value(t, g, logn, i), 12289);
    }
    QuotientFromValues(u, g, f, logn);
  }

  lemma ValueCong(u: Poly, v: Poly, logn: nat, i: nat)
    requires logn <= 10 && |u| == |v| == Pow2(logn) && i < Pow2(logn) && CongPoly(u, v, 12289)
    ensures Cong(Value(MqTables(), u, logn, i), Value(MqTables(), v, logn, i), 12289)
  {
    hide CongPoly, Eval, Point;
    EvalCong(u, v, Point(MqTables(), logn, 1, i), 12289);
  }

  /** A small quotient is the centred form of the canonical quotient. */
  lemma SmallQuotientUnique(G: Poly, u: Poly, g: Poly, f: Poly, logn: nat)
    requires logn <= 10 && |f| == |g| == |u| == |G| == Pow2(logn) && NonzeroEverywhere(f, logn)
    requires Small(G) && IsQuotient(G, g, f) && Canonical(u, 12289) && IsQuotient(u, g, f)
    ensures forall i :: 0 <= i < |u| ==> G[i] == Centered(u[i])
  {
    hide IsQuotient, NonzeroEverywhere;
    var r := Reduce(G, 12289);
    ReduceCong(G, 12289);
    CongruentQuotient(r, G, g, f, logn);
    QuotientUnique(r, u, g, f, logn);
    forall i | 0 <= i < |u| ensures G[i] == Centered(u[i]) {
      assert u[i] == G[i] % 12289;
      SmallCentered(G[i]);
    }
  }

  lemma SmallCentered(x: int)
    requires -127 <= x <= 127
    ensures Centered(x % 12289) == x
  {}

  /** The source's centering of one word. It takes 6144 to -6145, which the range test then rejects. */
  function CenterLast(t: U16): int {
    var below := Top32(Wrap32(t as int - 6144));
    var w := Wrap32(t - (if below == 1 then 0 else Q));
    if w < 0x8000_0000 then w else w - 0x1_0000_0000
  }

  lemma CenterLastMeaning(t: U16)
    requires t < 12289
    ensures -127 <= CenterLast(t) <= 127 <==> -127 <= Centered(t) <= 127
    ensures -127 <= Centered(t) <= 127 ==> CenterLast(t) == Centered(t)
  {}

  /** The last loop: centre, test the range, store. */
  method StoreSmall(G: array<I8>, t1: seq<U16>) returns (ok: bool)
    requires G.Length == |t1| && Canonical(t1, 12289)
    modifies G
    ensures ok <==> forall i :: 0 <= i < |t1| ==> -127 <= Centered(t1[i]) <= 127
    ensures ok ==> Small(G[..]) && forall i :: 0 <= i < |t1| ==> G[i] == Centered(t1[i])
  {
    hide Centered, CenterLast;
    var u := 0;
    while u < |t1|
      invariant u <= |t1|
      invariant forall i :: 0 <= i < u ==> -127 <= G[i] <= 127 && G[i] == Centered(t1[i])
    {
      CenterLastMeaning(t1[u]);
      var gi := CenterLast(t1[u]);
      if gi < -127 || gi > 127 {
        return false;
      }
      G[u] := gi;
      u := u + 1;
    }
    ok := true;
  }

  lemma CenteredQuotient(G: Poly, u: Poly, g: Poly, f: Poly, logn: nat)
    requires logn <= 10 && |f| == |g| == |u| == |G| == Pow2(logn) && IsQuotient(u, g, f)
    requires forall i :: 0 <= i < |u| ==> G[i] == Centered(u[i])
    ensures IsQuotient(G, g, f)
  {
    hide Centered, IsQuotient;
    forall i | 0 <= i < |u| ensures Cong(G[i], u[i], 12289) { CenteredMeaning(u[i]); }
    CongruentQuotient(G, u, g, f, logn);
  }

  /** The transform of Reduce(g) times the transform of Reduce(F) is that of the product. */
  lemma ProductTransform(g: Poly, F: Poly, logn: nat)
    requires logn <= 10 && |g| == |F| == Pow2(logn)
    ensures var t := MqTables();
      Pointwise(Forward(t, Reduce(F, 12289), logn), Forward(t, Reduce(g, 12289), logn), 12289) == Forward(t, Reduce(Product(g, F), 12289), logn)
  {
    hide Forward, Product, Reduce, MqTables;
    MqReady(logn);
    ModulusIsQ();
    var t := MqTables();
    ForwardProduct(t, g, F, logn);
    PointwiseSym(Forward(t, Reduce(F, 12289), logn), Forward(t, Reduce(g, 12289), logn));
  }

  lemma PointwiseSym(a: Poly, b: Poly)
    requires |a| == |b|
    ensures Pointwise(a, b, 12289) == Pointwise(b, a, 12289)
  {
    forall i | 0 <= i < |a| ensures (a[i] * b[i]) % 12289 == (b[i] * a[i]) % 12289 {
      assert a[i] * b[i] == b[i] * a[i];
    }
  }

  /** Multiplication of g by F in the transformed domain, as the completion does it. */
  method TransformedProduct(g: seq<I8>, F: seq<I8>, logn: nat) returns (t1: array<U16>)
    requires 1 <= logn <= 10 && |g| == |F| == Pow2(logn)
    ensures fresh(t1) && t1.Length == Pow2(logn) && Canonical(t1[..], 12289)
    ensures t1[..] == Forward(MqTables(), Reduce(Product(g, F), 12289), logn)
  {
    hide Forward, MqTables, Reduce, Product, MontyProducts, ToMontySeq, Pointwise;
    ModulusIsQ();
    t1 := ConvSmall(g);
    var t2 := ConvSmall(F);
    MqNtt(t1, logn);
    ghost var a := t1[..];
    MqNtt(t2, logn);
    MqPolyToMonty(t1);
    MqPolyMulNtt(t1, t2[..]);
    PointwiseWords(t2[..], a, t1[..]);
    ProductTransform(g, F, logn);
  }

  /**
   Computes G with f * G = g * F modulo q and X^n + 1. It succeeds exactly when f is
   invertible and such a G exists with coefficients in -127..127; then it returns the only one.
   */
  method CompletePrivate(G: array<I8>, f: seq<I8>, g: seq<I8>, F: seq<I8>, logn: nat) returns (ok: bool)
    requires 1 <= logn <= 10 && |f| == |g| == |F| == G.Length == Pow2(logn)
    modifies G
    ensures ok <==> NonzeroEverywhere(f, logn) && exists G': Poly :: |G'| == |f| && Small(G') && Completes(G', f, g, F)
    ensures ok ==> Small(G[..]) && Completes(G[..], f, g, F)
    ensures ok ==> forall G': Poly :: |G'| == |f| && Small(G') && Completes(G', f, g, F) ==> G' == G[..]
  {
    hide Forward, MqTables, NonzeroEverywhere, IsQuotient, MqDiv, Reduce, Backward, InvN, Product, Quotients, Centered;
    ModulusIsQ();
    var t1 := TransformedProduct(g, F, logn);
    var t2 := ConvSmall(f);
    MqNtt(t2, logn);
    ghost var e := t1[..];
    TransformNonzero(f, t2[..], logn);
    ok := DividePointwise(t1, t2[..]);
    if !ok { return; }
    DivideTransforms(f, Product(g, F), t2[..], e, t1[..], logn);
    MqIntt(t1, logn);
    ghost var u := t1[..];
    ok := StoreSmall(G, t1[..]);
    forall G': Poly | |G'| == |f| && Small(G') && Completes(G', f, g, F)
      ensures forall i :: 0 <= i < |u| ==> G'[i] == Centered(u[i])
    {
      SmallQuotientUnique(G', u, Product(g, F), f, logn);
    }
    if ok { CenteredQuotient(G[..], u, Product(g, F), f, logn); }
  }
}
