/** Pointwise loops over words modulo 12289, and what they mean on reduced words, as in crypto/vrfy.c. */
module MqPoly {
  import opened Words
  import opened Residues
  import opened Polynomials
  import opened Convolution
  import opened Mq
  import opened MqTransform

  /** The residue of a signed 16-bit coefficient as a word. It is canonical when |x| < q. */
  function SmallWord(x: I16): U16 {
    Wrap16(AddQIfNegative(Wrap32(x)))
  }

  lemma SmallWordMeaning(x: I16)
    requires -12289 < x < 12289
    ensures SmallWord(x) == x % 12289
  {}

  /** The representative of x modulo q closest to zero. */
  function Centered(x: int): I16 {
    if x % Q > 6144 then x % Q - Q else x % Q
  }

  /** Centering keeps the residue and never increases the absolute value. */
  lemma CenteredMeaning(x: int)
    ensures Cong(Centered(x), x, Q) && -6144 <= Centered(x) <= 6144
    ensures Centered(x) * Centered(x) <= x * x
  {
    var c := x / Q;
    assert x == Q * c + x % Q;
    CongIntro(Centered(x), x, if x % Q > 6144 then -c - 1 else -c, Q);
    if -6144 <= x <= 6144 {
      assert Centered(x) == x;
    } else {
      SquareOrder(Centered(x), x);
    }
  }

  lemma SquareOrder(a: int, b: int)
    requires (-b <= a <= b) || (b <= a <= -b)
    ensures a * a <= b * b
  {
    var u: nat, v: nat := if a < 0 then -a else a, if b < 0 then -b else b;
    MulLe(u, u, v);
    MulLe(v, u, v);
    assert a * a == u * u && b * b == v * v;
  }

  lemma CenteredUnique(x: int, y: int)
    requires Cong(x, y, 12289)
    ensures Centered(x) == Centered(y)
  {}

  function ToMontySeq(a: Poly): (r: seq<U16>)
    requires Canonical(a, Q)
    ensures |r| == |a|
  {
    seq(|a|, i requires 0 <= i < |a| => ToMonty(a[i]))
  }

  lemma MontyByR2(x: nat)
    requires x < Q
    ensures MqMontyMul(x, R2) == ToMonty(x)
  {
    MontyMulMeaning(x, R2);
    CongIntro(x * R2 * RINV, R * x, x * 2053, Q);
  }

  /** Conversion to Montgomery representation, in place. */
  method MqPolyToMonty(f: array<U16>)
    modifies f
    ensures Canonical(old(f[..]), Q) ==> f[..] == ToMontySeq(old(f[..]))
  {
    hide MqMontyMul, Wrap16;
    ghost var f0 := f[..];
    var u := 0;
    while u < f.Length
      invariant u <= f.Length
      invariant forall x :: u <= x < f.Length ==> f[x] == f0[x]
      invariant forall x :: 0 <= x < u ==> f[x] == Wrap16(MqMontyMul(f0[x], R2))
    {
      f[u] := Wrap16(MqMontyMul(f[u], R2));
      u := u + 1;
    }
    if Canonical(f0, Q) { ToMontyWords(f0, f[..]); }
  }

  lemma ToMontyWords(a: seq<U16>, b: seq<U16>)
    requires Canonical(a, Q) && |a| == |b|
    requires forall x :: 0 <= x < |a| ==> b[x] == Wrap16(MqMontyMul(a[x], R2))
    ensures b == ToMontySeq(a)
  {
    hide MqMontyMul, ToMonty;
    forall x | 0 <= x < |a| ensures b[x] == ToMonty(a[x]) { MontyByR2(a[x]); }
  }

  /** The words r are the Montgomery products of the words a and b. */
  ghost predicate MontyProducts(r: seq<U16>, a: seq<U16>, b: seq<U16>) {
    |r| == |a| == |b| && forall x :: 0 <= x < |a| ==> r[x] == Wrap16(MqMontyMul(a[x], b[x]))
  }

  /** Pointwise Montgomery multiplication of f by g, in place. */
  method MqPolyMulNtt(f: array<U16>, g: seq<U16>)
    requires f.Length == |g|
    modifies f
    ensures MontyProducts(f[..], old(f[..]), g)
  {
    hide MqMontyMul, Wrap16;
    ghost var f0 := f[..];
    var u := 0;
    while u < f.Length
      invariant u <= f.Length
      invariant forall x :: u <= x < f.Length ==> f[x] == f0[x]
      invariant forall x :: 0 <= x < u ==> f[x] == Wrap16(MqMontyMul(f0[x], g[x]))
    {
      f[u] := Wrap16(MqMontyMul(f[u], g[u]));
      u := u + 1;
    }
  }

  /** With one factor in Montgomery representation, the products are plain residues. */
  lemma PointwiseWords(a: seq<U16>, gp: Poly, r: seq<U16>)
    requires Canonical(a, Q) && Canonical(gp, Q) && |a| == |gp|
    requires MontyProducts(r, a, ToMontySeq(gp)) || MontyProducts(r, ToMontySeq(gp), a)
    ensures r == Pointwise(a, gp, Q) && Canonical(r, Q)
  {
    hide ToMonty, MqMontyMul;
    forall x | 0 <= x < |a| ensures r[x] == (a[x] * gp[x]) % Q {
      MontyByTwiddle(a[x], gp[x]);
      assert gp[x] * a[x] == a[x] * gp[x];
      MontySym(a[x], ToMonty(gp[x]));
    }
  }

  lemma MontySym(x: U32, y: U32)
    ensures MqMontyMul(x, y) == MqMontyMul(y, x)
  {
    assert x * y == y * x;
  }

  /** The residues of f - g. */
  function SubResidues(f: Poly, g: Poly): (r: Poly)
    requires |f| == |g|
    ensures |r| == |f|
  {
    seq(|f|, i requires 0 <= i < |f| => (f[i] - g[i]) % Q)
  }

  /** Subtraction of g from f, in place. */
  method MqPolySub(f: array<U16>, g: seq<U16>)
    requires f.Length == |g|
    modifies f
    ensures Canonical(old(f[..]), Q) && Canonical(g, Q) ==> f[..] == SubResidues(old(f[..]), g)
  {
    hide MqSub, Wrap16;
    ghost var f0 := f[..];
    var u := 0;
    while u < f.Length
      invariant u <= f.Length
      invariant forall x :: u <= x < f.Length ==> f[x] == f0[x]
      invariant forall x :: 0 <= x < u ==> f[x] == Wrap16(MqSub(f0[x], g[x]))
    {
      f[u] := Wrap16(MqSub(f[u], g[u]));
      u := u + 1;
    }
    if Canonical(f0, Q) && Canonical(g, Q) { SubWords(f0, g, f[..]); }
  }

  lemma SubWords(a: seq<U16>, g: seq<U16>, b: seq<U16>)
    requires Canonical(a, Q) && Canonical(g, Q) && |a| == |g| == |b|
    requires forall x :: 0 <= x < |a| ==> b[x] == Wrap16(MqSub(a[x], g[x]))
    ensures b == SubResidues(a, g)
  {}

  /** The residues of small signed coefficients. */
  method ReduceSmall(s: seq<I16>) returns (tt: array<U16>)
    ensures fresh(tt) && tt.Length == |s|
    ensures (forall i :: 0 <= i < |s| ==> -12289 < s[i] < 12289) ==> tt[..] == Reduce(s, 12289) && Canonical(tt[..], 12289)
  {
    hide SmallWord;
    tt := new U16[|s|];
    var u := 0;
    while u < |s|
      invariant u <= |s|
      invariant forall x :: 0 <= x < u ==> tt[x] == SmallWord(s[x])
    {
      tt[u] := SmallWord(s[u]);
      u := u + 1;
    }
    if forall i :: 0 <= i < |s| ==> -12289 < s[i] < 12289 {
      forall x | 0 <= x < |s| ensures tt[..][x] == s[x] % 12289 { SmallWordMeaning(s[x]); }
      assert tt[..] == Reduce(s, 12289);
    }
  }
}
