/** The inverse transform modulo 12289, in place on 16-bit words, as in crypto/vrfy.c. */
module MqInverse {
  import opened Words
  import opened Residues
  import opened Polynomials
  import opened NttTree
  import opened NttStages
  import opened NttInPlace
  import opened Convolution
  import opened Mq
  import opened MqTransform

  /** 1/2^k modulo q. */
  function InvN(k: nat): Zq { Pow(6145, k) % Q }

  lemma {:induction false} InvNMeaning(k: nat)
    ensures Cong(InvN(k) * Pow2(k), 1, Q)
  {
    hide Pow2, Pow, Cong;
    HalfPower(k);
    CongMod(Pow(6145, k), Q);
    CongScale(Pow2(k), InvN(k), Pow(6145, k), Q);
    CongTrans(Pow2(k) * InvN(k), Pow2(k) * Pow(6145, k), 1, Q);
    assert InvN(k) * Pow2(k) == Pow2(k) * InvN(k);
  }

  lemma {:induction false} HalfPower(k: nat)
    ensures Cong(Pow2(k) * Pow(6145, k), 1, Q)
  {
    if k > 0 {
      HalfPower(k - 1);
      var u, v := Pow2(k - 1), Pow(6145, k - 1);
      assert Pow2(k) == 2 * u && Pow(6145, k) == 6145 * v;
      CongScale(12290, u * v, 1, Q);
      assert (2 * u) * (6145 * v) == 12290 * (u * v);
    }
  }

  lemma InvNHalves(k: nat)
    ensures Cong(2 * InvN(k + 1), InvN(k), 12289)
  {
    var w := Pow(6145, k);
    assert Pow(6145, k + 1) == 6145 * w;
    hide Cong, Pow;
    CongMod(6145 * w, Q);
    CongScale(2, (6145 * w) % Q, 6145 * w, Q);
    CongIntro(2 * (6145 * w), w, w, Q);
    CongMod(w, Q);
    CongTrans(2 * ((6145 * w) % Q), 2 * (6145 * w), w, Q);
    CongTrans(2 * ((6145 * w) % Q), w, w % Q, Q);
  }

  lemma ToMontyCong(s: nat)
    ensures Cong(ToMonty(s), 4091 * s, 12289) && 0 <= ToMonty(s) < 12289
  {
    CongMod(R * s, Q);
  }

  lemma HalvingCong(x: U32)
    requires x < 12289
    ensures Cong(2 * MqRshift1(x), x, 12289) && MqRshift1(x) < 12289
  {}

  /** Halving modulo q moves from R/2^k to R/2^(k+1). */
  lemma HalvingStep(k: nat)
    ensures MqRshift1(ToMonty(InvN(k))) == ToMonty(InvN(k + 1))
  {
    hide *;
    var u: nat, v: nat := InvN(k), InvN(k + 1);
    var r: int, x: int := MqRshift1(ToMonty(u)), ToMonty(v);
    HalvingCong(ToMonty(u));
    ToMontyCong(u);
    ToMontyCong(v);
    InvNHalves(k);
    CongTrans(2 * r, ToMonty(u), 4091 * u, 12289);
    CongScale(2, x, 4091 * v, 12289);
    CongScale(4091, 2 * v, u, 12289);
    assert 4091 * (2 * v) == 2 * (4091 * v);
    CongTrans(2 * x, 2 * (4091 * v), 4091 * u, 12289);
    CongTrans(2 * r, 4091 * u, 2 * x, 12289);
    CongIntro(2 * 6145, 1, 1, 12289);
    CongCancel(2, 6145, r, x, 12289);
    CongCanonical(r, x, 12289);
  }

  /** The inner loop of the inverse transform: one block of length 2 * t. */
  method MqUnbutterflyBlock(a: array<U16>, j1: nat, t: nat, s: U16, ghost sp: nat)
    requires j1 + 2 * t <= a.Length && sp < 12289 && s == ToMonty(sp)
    modifies a
    ensures Canonical(old(a[..]), 12289) ==> Unfolded(old(a[..]), a[..], j1, t, sp, 12289) && Canonical(a[..], 12289)
  {
    hide MqAdd, MqSub, MqMontyMul, Wrap16, ToMonty;
    ghost var a0 := a[..];
    var j, j2 := j1, j1 + t;
    while j < j2
      invariant j1 <= j <= j2
      invariant Canonical(a0, 12289) ==> forall x :: 0 <= x < a.Length ==> a[x] == UnfoldedWord(a0, j1, t, j, sp, 12289, x)
    {
      var u := a[j];
      var v := a[j + t];
      if Canonical(a0, 12289) {
        StoredButterfly(a0[j], a0[j + t], sp);
      }
      a[j] := Wrap16(MqAdd(u, v));
      var w := MqSub(u, v);
      a[j + t] := Wrap16(MqMontyMul(w, s));
      j := j + 1;
    }
    if Canonical(a0, 12289) { FoldedRange(a0, a[..], j1, t, sp); }
  }

  /** One pass of the inverse loop: hm blocks of length 2 * t. */
  method MqPassBack(a: array<U16>, ghost k: nat, hm: nat, t: nat)
    requires k > 0 && t == Pow2(k - 1) && 2 * hm <= 1024 && a.Length == Span(k, hm)
    modifies a
    ensures Canonical(old(a[..]), Q) ==> Canonical(a[..], Q) && a[..] == InverseStage(MqTables(), old(a[..]), k, hm, hm)
  {
    hide *;
    ghost var a0: seq<U16> := a[..];
    ghost var past: Poly, todo: Poly := [], a0;
    SpanEmpty(k);
    ModulusIsQ();
    EmptyPass(MqTables(), a0, k, hm);
    var i, j1 := 0, 0;
    while i < hm
      invariant i <= hm && j1 == Span(k, i)
      invariant |past| == j1 && |past| + |todo| == a.Length
      invariant Canonical(a0, Q) ==> PassingBack(MqTables(), a0, a[..], k, hm, i, past, todo) && Canonical(a[..], Q)
    {
      SpanStep(k, i, hm);
      ghost var b0 := a[..];
      ghost var lo, hi, rest := NextBlock(todo, k);
      TwiddleEntry(hm + i);
      MqUnbutterflyBlock(a, j1, t, IGMb(hm + i), MqTables().InvS(hm + i));
      if Canonical(a0, Q) {
        UnfoldedCarriesPass(MqTables(), a0, b0, a[..], j1, t, k, hm, i, past, lo, hi, rest);
      }
      past, todo := past + (lo + hi), rest;
      i, j1 := i + 1, j1 + 2 * t;
    }
    FullPass(MqTables(), a0, a[..], k, hm, hm, past, todo);
  }

  /** The passes of the inverse transform, before the final division by n. */
  method MqInverseLoop(a: array<U16>, logn: nat)
    requires logn <= 10 && a.Length == Pow2(logn)
    modifies a
    ensures Canonical(old(a[..]), Q) ==> Canonical(a[..], Q) && a[..] == Intt(MqTables(), old(a[..]), logn, 1)
  {
    hide *;
    ghost var a0 := a[..];
    ghost var tables := MqTables();
    ghost var k: nat := 0;
    var n: nat := Pow2(logn);
    var t: nat, m: nat := 1, n;
    SizeBound(logn);
    SingletonBlocks(tables, a0, n, n);
    TopLevel(logn);
    LevelShape(k, logn, t, m);
    while m > 1
      invariant Level(k, logn, t, m) && Span(k, m) == n <= 1024 && tables.q > 0
      invariant Canonical(a0, Q) ==> Canonical(a[..], Q) && a[..] == InttBlocks(tables, a0, k, m, m)
      decreases m
    {
      LevelShape(k, logn, t, m);
      ghost var k1 := LevelUp(k, logn, t, m);
      var hm: nat := m / 2;
      MqPassBack(a, k1, hm, t);
      InverseStageRefines(tables, a0, k1, hm, hm);
      k, t, m := k1, 2 * t, hm;
    }
    LevelShape(k, logn, t, m);
    WholeBlock(tables, a0, logn, 1);
  }

  /** The final loops: R/n by repeated halving, then one multiplication per word. */
  method MqDivideByN(a: array<U16>, logn: nat)
    requires logn <= 10 && a.Length == Pow2(logn)
    modifies a
    ensures Canonical(old(a[..]), Q) ==> a[..] == Scaled(InvN(logn), old(a[..]), Q)
  {
    hide *;
    ghost var a0 := a[..];
    var n: nat := Pow2(logn);
    var ni: U32 := 4091;
    ghost var k: nat := 0;
    var m: nat := n;
    ghost var len: nat := 1;
    StartHalving();
    TopLevel(logn);
    while m > 1
      invariant Level(k, logn, len, m) && ni == ToMonty(InvN(k)) && a[..] == a0
      decreases m
    {
      LevelShape(k, logn, len, m);
      ghost var k1 := LevelUp(k, logn, len, m);
      HalvingStep(k);
      ni := MqRshift1(ni);
      k, len, m := k1, 2 * len, m / 2;
    }
    LevelShape(k, logn, len, m);
    m := 0;
    while m < n
      invariant m <= n && a.Length == n
      invariant forall x :: m <= x < n ==> a[x] == a0[x]
      invariant forall x :: 0 <= x < m ==> a[x] == Wrap16(MqMontyMul(a0[x], ni))
    {
      a[m] := Wrap16(MqMontyMul(a[m], ni));
      m := m + 1;
    }
    if Canonical(a0, Q) { DivisionMeaning(a0, a[..], logn); }
  }

  lemma StartHalving()
    ensures 4091 == ToMonty(InvN(0))
  {
    assert Pow(6145, 0) == 1;
  }

  lemma DivisionMeaning(a: seq<U16>, b: seq<U16>, logn: nat)
    requires Canonical(a, Q) && |a| == |b|
    requires forall x :: 0 <= x < |a| ==> b[x] == Wrap16(MqMontyMul(a[x], ToMonty(InvN(logn))))
    ensures b == Scaled(InvN(logn), a, Q)
  {
    hide MqMontyMul, ToMonty, InvN;
    var s := InvN(logn);
    forall x | 0 <= x < |a| ensures b[x] == (s * a[x]) % Q {
      MontyByTwiddle(a[x], s);
    }
  }

  /** The inverse transform in place. On reduced words it computes the inverse transform of Convolution. */
  method MqIntt(a: array<U16>, logn: nat)
    requires logn <= 10 && a.Length == Pow2(logn)
    modifies a
    ensures Canonical(old(a[..]), Q) ==> a[..] == Backward(MqTables(), old(a[..]), logn, InvN(logn))
    ensures Canonical(old(a[..]), Q) ==> Canonical(a[..], Q)
  {
    hide *;
    ghost var a0 := a[..];
    MqInverseLoop(a, logn);
    MqDivideByN(a, logn);
    BackwardMeaning(a0, logn);
  }

  lemma BackwardMeaning(a: Poly, logn: nat)
    requires |a| == Pow2(logn)
    ensures Backward(MqTables(), a, logn, InvN(logn)) == Scaled(InvN(logn), Intt(MqTables(), a, logn, 1), Q)
    ensures Canonical(Backward(MqTables(), a, logn, InvN(logn)), Q)
  {}
}
