/** The in-place transform modulo a 31-bit prime and its inverse, as in crypto/keygen.c. */
module ModpNtt {
  import opened Words
  import opened Residues
  import opened Polynomials
  import opened NttTree
  import opened NttStages
  import opened NttInPlace
  import opened Convolution
  import opened Modp
  import opened ModpTransform
  import opened StridedWords

  lemma ModpButterfly(x: U32, y: U32, s: U32, sp: int, p: U31, p0i: U31)
    requires Reducer(p, p0i) && x < p && y < p && Monty(s, sp, p)
    ensures var v := ModpMontyMul(y, s, p, p0i);
      ModpAdd(x, v, p) == (x + sp * y) % p && ModpSub(x, v, p) == (x - sp * y) % p
  {
    hide *;
    ReducerMeaning(p, p0i);
    MontyBy(y, s, sp, p, p0i);
    var v := ModpMontyMul(y, s, p, p0i);
    assert y * sp == sp * y;
    CongShift(x, v, sp * y, p);
    CongRefl(x, p);
    CongSub(x, x, v, sp * y, p);
    CongMeaning(x + v, x + sp * y, p);
    CongMeaning(x - v, x - sp * y, p);
    AddSubMeaning(x, v, p);
  }

  lemma ModpUnbutterfly(x: U32, y: U32, s: U32, sp: int, p: U31, p0i: U31)
    requires Reducer(p, p0i) && x < p && y < p && Monty(s, sp, p)
    ensures ModpAdd(x, y, p) == (x + y) % p
    ensures ModpMontyMul(ModpSub(x, y, p), s, p, p0i) == ((x - y) * sp) % p
  {
    hide *;
    ReducerMeaning(p, p0i);
    AddSubMeaning(x, y, p);
    var d := (x - y) % p;
    MontyBy(ModpSub(x, y, p), s, sp, p, p0i);
    CongMod(x - y, p);
    CongScale(sp, d, x - y, p);
    assert sp * d == d * sp && sp * (x - y) == (x - y) * sp;
    var r: int := ModpMontyMul(ModpSub(x, y, p), s, p, p0i);
    CongTrans(r, d * sp, (x - y) * sp, p);
    CongMeaning(r, (x - y) * sp, p);
    RemainderUnique(r, 0, r, p);
  }

  /** The inner loop of the forward transform: one block of 2 * ht words of the view. */
  method ModpBlock(a: array<U32>, w: View, j1: nat, ht: nat, s: U32, p: U31, p0i: U31, ghost sp: int)
    requires w.Fits(a.Length) && j1 + 2 * ht <= w.n && Reducer(p, p0i) && Monty(s, sp, p) && Canonical(w.Pick(a[..]), p)
    modifies a
    ensures Folded(w.Pick(old(a[..])), w.Pick(a[..]), j1, ht, sp, p) && Canonical(w.Pick(a[..]), p) && w.Elsewhere(old(a[..]), a[..])
  {
    hide Reducer, Monty, ModpAdd, ModpSub, ModpMontyMul, View.Fits, View.At, View.Pick, View.Elsewhere;
    ReducerMeaning(p, p0i);
    ViewFits(w, a.Length);
    ghost var s0 := a[..];
    ghost var c0 := w.Pick(s0);
    ElsewhereSame(w, s0);
    var v := 0;
    while v < ht
      invariant v <= ht && w.Elsewhere(s0, a[..])
      invariant forall x :: 0 <= x < w.n ==> w.Pick(a[..])[x] == FoldedWord(c0, j1, ht, j1 + v, sp, p, x)
    {
      PickAt(w, a[..], j1 + v);
      PickAt(w, a[..], j1 + ht + v);
      var r1, r2 := w.At(j1 + v), w.At(j1 + ht + v);
      var x := a[r1];
      ModpButterfly(x, a[r2], s, sp, p, p0i);
      var y := ModpMontyMul(a[r2], s, p, p0i);
      StoreBoth(a, w, j1 + v, j1 + ht + v, ModpAdd(x, y, p), ModpSub(x, y, p), s0);
      v := v + 1;
    }
  }

  /** Two stores into the view. */
  method StoreBoth(a: array<U32>, w: View, i: nat, j: nat, x: U32, y: U32, ghost s0: seq<U32>)
    requires w.Fits(a.Length) && i < w.n && j < w.n && w.stride > 0 && w.Elsewhere(s0, a[..])
    modifies a
    ensures w.Pick(a[..]) == w.Pick(old(a[..]))[i := x][j := y] && w.Elsewhere(s0, a[..])
  {
    hide *;
    ghost var s := a[..];
    StoreAt(w, s, i, x);
    a[w.At(i)] := x;
    assert a[..] == s[w.At(i) := x];
    ElsewhereStays(w, s0, s, a[..]);
    ghost var t := a[..];
    StoreAt(w, t, j, y);
    a[w.At(j)] := y;
    assert a[..] == t[w.At(j) := y];
    ElsewhereStays(w, s0, t, a[..]);
  }

  /** The inner loop of the inverse transform: one block of 2 * t words of the view. */
  method ModpBlockBack(a: array<U32>, w: View, j1: nat, t: nat, s: U32, p: U31, p0i: U31, ghost sp: int)
    requires w.Fits(a.Length) && j1 + 2 * t <= w.n && Reducer(p, p0i) && Monty(s, sp, p) && Canonical(w.Pick(a[..]), p)
    modifies a
    ensures Unfolded(w.Pick(old(a[..])), w.Pick(a[..]), j1, t, sp, p) && Canonical(w.Pick(a[..]), p) && w.Elsewhere(old(a[..]), a[..])
  {
    hide Reducer, Monty, ModpAdd, ModpSub, ModpMontyMul, View.Fits, View.At, View.Pick, View.Elsewhere;
    ReducerMeaning(p, p0i);
    ViewFits(w, a.Length);
    ghost var s0 := a[..];
    ghost var c0 := w.Pick(s0);
    ElsewhereSame(w, s0);
    var v := 0;
    while v < t
      invariant v <= t && w.Elsewhere(s0, a[..])
      invariant forall x :: 0 <= x < w.n ==> w.Pick(a[..])[x] == UnfoldedWord(c0, j1, t, j1 + v, sp, p, x)
    {
      PickAt(w, a[..], j1 + v);
      PickAt(w, a[..], j1 + t + v);
      var x, y := a[w.At(j1 + v)], a[w.At(j1 + t + v)];
      ModpUnbutterfly(x, y, s, sp, p, p0i);
      StoreBoth(a, w, j1 + v, j1 + t + v, ModpAdd(x, y, p), ModpMontyMul(ModpSub(x, y, p), s, p, p0i), s0);
      v := v + 1;
    }
  }

  lemma TableEntry(gm: seq<U32>, t: Tables, logn: nat, p: U31, v: nat)
    requires v < Pow2(logn)
    ensures Filled(gm, t, logn, p) ==> v < |gm| && Monty(gm[v], t.S(v), p)
    ensures FilledInverse(gm, t, logn, p) ==> v < |gm| && Monty(gm[v], t.InvS(v), p)
  {}

  /** One pass of the forward loop: m blocks of 2 * ht words. */
  method ModpPass(a: array<U32>, w: View, gm: seq<U32>, logn: nat, m: nat, ht: nat, p: U31, p0i: U31, ghost k: nat, ghost t: Tables)
    requires k > 0 && ht == Pow2(k - 1) && 2 * m <= Pow2(logn) && w.Fits(a.Length) && w.n == Span(k, m)
    requires Reducer(p, p0i) && t.q == p && p > 0 && Filled(gm, t, logn, p) && Canonical(w.Pick(a[..]), p)
    modifies a
    ensures Canonical(w.Pick(a[..]), p) && w.Pick(a[..]) == Stage(t, w.Pick(old(a[..])), k, m, m)
    ensures w.stride > 0 && w.Elsewhere(old(a[..]), a[..])
  {
    hide *;
    ViewFits(w, a.Length);
    ghost var s0 := a[..];
    ghost var a0: seq<U32> := w.Pick(s0);
    ghost var past: Poly, todo: Poly := [], a0;
    SpanEmpty(k);
    EmptyPass(t, a0, k, m);
    ElsewhereSame(w, s0);
    var u, v1 := 0, 0;
    while u < m
      invariant u <= m && v1 == Span(k, u) && w.Elsewhere(s0, a[..])
      invariant |past| == v1 && |past| + |todo| == w.n
      invariant Passing(t, a0, w.Pick(a[..]), k, m, u, past, todo) && Canonical(w.Pick(a[..]), p)
    {
      SpanStep(k, u, m);
      ghost var b0 := a[..];
      ghost var lo, hi, rest := NextBlock(todo, k);
      TableEntry(gm, t, logn, p, m + u);
      ModpBlock(a, w, v1, ht, gm[m + u], p, p0i, t.S(m + u));
      FoldedCarriesPass(t, a0, w.Pick(b0), w.Pick(a[..]), v1, ht, k, m, u, past, lo, hi, rest);
      ElsewhereStays(w, s0, b0, a[..]);
      past, todo := past + (lo + hi), rest;
      u, v1 := u + 1, v1 + 2 * ht;
    }
    FullPass(t, a0, w.Pick(a[..]), k, m, m, past, todo);
  }

  /** The transform of the selected words, in place; no other word changes. */
  method ModpNtt2Ext(a: array<U32>, w: View, gm: seq<U32>, logn: nat, p: U31, p0i: U31, ghost t: Tables)
    requires w.Fits(a.Length) && w.n == Pow2(logn) && Canonical(w.Pick(a[..]), p)
    requires Reducer(p, p0i) && t.q == p && p > 0 && Filled(gm, t, logn, p)
    modifies a
    ensures Canonical(w.Pick(a[..]), p) && w.Pick(a[..]) == Forward(t, w.Pick(old(a[..])), logn)
    ensures w.stride > 0 && w.Elsewhere(old(a[..]), a[..])
  {
    hide *;
    ViewFits(w, a.Length);
    ghost var s0 := a[..];
    ghost var a0 := w.Pick(s0);
    ElsewhereSame(w, s0);
    ghost var k: nat := logn;
    var n: nat := Pow2(logn);
    var len: nat, m: nat := n, 1;
    WholeBlock(t, a0, logn, 1);
    TopLevel(logn);
    while m < n
      invariant Level(k, logn, len, m) && Span(k, m) == n && w.Elsewhere(s0, a[..])
      invariant Canonical(w.Pick(a[..]), p) && NttBlocks(t, w.Pick(a[..]), k, m, m) == Ntt(t, a0, logn, 1)
      decreases k
    {
      LevelShape(k, logn, len, m);
      ghost var k1 := LevelDown(k, logn, len, m);
      ghost var b0 := a[..];
      ModpPass(a, w, gm, logn, m, len / 2, p, p0i, k, t);
      StageRefines(t, w.Pick(b0), k, m, m);
      ElsewhereStays(w, s0, b0, a[..]);
      k, len, m := k1, len / 2, 2 * m;
    }
    LevelShape(k, logn, len, m);
    SingletonBlocks(t, w.Pick(a[..]), n, n);
    ForwardMeaning(t, a0, logn);
  }

  /** The transform of contiguous coefficients, in place. */
  method ModpNtt2(a: array<U32>, gm: seq<U32>, logn: nat, p: U31, p0i: U31, ghost t: Tables)
    requires a.Length == Pow2(logn) && Canonical(a[..], p)
    requires Reducer(p, p0i) && t.q == p && p > 0 && Filled(gm, t, logn, p)
    modifies a
    ensures Canonical(a[..], p) && a[..] == Forward(t, old(a[..]), logn)
  {
    hide *;
    WholeView(a[..]);
    ModpNtt2Ext(a, View(0, 1, a.Length), gm, logn, p, p0i, t);
    WholeView(a[..]);
  }

  /** One pass of the inverse loop: hm blocks of 2 * t words. */
  method ModpPassBack(a: array<U32>, w: View, igm: seq<U32>, logn: nat, hm: nat, t: nat, p: U31, p0i: U31, ghost k: nat, ghost tables: Tables)
    requires k > 0 && t == Pow2(k - 1) && 2 * hm <= Pow2(logn) && w.Fits(a.Length) && w.n == Span(k, hm)
    requires Reducer(p, p0i) && tables.q == p && p > 0 && FilledInverse(igm, tables, logn, p) && Canonical(w.Pick(a[..]), p)
    modifies a
    ensures Canonical(w.Pick(a[..]), p) && w.Pick(a[..]) == InverseStage(tables, w.Pick(old(a[..])), k, hm, hm)
    ensures w.stride > 0 && w.Elsewhere(old(a[..]), a[..])
  {
    hide *;
    ViewFits(w, a.Length);
    ghost var s0 := a[..];
    ghost var a0: seq<U32> := w.Pick(s0);
    ghost var past: Poly, todo: Poly := [], a0;
    SpanEmpty(k);
    EmptyPass(tables, a0, k, hm);
    ElsewhereSame(w, s0);
    var u, v1 := 0, 0;
    while u < hm
      invariant u <= hm && v1 == Span(k, u) && w.Elsewhere(s0, a[..])
      invariant |past| == v1 && |past| + |todo| == w.n
      invariant PassingBack(tables, a0, w.Pick(a[..]), k, hm, u, past, todo) && Canonical(w.Pick(a[..]), p)
    {
      SpanStep(k, u, hm);
      ghost var b0 := a[..];
      ghost var lo, hi, rest := NextBlock(todo, k);
      TableEntry(igm, tables, logn, p, hm + u);
      ModpBlockBack(a, w, v1, t, igm[hm + u], p, p0i, tables.InvS(hm + u));
      UnfoldedCarriesPass(tables, a0, w.Pick(b0), w.Pick(a[..]), v1, t, k, hm, u, past, lo, hi, rest);
      ElsewhereStays(w, s0, b0, a[..]);
      past, todo := past + (lo + hi), rest;
      u, v1 := u + 1, v1 + 2 * t;
    }
    FullPass(tables, a0, w.Pick(a[..]), k, hm, hm, past, todo);
  }

  /** 1/2^k modulo p. */
  function HalfPower(k: nat, p: U31): int { Pow((p + 1) / 2, k) }

  lemma {:induction false} HalfPowerMeaning(k: nat, p: U31)
    requires Modulus(p)
    ensures Cong(HalfPower(k, p) * Pow2(k), 1, p)
  {
    if k > 0 {
      HalfPowerMeaning(k - 1, p);
      var h := (p + 1) / 2;
      HalfPowerStep(h, HalfPower(k - 1, p), Pow2(k - 1), p);
    }
  }

  lemma HalfPowerStep(h: int, w: int, v: int, p: int)
    requires p > 0 && 2 * h == p + 1 && Cong(w * v, 1, p)
    ensures Cong((h * w) * (2 * v), 1, p)
  {
    hide *;
    MulAssoc(h, w, 2 * v);
    assert w * (2 * v) == 2 * (w * v);
    MulAssoc(h, 2, w * v);
    assert (h * w) * (2 * v) == (2 * h) * (w * v);
    CongIntro(2 * h, 1, 1, p);
    CongMul(2 * h, 1, w * v, 1, p);
  }

  /** 2^(31-k) is 1/2^k in Montgomery representation. */
  lemma ShiftedRadix(k: nat, p: U31)
    requires 1 <= k <= 10 && Modulus(p)
    ensures Monty(Pow2(31 - k), HalfPower(k, p), p)
  {
    HalfPowerMeaning(k, p);
    Pow2Add(31 - k, k);
    Pow2Values();
    Pow2Monotone(31 - k, 30);
    assert Pow2(31) == 2 * Pow2(30);
    var w, v, r := HalfPower(k, p), Pow2(k), Pow2(31 - k);
    hide *;
    CongScale(r, w * v, 1, p);
    MulAssoc(r, w, v);
    assert r * (w * v) == 0x8000_0000 * w;
    CongTrans(r, r * (w * v), 0x8000_0000 * w, p);
    MontyIntro(r, w, p);
  }

  /** The final loop: one multiplication per selected word. */
  method ModpScale(a: array<U32>, w: View, ni: U32, p: U31, p0i: U31, ghost c: int)
    requires w.Fits(a.Length) && Reducer(p, p0i) && Monty(ni, c, p) && Canonical(w.Pick(a[..]), p) && p > 0
    modifies a
    ensures w.Pick(a[..]) == Scaled(c, w.Pick(old(a[..])), p) && Canonical(w.Pick(a[..]), p)
    ensures w.stride > 0 && w.Elsewhere(old(a[..]), a[..])
  {
    hide Reducer, Monty, ModpMontyMul, View.Fits, View.At, View.Pick, View.Elsewhere;
    ViewFits(w, a.Length);
    ghost var s0 := a[..];
    ghost var a0 := w.Pick(s0);
    ElsewhereSame(w, s0);
    var k := 0;
    while k < w.n
      invariant k <= w.n && w.Elsewhere(s0, a[..])
      invariant forall x :: k <= x < w.n ==> w.Pick(a[..])[x] == a0[x]
      invariant forall x :: 0 <= x < k ==> w.Pick(a[..])[x] == (c * a0[x]) % p
    {
      ghost var b0 := a[..];
      PickAt(w, b0, k);
      var r := w.At(k);
      ScaleWord(a[r], ni, c, p, p0i);
      StoreAt(w, b0, k, ModpMontyMul(a[r], ni, p, p0i));
      a[r] := ModpMontyMul(a[r], ni, p, p0i);
      assert a[..] == b0[r := ModpMontyMul(b0[r], ni, p, p0i)];
      ElsewhereStays(w, s0, b0, a[..]);
      k := k + 1;
    }
    assert w.Pick(a[..]) == Scaled(c, a0, p);
  }

  lemma ScaleWord(x: U32, ni: U32, w: int, p: U31, p0i: U31)
    requires Reducer(p, p0i) && Monty(ni, w, p) && x < p
    ensures ModpMontyMul(x, ni, p, p0i) == (w * x) % p
  {
    hide *;
    MontyBy(x, ni, w, p, p0i);
    var r: int := ModpMontyMul(x, ni, p, p0i);
    assert x * w == w * x;
    CongMeaning(r, w * x, p);
    RemainderUnique(r, 0, r, p);
  }

  /** The inverse transform of the selected words, in place; no other word changes. */
  method ModpIntt2Ext(a: array<U32>, w: View, igm: seq<U32>, logn: nat, p: U31, p0i: U31, ghost tables: Tables)
    requires logn <= 10 && w.Fits(a.Length) && w.n == Pow2(logn) && Canonical(w.Pick(a[..]), p)
    requires Reducer(p, p0i) && tables.q == p && p > 0 && FilledInverse(igm, tables, logn, p)
    modifies a
    ensures Canonical(w.Pick(a[..]), p) && w.Pick(a[..]) == Backward(tables, w.Pick(old(a[..])), logn, HalfPower(logn, p))
    ensures w.stride > 0 && w.Elsewhere(old(a[..]), a[..])
  {
    hide *;
    ViewFits(w, a.Length);
    ghost var s0 := a[..];
    ghost var a0 := w.Pick(s0);
    ElsewhereSame(w, s0);
    if logn == 0 {
      BackwardLeaf(tables, a0, p);
      return;
    }
    ghost var k: nat := 0;
    var n: nat := Pow2(logn);
    var t: nat, m: nat := 1, n;
    SingletonBlocks(tables, a0, n, n);
    TopLevel(logn);
    LevelShape(k, logn, t, m);
    while m > 1
      invariant Level(k, logn, t, m) && Span(k, m) == n && w.Elsewhere(s0, a[..])
      invariant Canonical(w.Pick(a[..]), p) && w.Pick(a[..]) == InttBlocks(tables, a0, k, m, m)
      decreases m
    {
      LevelShape(k, logn, t, m);
      ghost var k1 := LevelUp(k, logn, t, m);
      ghost var b0 := a[..];
      var hm: nat := m / 2;
      ModpPassBack(a, w, igm, logn, hm, t, p, p0i, k1, tables);
      InverseStageRefines(tables, a0, k1, hm, hm);
      ElsewhereStays(w, s0, b0, a[..]);
      k, t, m := k1, 2 * t, hm;
    }
    LevelShape(k, logn, t, m);
    WholeBlock(tables, a0, logn, 1);
    BelowModulus(p, p0i);
    ShiftedRadix(logn, p);
    ShiftBound(logn);
    ghost var b := a[..];
    ModpScale(a, w, Pow2(31 - logn), p, p0i, HalfPower(logn, p));
    ElsewhereStays(w, s0, b, a[..]);
    BackwardIsIntt(tables, a0, logn, HalfPower(logn, p));
  }

  /** The inverse transform of contiguous coefficients, in place. */
  method ModpIntt2(a: array<U32>, igm: seq<U32>, logn: nat, p: U31, p0i: U31, ghost tables: Tables)
    requires logn <= 10 && a.Length == Pow2(logn) && Canonical(a[..], p)
    requires Reducer(p, p0i) && tables.q == p && p > 0 && FilledInverse(igm, tables, logn, p)
    modifies a
    ensures Canonical(a[..], p) && a[..] == Backward(tables, old(a[..]), logn, HalfPower(logn, p))
  {
    hide *;
    WholeView(a[..]);
    ModpIntt2Ext(a, View(0, 1, a.Length), igm, logn, p, p0i, tables);
    WholeView(a[..]);
  }

  lemma ShiftBound(logn: nat)
    requires logn <= 31
    ensures Pow2(31 - logn) < 0x1_0000_0000
  {
    Pow2Monotone(31 - logn, 31);
    Pow2Values();
  }

  lemma BackwardLeaf(t: Tables, a: Poly, p: U31)
    requires p > 0 && t.q == p && |a| == Pow2(0) && Canonical(a, p)
    ensures a == Backward(t, a, 0, HalfPower(0, p))
  {
    assert HalfPower(0, p) == 1;
    assert Intt(t, a, 0, 1) == a;
    hide HalfPower, Scaled, Intt, Canonical;
    ScaledOne(a, p);
  }

  lemma BackwardIsIntt(t: Tables, a: Poly, k: nat, ni: int)
    requires t.q > 0 && |a| == Pow2(k)
    ensures Backward(t, a, k, ni) == Scaled(ni, Intt(t, a, k, 1), t.q)
  {}
}
