/** The transforms of contracts/DFVRF_NTT.sol: 256-bit words, exact modular multiplication, packed coefficients. */
module SolidityNtt {
  import opened Words
  import opened Residues
  import opened BitStrings
  import opened Polynomials
  import opened NttTree
  import opened NttStages
  import opened NttInPlace
  import opened RootTables
  import opened Convolution
  import opened Mq
  import opened MqTransform
  import opened MqInverse

  /** The contract's tables, by the formula that generates them. */
  function PsiRev(k: nat): nat { Pow(7, Rev(k, 10)) % Q }

  function PsiInvRev(k: nat): nat { Pow(8778, Rev(k, 10)) % Q }

  /** 1/512 modulo q, as the contract stores it. */
  const NM1: nat := 12265

  function MulMod(x: nat, y: nat, q: nat): nat
    requires q > 0
  {
    (x * y) % q
  }

  function AddMod(x: nat, y: nat, q: nat): nat
    requires q > 0
  {
    (x + y) % q
  }

  lemma PsiEntry(k: nat)
    requires k < 1024
    ensures PsiRev(k) == MqTables().S(k) && PsiInvRev(k) == MqTables().InvS(k)
  {
    Pow2Values();
  }

  /** One butterfly: the difference is formed as U + (q - V). */
  lemma SolButterfly(u: nat, v: nat, s: nat)
    ensures MulMod(v, s, 12289) < 12289
    ensures AddMod(u, MulMod(v, s, 12289), 12289) == (u + s * v) % 12289
    ensures AddMod(u, 12289 - MulMod(v, s, 12289), 12289) == (u - s * v) % 12289
  {
    var w := s * v;
    assert v * s == w;
    ModOfSum(u, w, 12289);
    CongIntro(u + (12289 - w % 12289), u - w % 12289, 1, 12289);
  }

  lemma SolUnbutterfly(u: nat, v: nat, s: nat)
    requires v <= 12289
    ensures MulMod(AddMod(u, 12289 - v, 12289), s, 12289) == ((u - v) * s) % 12289
  {
    var d := u + (12289 - v);
    CongMod(d, 12289);
    CongIntro(d, u - v, 1, 12289);
    hide Cong;
    CongTrans(d % 12289, d, u - v, 12289);
    CongScale(s, d % 12289, u - v, 12289);
    assert s * (d % 12289) == (d % 12289) * s && s * (u - v) == (u - v) * s;
    CongMeaning((d % 12289) * s, (u - v) * s, 12289);
  }

  /** The inner loop of the forward transform, on any words. */
  method SolBlock(a: array<nat>, j1: nat, t: nat, s: nat)
    requires j1 + 2 * t <= a.Length
    modifies a
    ensures Folded(old(a[..]), a[..], j1, t, s, 12289)
  {
    hide MulMod, AddMod;
    ghost var a0 := a[..];
    var j := j1;
    while j < j1 + t
      invariant j1 <= j <= j1 + t
      invariant forall x :: 0 <= x < a.Length ==> a[x] == FoldedWord(a0, j1, t, j, s, 12289, x)
    {
      var u := a[j];
      SolButterfly(u, a[j + t], s);
      var v := MulMod(a[j + t], s, 12289);
      a[j] := AddMod(u, v, 12289);
      a[j + t] := AddMod(u, 12289 - v, 12289);
      j := j + 1;
    }
  }

  lemma SolUnbutterflySum(u: nat, v: nat)
    ensures AddMod(u, v, 12289) == (u + v) % 12289
  {}

  /** The inner loop of the inverse transform, on reduced words. */
  method SolBlockBack(a: array<nat>, j1: nat, t: nat, s: nat)
    requires j1 + 2 * t <= a.Length && Canonical(a[..], 12289)
    modifies a
    ensures Unfolded(old(a[..]), a[..], j1, t, s, 12289) && Canonical(a[..], 12289)
  {
    hide MulMod, AddMod;
    ghost var a0 := a[..];
    var j := j1;
    while j < j1 + t
      invariant j1 <= j <= j1 + t
      invariant forall x :: 0 <= x < a.Length ==> a[x] == UnfoldedWord(a0, j1, t, j, s, 12289, x)
    {
      var u, v := a[j], a[j + t];
      SolUnbutterfly(u, v, s);
      SolUnbutterflySum(u, v);
      a[j] := AddMod(u, v, 12289);
      a[j + t] := MulMod(AddMod(u, 12289 - v, 12289), s, 12289);
      j := j + 1;
    }
  }

  method SolPass(a: array<nat>, m: nat, t: nat, ghost k: nat)
    requires k > 0 && t == Pow2(k - 1) && 2 * m <= 1024 && a.Length == Span(k, m)
    modifies a
    ensures a[..] == Stage(MqTables(), old(a[..]), k, m, m)
  {
    hide *;
    ghost var a0: seq<nat> := a[..];
    ghost var past: Poly, todo: Poly := [], a0;
    SpanEmpty(k);
    ModulusIsQ();
    EmptyPass(MqTables(), a0, k, m);
    var i, j1 := 0, 0;
    while i < m
      invariant i <= m && j1 == Span(k, i)
      invariant |past| == j1 && |past| + |todo| == a.Length
      invariant Passing(MqTables(), a0, a[..], k, m, i, past, todo)
    {
      SpanStep(k, i, m);
      ghost var b0 := a[..];
      ghost var lo, hi, rest := NextBlock(todo, k);
      PsiEntry(m + i);
      SolBlock(a, j1, t, PsiRev(m + i));
      FoldedCarriesPass(MqTables(), a0, b0, a[..], j1, t, k, m, i, past, lo, hi, rest);
      past, todo := past + (lo + hi), rest;
      i, j1 := i + 1, j1 + 2 * t;
    }
    FullPass(MqTables(), a0, a[..], k, m, m, past, todo);
  }

  /** The forward transform, on any words: it computes what the transform of crypto/vrfy.c computes. */
  method NttFw(a: array<nat>, logn: nat)
    requires logn <= 9 && a.Length == Pow2(logn)
    modifies a
    ensures a[..] == Forward(MqTables(), old(a[..]), logn)
  {
    hide *;
    ghost var a0 := a[..];
    ghost var tables := MqTables();
    ghost var k: nat := logn;
    var n: nat := Pow2(logn);
    var t: nat, m: nat := n, 1;
    SizeBound(logn);
    WholeBlock(tables, a0, logn, 1);
    TopLevel(logn);
    while m < n
      invariant Level(k, logn, t, m) && Span(k, m) == n <= 1024 && tables.q > 0
      invariant NttBlocks(tables, a[..], k, m, m) == Ntt(tables, a0, logn, 1)
      decreases k
    {
      LevelShape(k, logn, t, m);
      ghost var k1 := LevelDown(k, logn, t, m);
      ghost var b0 := a[..];
      t := t / 2;
      SolPass(a, m, t, k);
      StageRefines(tables, b0, k, m, m);
      k, m := k1, 2 * m;
    }
    LevelShape(k, logn, t, m);
    SingletonBlocks(tables, a[..], n, n);
    ForwardMeaning(tables, a0, logn);
  }

  method SolPassBack(a: array<nat>, h: nat, t: nat, ghost k: nat)
    requires k > 0 && t == Pow2(k - 1) && 2 * h <= 1024 && a.Length == Span(k, h) && Canonical(a[..], 12289)
    modifies a
    ensures a[..] == InverseStage(MqTables(), old(a[..]), k, h, h) && Canonical(a[..], 12289)
  {
    hide *;
    ghost var a0: seq<nat> := a[..];
    ghost var past: Poly, todo: Poly := [], a0;
    SpanEmpty(k);
    ModulusIsQ();
    EmptyPass(MqTables(), a0, k, h);
    var i, j1 := 0, 0;
    while i < h
      invariant i <= h && j1 == Span(k, i)
      invariant |past| == j1 && |past| + |todo| == a.Length
      invariant PassingBack(MqTables(), a0, a[..], k, h, i, past, todo) && Canonical(a[..], 12289)
    {
      SpanStep(k, i, h);
      ghost var b0 := a[..];
      ghost var lo, hi, rest := NextBlock(todo, k);
      PsiEntry(h + i);
      SolBlockBack(a, j1, t, PsiInvRev(h + i));
      UnfoldedCarriesPass(MqTables(), a0, b0, a[..], j1, t, k, h, i, past, lo, hi, rest);
      past, todo := past + (lo + hi), rest;
      i, j1 := i + 1, j1 + 2 * t;
    }
    FullPass(MqTables(), a0, a[..], k, h, h, past, todo);
  }

  /** The stored constant is the inverse of 512. */
  lemma NM1Meaning()
    ensures InvN(9) == NM1
  {
    InvNMeaning(9);
    Pow2Values();
    CongIntro(12265 * 512, 1, 511, 12289);
    hide InvN, Pow2;
    assert InvN(9) * 512 == 512 * InvN(9);
    CongCancel(512, 12265, InvN(9), 12265, 12289);
    CongCanonical(InvN(9), 12265, 12289);
  }

  /** The inverse transform for n = 512, on reduced words: what the inverse of crypto/vrfy.c computes. */
  method NttInv(a: array<nat>)
    requires a.Length == Pow2(9) && Canonical(a[..], 12289)
    modifies a
    ensures a[..] == Backward(MqTables(), old(a[..]), 9, InvN(9)) && Canonical(a[..], 12289)
  {
    hide *;
    ghost var a0 := a[..];
    ghost var tables := MqTables();
    ghost var k: nat := 0;
    var n: nat := Pow2(9);
    var t: nat, m: nat := 1, n;
    SizeBound(9);
    SingletonBlocks(tables, a0, n, n);
    TopLevel(9);
    LevelShape(k, 9, t, m);
    while m > 1
      invariant Level(k, 9, t, m) && Span(k, m) == n <= 1024 && tables.q > 0
      invariant Canonical(a[..], 12289) && a[..] == InttBlocks(tables, a0, k, m, m)
      decreases m
    {
      LevelShape(k, 9, t, m);
      ghost var k1 := LevelUp(k, 9, t, m);
      var h: nat := m / 2;
      SolPassBack(a, h, t, k1);
      InverseStageRefines(tables, a0, k1, h, h);
      k, t, m := k1, 2 * t, h;
    }
    LevelShape(k, 9, t, m);
    WholeBlock(tables, a0, 9, 1);
    ScaleAll(a, 12265);
    NM1Meaning();
    NM1Value();
    BackwardMeaning(a0, 9);
  }

  lemma NM1Value()
    ensures NM1 == 12265 && Q == 12289
  {}

  /** The final loop: every word times a constant. */
  method ScaleAll(a: array<nat>, c: nat)
    modifies a
    ensures a[..] == Scaled(c, old(a[..]), 12289)
  {
    ghost var a0 := a[..];
    var m := 0;
    while m < a.Length
      invariant 0 <= m <= a.Length
      invariant forall x :: m <= x < a.Length ==> a[x] == a0[x]
      invariant forall x :: 0 <= x < m ==> a[x] == (c * a0[x]) % 12289
    {
      assert a[m] * c == c * a[m];
      a[m] := MulMod(a[m], c, 12289);
      m := m + 1;
    }
    assert a[..] == Scaled(c, a0, 12289);
  }

  method VecMulMod(a: seq<nat>, b: seq<nat>) returns (res: array<nat>)
    requires |a| == |b|
    ensures fresh(res) && res[..] == Pointwise(a, b, 12289) && Canonical(res[..], 12289)
  {
    res := new nat[|a|];
    var i := 0;
    while i < |a|
      invariant 0 <= i <= |a|
      invariant forall x :: 0 <= x < i ==> res[x] == (a[x] * b[x]) % 12289
    {
      res[i] := MulMod(a[i], b[i], 12289);
      i := i + 1;
    }
    assert res[..] == Pointwise(a, b, 12289);
  }

  /** The product of a reduced polynomial and a transformed one is their negacyclic product. */
  lemma HalfMulMeaning(a: Poly, b: Poly, v: Poly)
    requires |a| == |b| == |v| == Pow2(9) && Canonical(a, 12289)
    requires v == Pointwise(Forward(MqTables(), a, 9), Forward(MqTables(), Reduce(b, 12289), 9), 12289)
    ensures Backward(MqTables(), v, 9, InvN(9)) == Reduce(Product(a, b), 12289)
  {
    hide *;
    var t := MqTables();
    MqReady(9);
    ModulusIsQ();
    InvNMeaning(9);
    ReduceCanonical(a, 12289);
    ForwardProduct(t, a, b, 9);
    ReduceCong(Product(a, b), 12289);
    BackwardForward(t, Reduce(Product(a, b), 12289), 9, InvN(9));
  }

  /** Multiplication by a polynomial in transformed representation. */
  method HalfMul(a: array<nat>, b: seq<nat>, ghost bp: Poly) returns (res: array<nat>)
    requires a.Length == |b| == |bp| == Pow2(9) && Canonical(a[..], 12289)
    requires b == Forward(MqTables(), Reduce(bp, 12289), 9)
    modifies a
    ensures fresh(res) && res.Length == Pow2(9) && res[..] == Reduce(Product(old(a[..]), bp), 12289)
    ensures Canonical(res[..], 12289)
  {
    hide Forward, Backward, MqTables, Product, Reduce, Pointwise, InvN, Pow2, Canonical;
    ModulusIsQ();
    ghost var a0: seq<nat> := a[..];
    NttFw(a, 9);
    res := VecMulMod(a[..], b);
    HalfMulMeaning(a0, bp, res[..]);
    NttInv(res);
  }

  // ---- Sixteen coefficients per word ----

  /** The word whose 16-bit fields, lowest first, are the entries of c. */
  function PackWord(c: seq<nat>): nat {
    if |c| == 0 then 0 else PackWord(c[..|c| - 1]) + c[|c| - 1] * Pow2(16 * (|c| - 1))
  }

  /** Slot j of a word. */
  function Slot(w: nat, j: nat): nat { Shr(w, 16 * j) % 0x1_0000 }

  /** Bitwise exclusive or. */
  function Xor(a: nat, b: nat): nat
    decreases a + b
  {
    if a == 0 && b == 0 then 0 else 2 * Xor(a / 2, b / 2) + (a % 2 + b % 2) % 2
  }

  /** Words without common bits: the exclusive or is the sum. */
  lemma {:induction false} XorDisjoint(a: nat, c: nat, k: nat)
    requires a < Pow2(k)
    ensures c * Pow2(k) >= 0 && Xor(a, c * Pow2(k)) == a + c * Pow2(k)
    decreases k
  {
    assert c * Pow2(k) >= 0;
    if k > 0 {
      hide Xor;
      var h := c * Pow2(k - 1);
      XorDisjoint(a / 2, c, k - 1);
      DoubleProduct(Pow2(k - 1), c);
      assert c * (2 * Pow2(k - 1)) == 2 * h;
      XorEven(a, h);
    } else {
      XorZero(c);
    }
  }

  lemma {:induction false} XorZero(c: nat)
    ensures Xor(0, c) == c
  {
    if c > 0 { XorZero(c / 2); }
  }

  lemma XorEven(a: nat, h: nat)
    ensures Xor(a, 2 * h) == 2 * Xor(a / 2, h) + a % 2
  {
    assert (2 * h) / 2 == h && (2 * h) % 2 == 0;
  }

  ghost predicate Fields(c: seq<nat>) {
    forall j :: 0 <= j < |c| ==> c[j] < 0x1_0000
  }

  lemma FieldPower(n: nat)
    ensures Pow2(16 * n + 16) == 0x1_0000 * Pow2(16 * n)
  {
    Pow2Add(16, 16 * n);
    Pow2Values();
  }

  lemma {:induction false} PackBound(c: seq<nat>)
    requires Fields(c)
    ensures PackWord(c) < Pow2(16 * |c|)
  {
    if |c| > 0 {
      var n := |c| - 1;
      PackBound(c[..n]);
      FieldPower(n);
      MulLe(Pow2(16 * n), c[n], 0xFFFF);
      assert c[n] * Pow2(16 * n) <= 0xFFFF * Pow2(16 * n);
    }
  }

  /** Adding one more field by exclusive or. */
  lemma PackNext(c: seq<nat>, v: nat)
    requires Fields(c)
    ensures v * Pow2(16 * |c|) >= 0 && Xor(PackWord(c), v * Pow2(16 * |c|)) == PackWord(c + [v])
  {
    PackBound(c);
    XorDisjoint(PackWord(c), v, 16 * |c|);
    assert (c + [v])[..|c|] == c;
  }

  lemma {:induction false} ShrSum(x: nat, c: nat, k: nat)
    ensures c * Pow2(k) >= 0 && Shr(x + c * Pow2(k), k) == Shr(x, k) + c
    decreases k
  {
    assert c * Pow2(k) >= 0;
    if k > 0 {
      var h := c * Pow2(k - 1);
      DoubleProduct(Pow2(k - 1), c);
      assert c * (2 * Pow2(k - 1)) == 2 * h;
      assert (x + 2 * h) / 2 == x / 2 + h;
      ShrSum(x / 2, c, k - 1);
    }
  }

  /** Unpacking undoes packing. */
  lemma {:induction false} FieldOfPack(c: seq<nat>, j: nat)
    requires Fields(c) && j < |c|
    ensures Slot(PackWord(c), j) == c[j]
  {
    hide Pow2, Shr;
    var n := |c| - 1;
    var lo, v := PackWord(c[..n]), c[n];
    PackBound(c[..n]);
    if j == n {
      ShrPushed(lo, v, 16 * n);
      RemainderUnique(v, 0, v, 0x1_0000);
    } else {
      FieldOfPack(c[..n], j);
      HigherField(lo, v, 16 * j, 16 * (n - j - 1));
    }
  }

  /** A field above the next one does not show in this one. */
  lemma HigherField(lo: nat, v: nat, k: nat, e: nat)
    ensures lo + v * Pow2(16 + e + k) >= 0 && Shr(lo + v * Pow2(16 + e + k), k) % 0x1_0000 == Shr(lo, k) % 0x1_0000
  {
    hide *;
    Pow2Add(16 + e, k);
    Pow2Add(16, e);
    Pow2Values();
    MulAssoc(v, Pow2(16 + e), Pow2(k));
    ShrSum(lo, v * Pow2(16 + e), k);
    MulAssoc(v, 0x1_0000, Pow2(e));
    assert v * Pow2(16 + e) == (v * Pow2(e)) * 0x1_0000;
    AddMultiple(Shr(lo, k), v * Pow2(e), 0x1_0000);
    CongMeaning(Shr(lo, k) + (v * Pow2(e)) * 0x1_0000, Shr(lo, k), 0x1_0000);
  }

  function FieldsOf(w: nat, n: nat): (c: seq<nat>)
    ensures |c| == n
  {
    seq(n, j requires 0 <= j < n => Slot(w, j))
  }

  /** Packing undoes unpacking. */
  lemma {:induction false} PackOfFields(w: nat, n: nat)
    ensures PackWord(FieldsOf(w, n)) == w % Pow2(16 * n)
    decreases n
  {
    if n > 0 {
      var m := n - 1;
      var c := FieldsOf(w, n);
      assert c[..m] == FieldsOf(w, m);
      PackOfFields(w, m);
      SplitRemainder(w, m);
    } else {
      assert w % 1 == 0;
    }
  }

  lemma SplitRemainder(w: nat, m: nat)
    ensures w % Pow2(16 * m + 16) == w % Pow2(16 * m) + Slot(w, m) * Pow2(16 * m)
  {
    var p := Pow2(16 * m);
    var s := Shr(w, 16 * m);
    ShrValue(w, 16 * m);
    FieldPower(m);
    hide *;
    SlotMeaning(w, m);
    var f, g := s % 0x1_0000, s / 0x1_0000;
    assert s == g * 0x1_0000 + f;
    MulAdd(p, g * 0x1_0000, f);
    MulAssoc(g, 0x1_0000, p);
    RemainderBound(w, p);
    MulLe(p, f, 0xFFFF);
    assert f * p == p * f;
    RemainderUnique(w, g, w % p + f * p, 0x1_0000 * p);
  }

  lemma SlotMeaning(w: nat, m: nat)
    ensures Slot(w, m) == Shr(w, 16 * m) % 0x1_0000
  {}

  /** All fields of 32 words, in order. */
  function AllFields(a: seq<nat>): (b: seq<nat>)
    requires |a| == 32
    ensures |b| == 512
  {
    seq(512, x requires 0 <= x < 512 => Slot(a[x / 16], x % 16))
  }

  method Expand(a: seq<nat>) returns (b: array<nat>)
    requires |a| == 32
    ensures fresh(b) && b[..] == AllFields(a) && Fields(b[..])
  {
    hide Slot;
    b := new nat[512];
    var i := 0;
    while i < 32
      invariant 0 <= i <= 32
      invariant forall x :: 0 <= x < 16 * i ==> b[x] == Slot(a[x / 16], x % 16)
    {
      var j := 0;
      while j < 16
        invariant 0 <= j <= 16
        invariant forall x :: 0 <= x < 16 * i + j ==> b[x] == Slot(a[x / 16], x % 16)
      {
        b[16 * i + j] := Slot(a[i], j);
        j := j + 1;
      }
      i := i + 1;
    }
    assert b[..] == AllFields(a);
    forall x | 0 <= x < 512 ensures b[x] < 0x1_0000 { FieldRange(a[x / 16], x % 16); }
  }

  lemma FieldRange(w: nat, j: nat)
    ensures 0 <= Slot(w, j) < 0x1_0000
  {}

  /** Every word packs its sixteen coefficients. */
  ghost predicate Compacted(a: seq<nat>, b: seq<nat>) {
    |a| == 512 && |b| == 32 && forall i :: 0 <= i < 32 ==> b[i] == PackWord(a[16 * i..16 * i + 16])
  }

  method Compact(a: seq<nat>) returns (b: array<nat>)
    requires |a| == 512 && Fields(a)
    ensures fresh(b) && Compacted(a, b[..])
  {
    hide PackWord, Xor, Pow2;
    b := new nat[32](i => 0);
    var i := 0;
    PackEmpty();
    while i < 512
      invariant 0 <= i <= 512
      invariant forall k :: 0 <= k < i / 16 ==> b[k] == PackWord(a[16 * k..16 * k + 16])
      invariant i < 512 ==> b[i / 16] == PackWord(a[16 * (i / 16)..i])
      invariant forall k :: i / 16 < k < 32 ==> b[k] == 0
    {
      var k := i / 16;
      ghost var c := a[16 * k..i];
      PackNext(c, a[i]);
      assert c + [a[i]] == a[16 * k..i + 1];
      b[k] := Xor(b[k], a[i] * Pow2(16 * (i % 16)));
      i := i + 1;
      if i % 16 == 0 && i < 512 { assert a[16 * (i / 16)..i] == []; }
    }
  }

  lemma PackEmpty()
    ensures PackWord([]) == 0
  {}

  /** Unpacking what was packed gives the coefficients back. */
  lemma ExpandCompact(a: seq<nat>, w: seq<nat>)
    requires Fields(a) && Compacted(a, w)
    ensures AllFields(w) == a
  {
    hide PackWord, Slot;
    forall x | 0 <= x < 512 ensures AllFields(w)[x] == a[x] {
      var i, j := x / 16, x % 16;
      var c := a[16 * i..16 * i + 16];
      FieldOfPack(c, j);
      assert c[j] == a[x];
    }
  }

  /** Packing what was unpacked gives the words back. */
  lemma CompactExpand(w: seq<nat>, v: seq<nat>)
    requires |w| == 32 && Compacted(AllFields(w), v) && forall i :: 0 <= i < 32 ==> w[i] < Pow2(256)
    ensures v == w
  {
    hide PackWord, Slot, Pow2;
    forall i | 0 <= i < 32 ensures v[i] == w[i] {
      var c := AllFields(w)[16 * i..16 * i + 16];
      forall j | 0 <= j < 16 ensures c[j] == FieldsOf(w[i], 16)[j] {
        assert (16 * i + j) / 16 == i && (16 * i + j) % 16 == j;
      }
      assert c == FieldsOf(w[i], 16);
      PackOfFields(w[i], 16);
      RemainderUnique(w[i], 0, w[i], Pow2(256));
    }
  }

  /** Packed multiplication: the fields of the result are the coefficients of the product. */
  method HalfMulCompact(a: seq<nat>, b: seq<nat>, ghost bp: Poly) returns (res: array<nat>)
    requires |a| == |b| == 32 && |bp| == Pow2(9) && Canonical(AllFields(a), 12289)
    requires AllFields(b) == Forward(MqTables(), Reduce(bp, 12289), 9)
    ensures Compacted(Reduce(Product(AllFields(a), bp), 12289), res[..])
  {
    hide Forward, MqTables, Product, Reduce, PackWord, Slot, Pow2;
    Pow2Values();
    var ea := Expand(a);
    var eb := Expand(b);
    var r := HalfMul(ea, eb[..], bp);
    res := Compact(r[..]);
  }
}
