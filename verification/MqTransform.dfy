/** The transform modulo 12289 and its inverse, in place on 16-bit words, as in crypto/vrfy.c. */
module MqTransform {
  import opened Words
  import opened Residues
  import opened Polynomials
  import opened NttTree
  import opened NttStages
  import opened NttInPlace
  import opened RootTables
  import opened Convolution
  import opened Mq

  /** The twiddle factors in plain representation: 7 has order 2048, and 8778 is 1/7. */
  function MqTables(): Tables { TablesOf(7, 8778, Q, 10) }

  /** The Montgomery representation of s. */
  function ToMonty(s: nat): Zq { (R * s) % Q }

  /** The source's table of twiddle factors, in Montgomery representation. */
  function GMb(k: nat): Zq { ToMonty(Pow(7, Rev(k, 10)) % Q) }

  /** The source's table of inverse twiddle factors, in Montgomery representation. */
  function IGMb(k: nat): Zq { ToMonty(Pow(8778, Rev(k, 10)) % Q) }

  lemma PowerOfSevenSquared(e: nat, r: int, r2: int)
    requires Cong(Pow(7, e), r, Q) && Cong(r * r, r2, Q)
    ensures Cong(Pow(7, 2 * e), r2, Q)
  {
    PowAdd(7, e, e);
    hide Cong, Pow;
    CongMul(Pow(7, e), r, Pow(7, e), r, Q);
    CongTrans(Pow(7, 2 * e), r * r, r2, Q);
  }

  /** 7 is a root of X^1024 + 1 modulo 12289; the first nontrivial table entry is 7888. */
  lemma SevenIsPrimitive()
    ensures Cong(Pow(7, 1024), -1, Q)
    ensures GMb(0) == 4091 && GMb(1) == 7888
  {
    assert Pow(7, 1) == 7 * Pow(7, 0);
    hide Pow;
    PowerOfSevenSquared(1, 7, 49);
    PowerOfSevenSquared(2, 49, 2401);
    PowerOfSevenSquared(4, 2401, 1260);
    PowerOfSevenSquared(8, 1260, 2319);
    PowerOfSevenSquared(16, 2319, 7468);
    PowerOfSevenSquared(32, 7468, 3542);
    PowerOfSevenSquared(64, 3542, 10984);
    PowerOfSevenSquared(128, 10984, 7143);
    PowerOfSevenSquared(256, 7143, 10810);
    PowerOfSevenSquared(512, 10810, -1);
    FirstEntries();
  }

  lemma FirstEntries()
    requires Cong(Pow(7, 512), 10810, Q)
    ensures GMb(0) == 4091 && GMb(1) == 7888
  {
    hide Pow;
    RevZero(10);
    RevOne(10);
    Pow2Values();
    PowZero(7);
  }

  lemma PowZero(x: int)
    ensures Pow(x, 0) == 1
  {}

  /** All the tables that logn from 0 to 10 needs are in place. */
  lemma MqReady(k: nat)
    requires k <= 10
    ensures Ready(MqTables(), k) && MqTables().q == Q
  {
    SevenIsPrimitive();
    Pow2Values();
    TablesValid(7, 8778, Q, 10);
  }

  /** Montgomery multiplication by R * s is plain multiplication by s. */
  lemma MontyByTwiddle(v: nat, s: nat)
    requires v < Q && s < Q
    ensures MqMontyMul(v, ToMonty(s)) == (s * v) % Q
  {
    var m := ToMonty(s);
    MontyMulMeaning(v, m);
    CongMod(R * s, Q);
    CongIntro(R * RINV, 1, 767, Q);
    hide Cong, MqMontyMul, ToMonty;
    CongScale(v * RINV, m, R * s, Q);
    CongScale(s * v, R * RINV, 1, Q);
    MulAssoc(v, RINV, m);
    MulAssoc(v, m, RINV);
    assert (v * RINV) * m == v * m * RINV;
    MulAssoc(s, v, R * RINV);
    MulAssoc(v, RINV, R * s);
    MulAssoc(RINV, R, s);
    assert (v * RINV) * (R * s) == (s * v) * (R * RINV);
    CongTrans(v * m * RINV, (s * v) * (R * RINV), s * v, Q);
    CongMeaning(v * m * RINV, s * v, Q);
  }

  lemma ModOfSum(u: int, w: int, q: int)
    requires q > 0
    ensures (u + w % q) % q == (u + w) % q && (u - w % q) % q == (u - w) % q
  {
    CongMod(w, q);
    CongShift(u, w % q, w, q);
    CongRefl(u, q);
    CongSub(u, u, w % q, w, q);
  }

  lemma AddSubWords(u: nat, w: int)
    requires u < Q
    ensures MqAdd(u, w % Q) == (u + w) % Q && MqSub(u, w % Q) == (u - w) % Q
  {
    hide MqAdd, MqSub;
    ModOfSum(u, w, Q);
  }

  /** The words of one butterfly are the folds by s and by -s. */
  lemma ButterflyWords(u: nat, v: nat, s: int)
    requires u < Q && v < Q && 0 <= s < Q
    ensures MqAdd(u, MqMontyMul(v, ToMonty(s))) == (u + s * v) % Q
    ensures MqSub(u, MqMontyMul(v, ToMonty(s))) == (u - s * v) % Q
  {
    hide MqMontyMul, ToMonty;
    MontyByTwiddle(v, s);
    AddSubWords(u, s * v);
  }

  /** The words of one inverse butterfly. */
  lemma UnbutterflyWords(u: nat, v: nat, s: nat)
    requires u < Q && v < Q && s < Q
    ensures MqAdd(u, v) == (u + v) % Q
    ensures MqMontyMul(MqSub(u, v), ToMonty(s)) == ((u - v) * s) % Q
  {
    hide MqAdd, MqSub, MqMontyMul;
    MontyByTwiddle((u - v) % Q, s);
    CongMod(u - v, Q);
    CongScale(s, (u - v) % Q, u - v, Q);
    assert s * (u - v) == (u - v) * s;
  }

  /** A folded word is a residue. */
  lemma FoldedRange(a: Poly, b: seq<U16>, j1: nat, ht: nat, s: int)
    requires Canonical(a, 12289) && (Folded(a, b, j1, ht, s, 12289) || Unfolded(a, b, j1, ht, s, 12289))
    ensures Canonical(b, 12289)
  {}

  lemma SmallWords(x: int)
    ensures Wrap16(x % 12289) == x % 12289
  {}

  /** The stored words of both butterflies. */
  lemma StoredButterfly(u: nat, v: nat, s: nat)
    requires u < Q && v < Q && s < Q
    ensures Wrap16(MqAdd(u, MqMontyMul(v, ToMonty(s)))) == (u + s * v) % 12289
    ensures Wrap16(MqSub(u, MqMontyMul(v, ToMonty(s)))) == (u - s * v) % 12289
    ensures Wrap16(MqAdd(u, v)) == (u + v) % 12289
    ensures Wrap16(MqMontyMul(MqSub(u, v), ToMonty(s))) == ((u - v) * s) % 12289
  {
    hide MqAdd, MqSub, MqMontyMul, ToMonty, Wrap16;
    ButterflyWords(u, v, s);
    UnbutterflyWords(u, v, s);
    SmallWords(u + s * v);
    SmallWords(u - s * v);
    SmallWords(u + v);
    SmallWords((u - v) * s);
  }

  /** The inner loop of the forward transform: one block of length 2 * ht. */
  method MqButterflyBlock(a: array<U16>, j1: nat, ht: nat, s: U16, ghost sp: nat)
    requires j1 + 2 * ht <= a.Length && sp < 12289 && s == ToMonty(sp)
    modifies a
    ensures Canonical(old(a[..]), 12289) ==> Folded(old(a[..]), a[..], j1, ht, sp, 12289) && Canonical(a[..], 12289)
  {
    hide MqAdd, MqSub, MqMontyMul, Wrap16, ToMonty;
    ghost var a0 := a[..];
    var j, j2 := j1, j1 + ht;
    while j < j2
      invariant j1 <= j <= j2
      invariant Canonical(a0, 12289) ==> forall x :: 0 <= x < a.Length ==> a[x] == FoldedWord(a0, j1, ht, j, sp, 12289, x)
    {
      var u := a[j];
      var v := MqMontyMul(a[j + ht], s);
      if Canonical(a0, 12289) {
        StoredButterfly(a0[j], a0[j + ht], sp);
      }
      a[j] := Wrap16(MqAdd(u, v));
      a[j + ht] := Wrap16(MqSub(u, v));
      j := j + 1;
    }
    if Canonical(a0, 12289) { FoldedRange(a0, a[..], j1, ht, sp); }
  }

  lemma TwiddleEntry(k: nat)
    requires k < 1024
    ensures 0 <= MqTables().S(k) < Q && GMb(k) == ToMonty(MqTables().S(k))
    ensures 0 <= MqTables().InvS(k) < Q && IGMb(k) == ToMonty(MqTables().InvS(k))
  {
    Pow2Values();
  }

  /** One pass of the forward loop: m blocks of length 2 * ht. */
  method MqPass(a: array<U16>, ghost k: nat, m: nat, ht: nat)
    requires k > 0 && ht == Pow2(k - 1) && 2 * m <= 1024 && a.Length == Span(k, m)
    modifies a
    ensures Canonical(old(a[..]), Q) ==> Canonical(a[..], Q) && a[..] == Stage(MqTables(), old(a[..]), k, m, m)
  {
    hide *;
    ghost var a0: seq<U16> := a[..];
    ghost var past: Poly, todo: Poly := [], a0;
    SpanEmpty(k);
    ModulusIsQ();
    EmptyPass(MqTables(), a0, k, m);
    var i, j1 := 0, 0;
    while i < m
      invariant i <= m && j1 == Span(k, i)
      invariant |past| == j1 && |past| + |todo| == a.Length
      invariant Canonical(a0, Q) ==> Passing(MqTables(), a0, a[..], k, m, i, past, todo) && Canonical(a[..], Q)
    {
      SpanStep(k, i, m);
      ghost var b0 := a[..];
      ghost var lo, hi, rest := NextBlock(todo, k);
      TwiddleEntry(m + i);
      MqButterflyBlock(a, j1, ht, GMb(m + i), MqTables().S(m + i));
      if Canonical(a0, Q) {
        FoldedCarriesPass(MqTables(), a0, b0, a[..], j1, ht, k, m, i, past, lo, hi, rest);
      }
      past, todo := past + (lo + hi), rest;
      i, j1 := i + 1, j1 + 2 * ht;
    }
    FullPass(MqTables(), a0, a[..], k, m, m, past, todo);
  }

  /** The transform in place. On reduced words it computes the transform of Convolution. */
  method MqNtt(a: array<U16>, logn: nat)
    requires logn <= 10 && a.Length == Pow2(logn)
    modifies a
    ensures Canonical(old(a[..]), Q) ==> Canonical(a[..], Q) && a[..] == Forward(MqTables(), old(a[..]), logn)
  {
    hide *;
    ghost var a0 := a[..];
    ghost var t := MqTables();
    ghost var k: nat := logn;
    var n: nat := Pow2(logn);
    var len: nat, m: nat := n, 1;
    SizeBound(logn);
    WholeBlock(t, a0, logn, 1);
    TopLevel(logn);
    while m < n
      invariant Level(k, logn, len, m) && Span(k, m) == n <= 1024 && t.q > 0
      invariant Canonical(a0, Q) ==> Canonical(a[..], Q) && NttBlocks(t, a[..], k, m, m) == Ntt(t, a0, logn, 1)
      decreases k
    {
      LevelShape(k, logn, len, m);
      ghost var k1 := LevelDown(k, logn, len, m);
      ghost var b0 := a[..];
      MqPass(a, k, m, len / 2);
      StageRefines(t, b0, k, m, m);
      k, len, m := k1, len / 2, 2 * m;
    }
    LevelShape(k, logn, len, m);
    SingletonBlocks(t, a[..], n, n);
    ForwardMeaning(t, a0, logn);
  }

  lemma ModulusIsQ()
    ensures MqTables().q == Q && Q == 12289
  {}

  lemma SizeBound(logn: nat)
    requires logn <= 10
    ensures Pow2(logn) <= 1024 && MqTables().q == 12289
  {
    Pow2Values();
    Pow2Monotone(logn, 10);
  }
}
