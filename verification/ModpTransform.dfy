/** Twiddle tables and the in-place transform modulo a 31-bit prime, as in crypto/keygen.c. */
module ModpTransform {
  import opened Words
  import opened Residues
  import opened Fermat
  import opened NttTree
  import opened RootTables
  import opened Convolution
  import opened Modp

  lemma ShiftStep(e: nat, i: nat)
    ensures Shr(e, i) == 2 * Shr(e, i + 1) + Shr(e, i) % 2 && Shr(e, 0) == e
  {
    ShrNext(e, i);
  }

  /** One round of square-and-multiply on the exponent e. */
  lemma ExponentRound(z: U32, b: U32, c: int, e: nat, p: U31, p0i: U31)
    requires Reducer(p, p0i) && Monty(z, Pow(c, e), p) && Monty(b, c, p)
    ensures var s := ModpMontyMul(z, z, p, p0i); Monty(s, Pow(c, 2 * e), p)
    ensures var s := ModpMontyMul(z, z, p, p0i); Monty(ModpMontyMul(s, b, p, p0i), Pow(c, 2 * e + 1), p)
  {
    hide *;
    var s := ModpMontyMul(z, z, p, p0i);
    MontyProduct(z, Pow(c, e), z, Pow(c, e), p, p0i);
    PowAdd(c, e, e);
    MontyProduct(s, Pow(c, 2 * e), b, c, p, p0i);
    PowAdd(c, 2 * e, 1);
    PowFirst(c);
  }

  lemma PowFirst(c: int)
    ensures Pow(c, 1) == c && Pow(c, 0) == 1
  {
    assert Pow(c, 1) == c * Pow(c, 0);
  }

  /**
   a / b for b = 2^31 * c, by the exponent p - 2: the result is a / 2^31 * c^(p - 2).
   For a prime p and b not 0 this is the quotient.
   */
  method ModpDiv(a: U32, b: U32, p: U31, p0i: U31, ghost c: int) returns (r: U32)
    requires Reducer(p, p0i) && a < p && Monty(b, c, p)
    ensures r < p && Cong(0x8000_0000 * r, a * Pow(c, p - 2), p)
    ensures Prime(p) && b != 0 ==> Cong(r * b, a, p)
  {
    hide *;
    ReducerMeaning(p, p0i);
    BelowModulus(p, p0i);
    var e := p - 2;
    var z: U32 := ModpR(p);
    MontyOne(p);
    PowFirst(c);
    ShrBound(e, 31, 31);
    Pow2Zero();
    var i := 31;
    while i > 0
      invariant 0 <= i <= 31 && Monty(z, Pow(c, Shr(e, i)), p)
    {
      i := i - 1;
      ShiftStep(e, i);
      ExponentRound(z, b, c, Shr(e, i + 1), p, p0i);
      z := ModpMontyMul(z, z, p, p0i);
      var z2 := ModpMontyMul(z, b, p, p0i);
      if Shr(e, i) % 2 == 1 { z := z2; }
    }
    ShiftStep(e, 0);
    ghost var w := Pow(c, p - 2);
    LeaveMonty(z, w, p, p0i);
    z := ModpMontyMul(z, 1, p, p0i);
    MontyMeaning(a, z, p, p0i);
    r := ModpMontyMul(a, z, p, p0i);
    CongScale(a, z, w, p);
    CongTrans(0x8000_0000 * r, a * z, a * w, p);
    QuotientByFermat(r, a, b, c, p);
  }

  lemma BelowModulus(p: U31, p0i: U31)
    requires Reducer(p, p0i)
    ensures 0x4000_0000 < p < Pow2(31) && p % 2 == 1 && Modulus(p)
  {
    Pow2Values();
  }

  lemma LeaveMonty(z: U32, w: int, p: U31, p0i: U31)
    requires Reducer(p, p0i) && Monty(z, w, p)
    ensures ModpMontyMul(z, 1, p, p0i) < p && Cong(ModpMontyMul(z, 1, p, p0i), w, p)
  {
    hide *;
    ReducerMeaning(p, p0i);
    MontyElim(z, w, p);
    MontyMeaning(z, 1, p, p0i);
    var r: int := ModpMontyMul(z, 1, p, p0i);
    CongTrans(0x8000_0000 * r, z * 1, 0x8000_0000 * w, p);
    CancelRadix31(r, w, p, p0i);
  }

  lemma QuotientByFermat(r: int, a: int, b: nat, c: int, p: U31)
    requires p > 2 && Monty(b, c, p) && Cong(0x8000_0000 * r, a * Pow(c, p - 2), p)
    ensures Prime(p) && b != 0 ==> Cong(r * b, a, p)
  {
    if Prime(p) && b != 0 {
      if c % p == 0 {
        CongMeaning(c, 0, p);
        CongScale(0x8000_0000, c, 0, p);
        CongCanonical(b, 0, p);
      }
      var d := c % p;
      FermatInverse(p, d);
      CongMod(c, p);
      PowCong(d, c, p - 2, p);
      hide *;
      MontyElim(b, c, p);
      var w, w' := Pow(c, p - 2), Pow(d, p - 2);
      CongMul(d, c, w', w, p);
      CongTrans(c * w, d * w', 1, p);
      CongScale(r, b, 0x8000_0000 * c, p);
      CongScale(c, 0x8000_0000 * r, a * w, p);
      CongScale(a, c * w, 1, p);
      MulAssoc(0x8000_0000, r, c);
      MulAssoc(a, c, w);
      assert r * (0x8000_0000 * c) == c * (0x8000_0000 * r);
      assert c * (a * w) == a * (c * w);
      CongTrans(r * b, c * (0x8000_0000 * r), a * (c * w), p);
      CongTrans(r * b, a * (c * w), a, p);
    }
  }

  /** g is a primitive 2048-th root of unity modulo p. */
  ghost predicate Generator(g: nat, p: U31) {
    Modulus(p) && p % 2048 == 1 && g < p && Cong(Pow(g, 1024), -1, p)
  }

  /** The inverse of g: its power p - 2, as g^2048 is 1. */
  function Inverse(g: nat, p: U31): int
    requires p >= 2
  {
    Pow(g, p - 2)
  }

  lemma GeneratorInverse(g: nat, p: U31)
    requires Generator(g, p)
    ensures Cong(g * Inverse(g, p), 1, p)
  {
    var k := p / 2048;
    assert p - 1 == 2048 * k;
    assert Pow(g, p - 1) == g * Pow(g, p - 2);
    PowPow(g, 2048, k);
    PowAdd(g, 1024, 1024);
    hide Pow, Cong;
    CongMul(Pow(g, 1024), -1, Pow(g, 1024), -1, p);
    CongTrans(Pow(g, 2048), (-1) * (-1), 1, p);
    PowCong(Pow(g, 2048), 1, k, p);
    PowOne(k);
    CongTrans(Pow(g, p - 1), Pow(1, k), 1, p);
  }

  /** The twiddle factors modulo p in plain representation. */
  function KeyTables(g: nat, p: U31): Tables
    requires p >= 2
  {
    TablesOf(g, Inverse(g, p), p, 10)
  }

  lemma KeyReady(g: nat, p: U31, k: nat)
    requires Generator(g, p) && k <= 10
    ensures Ready(KeyTables(g, p), k) && KeyTables(g, p).q == p
  {
    Pow2Values();
    GeneratorInverse(g, p);
    TablesValid(g, Inverse(g, p), p, 10);
  }

  /** gm holds the twiddle factors of a transform of length 2^logn in Montgomery representation. */
  ghost predicate Filled(gm: seq<U32>, t: Tables, logn: nat, p: U31) {
    |gm| >= Pow2(logn) && forall v: nat :: v < Pow2(logn) ==> Monty(gm[v], t.S(v), p)
  }

  ghost predicate FilledInverse(igm: seq<U32>, t: Tables, logn: nat, p: U31) {
    |igm| >= Pow2(logn) && forall v: nat :: v < Pow2(logn) ==> Monty(igm[v], t.InvS(v), p)
  }

  // ---- Bit reversal is an involution, and shifts commute with it ----

  /** Appending a top bit x0 puts it lowest in the reversal. */
  lemma {:induction false} RevSplit(y: nat, top: bool, b: nat)
    requires b > 0 && y < Pow2(b - 1)
    ensures Rev(if top then y + Pow2(b - 1) else y, b) == 2 * Rev(y, b - 1) + (if top then 1 else 0)
    decreases b
  {
    if b > 1 { RevSplit(y / 2, top, b - 1); }
  }

  lemma {:induction false} RevRev(x: nat, b: nat)
    requires x < Pow2(b)
    ensures Rev(Rev(x, b), b) == x && Rev(x, b) < Pow2(b)
    decreases b
  {
    RevBound(x, b);
    if b > 0 {
      RevRev(x / 2, b - 1);
      RevBound(x / 2, b - 1);
      RevSplit(Rev(x / 2, b - 1), x % 2 == 1, b);
    }
  }

  lemma RevDouble(y: nat, b: nat)
    requires b > 0
    ensures Rev(2 * y, b) == Rev(y, b - 1)
  {
    assert (2 * y) % 2 == 0 && (2 * y) / 2 == y;
  }

  lemma {:induction false} RevShr(x: nat, b: nat, k: nat)
    ensures Rev(x * Pow2(k), b + k) == Rev(x, b)
    decreases k
  {
    if k > 0 {
      RevShr(x, b, k - 1);
      DoubleProduct(Pow2(k - 1), x);
      var h := Pow2(k - 1);
      assert x * (2 * h) == 2 * (x * h);
      RevDouble(x * h, b + k);
    }
  }

  lemma {:induction false} RevWidened(x: nat, b: nat, k: nat)
    requires x < Pow2(b)
    ensures Rev(x, b + k) == Pow2(k) * Rev(x, b)
    decreases k
  {
    if k > 0 {
      RevWidened(x, b, k - 1);
      Pow2Monotone(b, b + k - 1);
      RevWiden(x, b + k - 1);
      DoubleProduct(Pow2(k - 1), Rev(x, b));
    }
  }

  /** The source's table of 10-bit reversals. */
  function Rev10(x: nat): nat { Rev(x, 10) }

  /** Slot v is filled in round Rev(v), with that power of the root of unity of order 2n. */
  lemma SlotOfRound(u: nat, logn: nat)
    requires logn <= 10 && u < Pow2(logn)
    ensures var v := Rev10(u * Pow2(10 - logn));
      v == Rev(u, logn) < Pow2(logn) && Rev(v, logn) == u && Rev(v, 10) == Pow2(10 - logn) * u
  {
    RevShr(u, logn, 10 - logn);
    RevRev(u, logn);
    RevWidened(Rev(u, logn), logn, 10 - logn);
  }

  lemma SlotUnique(v: nat, u: nat, logn: nat)
    requires v < Pow2(logn) && u < Pow2(logn)
    ensures Rev(v, logn) == u <==> v == Rev(u, logn)
    ensures Rev(v, logn) < Pow2(logn)
  {
    RevRev(v, logn);
    RevRev(u, logn);
  }

  lemma EntryMeaning(g: nat, p: U31, v: nat)
    requires p >= 2 && v < 1024
    ensures KeyTables(g, p).S(v) == Pow(g, Rev(v, 10)) % p && KeyTables(g, p).InvS(v) == Pow(Inverse(g, p), Rev(v, 10)) % p
  {
    Pow2Values();
  }

  lemma EntryMonty(x: nat, w: int, p: U31)
    requires Monty(x, w, p)
    ensures Monty(x, w % p, p)
  {
    CongMod(w, p);
    CongScale(0x8000_0000, w % p, w, p);
    CongTrans(x, 0x8000_0000 * w, 0x8000_0000 * (w % p), p);
  }

  /** The entry that round u stores is the one the transform reads there. */
  lemma RoundEntry(x1: U32, x2: U32, g: nat, p: U31, logn: nat, u: nat)
    requires logn <= 10 && u < Pow2(logn) && p >= 2
    requires var h := Pow2(10 - logn) * u; Monty(x1, Pow(g, h), p) && Monty(x2, Pow(Inverse(g, p), h), p)
    ensures Pow2(logn) <= 1024
    ensures var v := Rev10(u * Pow2(10 - logn));
      v < Pow2(logn) && Monty(x1, KeyTables(g, p).S(v), p) && Monty(x2, KeyTables(g, p).InvS(v), p)
  {
    SlotOfRound(u, logn);
    Pow2Monotone(logn, 10);
    Pow2Values();
    var v := Rev10(u * Pow2(10 - logn));
    hide *;
    EntryMeaning(g, p, v);
    EntryMonty(x1, Pow(g, Rev(v, 10)), p);
    EntryMonty(x2, Pow(Inverse(g, p), Rev(v, 10)), p);
  }

  lemma NextPower(x: U32, y: U32, g: int, h: nat, u: nat, p: U31, p0i: U31)
    requires Reducer(p, p0i) && Monty(x, Pow(g, h * u), p) && Monty(y, Pow(g, h), p)
    ensures Monty(ModpMontyMul(x, y, p, p0i), Pow(g, h * (u + 1)), p)
  {
    hide *;
    MontyProduct(x, Pow(g, h * u), y, Pow(g, h), p, p0i);
    PowAdd(g, h * u, h);
    MulAdd(h, u, 1);
    assert h * (u + 1) == h * u + h;
  }

  /** Squares g until its order is twice the transform length, and inverts it. */
  method RootOfLength(logn: nat, g: nat, p: U31, p0i: U31) returns (h: U32, ih: U32)
    requires logn <= 10 && Reducer(p, p0i) && Generator(g, p)
    ensures Monty(h, Pow(g, Pow2(10 - logn)), p) && Monty(ih, Pow(Inverse(g, p), Pow2(10 - logn)), p)
  {
    hide *;
    BelowModulus(p, p0i);
    GeneratorBelow(g, p);
    R2Meaning(p, p0i);
    var r2 := ModpR2(p, p0i);
    h := ModpMontyMul(g, r2, p, p0i);
    EnterMonty(g, p, p0i);
    PowFirst(g);
    Pow2Zero();
    var k := logn;
    while k < 10
      invariant logn <= k <= 10 && Monty(h, Pow(g, Pow2(k - logn)), p)
    {
      MontyProduct(h, Pow(g, Pow2(k - logn)), h, Pow(g, Pow2(k - logn)), p, p0i);
      PowAdd(g, Pow2(k - logn), Pow2(k - logn));
      Pow2Next(k - logn);
      h := ModpMontyMul(h, h, p, p0i);
      k := k + 1;
    }
    ghost var c := Pow(g, Pow2(10 - logn));
    MontyElim(r2, 0x8000_0000, p);
    ih := ModpDiv(r2, h, p, p0i, c);
    InverseRoot(ih, r2, g, Pow2(10 - logn), p, p0i);
  }

  lemma Pow2Zero()
    ensures Pow2(0) == 1
  {}

  lemma Pow2Next(k: nat)
    ensures Pow2(k + 1) == Pow2(k) + Pow2(k)
  {}

  lemma GeneratorBelow(g: nat, p: U31)
    requires Generator(g, p)
    ensures g < p && p > 2
  {}

  lemma EnterMonty(g: U32, p: U31, p0i: U31)
    requires Reducer(p, p0i) && g < p
    ensures Monty(ModpMontyMul(g, ModpR2(p, p0i), p, p0i), g, p)
  {
    hide *;
    ReducerMeaning(p, p0i);
    R2Meaning(p, p0i);
    MontyBy(g, ModpR2(p, p0i), 0x8000_0000, p, p0i);
    assert g * 0x8000_0000 == 0x8000_0000 * g;
    MontyIntro(ModpMontyMul(g, ModpR2(p, p0i), p, p0i), g, p);
  }

  lemma SwapPowers(g: nat, e: nat, p: U31)
    requires p > 2
    ensures Pow(Pow(g, e), p - 2) == Pow(Inverse(g, p), e)
  {
    hide Pow;
    PowPow(g, e, p - 2);
    PowPow(g, p - 2, e);
    assert e * (p - 2) == (p - 2) * e;
  }

  lemma InverseRoot(ih: U32, r2: U32, g: nat, e: nat, p: U31, p0i: U31)
    requires Reducer(p, p0i) && p > 2 && ih < p && Monty(r2, 0x8000_0000, p)
    requires Cong(0x8000_0000 * ih, r2 * Pow(Pow(g, e), p - 2), p)
    ensures Monty(ih, Pow(Inverse(g, p), e), p)
  {
    hide *;
    SwapPowers(g, e, p);
    var w := Pow(Inverse(g, p), e);
    MontyElim(r2, 0x8000_0000, p);
    CongScale(w, r2, 0x8000_0000 * 0x8000_0000, p);
    assert w * r2 == r2 * w && w * (0x8000_0000 * 0x8000_0000) == 0x8000_0000 * (0x8000_0000 * w);
    CongTrans(0x8000_0000 * ih, r2 * w, 0x8000_0000 * (0x8000_0000 * w), p);
    CancelRadix31(ih, 0x8000_0000 * w, p, p0i);
    MontyIntro(ih, w, p);
  }

  /** Fills the twiddle tables for a transform of length 2^logn. */
  method ModpMkgm2(gm: array<U32>, igm: array<U32>, logn: nat, g: nat, p: U31, p0i: U31)
    requires logn <= 10 && gm.Length >= Pow2(logn) && igm.Length >= Pow2(logn) && gm != igm
    requires Reducer(p, p0i) && Generator(g, p)
    modifies gm, igm
    ensures p >= 2 && Filled(gm[..], KeyTables(g, p), logn, p) && FilledInverse(igm[..], KeyTables(g, p), logn, p)
  {
    hide *;
    BelowModulus(p, p0i);
    var n := Pow2(logn);
    ghost var t := KeyTables(g, p);
    var h, ih := RootOfLength(logn, g, p, p0i);
    ghost var e: nat := Pow2(10 - logn);
    var x1: U32, x2: U32 := ModpR(p), ModpR(p);
    MontyOne(p);
    PowFirst(g);
    PowFirst(Inverse(g, p));
    var u: nat := 0;
    assert e * u == 0;
    while u < n
      invariant u <= n && Monty(x1, Pow(g, e * u), p) && Monty(x2, Pow(Inverse(g, p), e * u), p)
      invariant forall v: nat :: v < n && Rev(v, logn) < u ==> Monty(gm[v], t.S(v), p)
      invariant forall v: nat :: v < n && Rev(v, logn) < u ==> Monty(igm[v], t.InvS(v), p)
    {
      RoundEntry(x1, x2, g, p, logn, u);
      SlotOfRound(u, logn);
      forall v: nat | v < n ensures Rev(v, logn) == u ==> v == Rev(u, logn) { SlotUnique(v, u, logn); }
      var v := Rev10(u * Pow2(10 - logn));
      gm[v] := x1;
      igm[v] := x2;
      NextPower(x1, h, g, e, u, p, p0i);
      NextPower(x2, ih, Inverse(g, p), e, u, p, p0i);
      x1 := ModpMontyMul(x1, h, p, p0i);
      x2 := ModpMontyMul(x2, ih, p, p0i);
      u := u + 1;
    }
    forall v: nat | v < n ensures Monty(gm[v], t.S(v), p) && Monty(igm[v], t.InvS(v), p) { SlotUnique(v, v, logn); }
    FilledMeaning(gm[..], igm[..], t, logn, p);
  }

  lemma FilledMeaning(gm: seq<U32>, igm: seq<U32>, t: Tables, logn: nat, p: U31)
    requires |gm| >= Pow2(logn) && |igm| >= Pow2(logn)
    requires forall v: nat :: v < Pow2(logn) ==> Monty(gm[v], t.S(v), p) && Monty(igm[v], t.InvS(v), p)
    ensures Filled(gm, t, logn, p) && FilledInverse(igm, t, logn, p)
  {}
}
