/** The passes over the words that one round of the extended GCD makes, as in crypto/keygen.c. */
module BezoutSteps {
  import opened Words
  import opened Residues
  import opened BigNum

  /** |x| + |y| is at most 2^31. */
  predicate Factors(x: int, y: int) { Abs(x) + Abs(y) <= 0x8000_0000 }

  /** The value of the 31-bit words low with the signed word top above them. */
  function Topped(low: seq<int>, top: int): int { Num(low) + Place(top, |low|) }

  /** The words of a hold that value: 31 bits each, except that the last one is top in 32 bits. */
  ghost predicate LowAndTop(a: seq<U32>, low: seq<int>, top: int) {
    |a| == |low| + 1 && Limbs(low) && a == low + [Wrap32(top)]
  }

  lemma LowAndTopWord(a: seq<U32>, low: seq<int>, top: int, u: nat)
    requires LowAndTop(a, low, top) && u < |a|
    ensures u < |low| ==> a[u] == low[u] && 0 <= low[u] < 0x8000_0000
    ensures u == |low| ==> a[u] == Wrap32(top)
  {}

  /** Words whose value with a carry is in range carry nothing. */
  lemma BuiltExact(out: seq<int>, carry: int, total: int)
    requires Built(out, carry, total) && 0 <= total < Base(|out|)
    ensures Limbs(out) && Num(out) == total
  {
    BuiltMeaning(out, carry, total);
    var w, n := Base(|out|), Num(out);
    CarryIsZero(carry, w, n, total);
  }

  lemma CarryIsZero(carry: int, w: int, n: int, total: int)
    requires 0 <= n < w && 0 <= total < w && n + carry * w == total
    ensures carry == 0
  {
    SmallMultiple(carry, w);
  }

  /** The last word: only its low 31 bits are kept, so some carry completes it. */
  lemma LastWord(out: seq<int>, carry: int, total: int, x: int, low: int) returns (carry': int)
    requires Built(out, carry, total) && 0 <= low < 0x8000_0000 && low == (x + carry) % 0x8000_0000
    ensures Built(out + [low], carry', total + Place(x, |out|))
  {
    carry' := (x + carry) / 0x8000_0000;
    BuildStep(out, carry, total, x, low, carry');
  }

  lemma ToppedBound(low: seq<int>, top: int)
    requires Limbs(low)
    ensures top < 0 <==> Topped(low, top) < 0
    ensures Topped(low, top) < Base(|low| + 1) <==> top < 0x8000_0000
    ensures Topped(low, top) >= -(Base(|low| + 1) as int) <==> top >= -0x8000_0000
  {
    NumBound(low);
    ToppedScalar(Num(low), top, Base(|low|));
  }

  lemma ToppedScalar(n: int, top: int, w: int)
    requires 0 <= n < w
    ensures top < 0 <==> n + top * w < 0
    ensures n + top * w < 0x8000_0000 * w <==> top < 0x8000_0000
    ensures n + top * w >= -(0x8000_0000 * w) <==> top >= -0x8000_0000
  {
    if top < 0 { MulOrder(1, -top, w); assert top * w == -(-top * w); } else { MulOrder(0, top, w); }
    if top < 0x8000_0000 { MulOrder(top, 0x7FFF_FFFF, w); assert 0x7FFF_FFFF * w == 0x8000_0000 * w - w; } else { MulOrder(0x8000_0000, top, w); }
    if top >= -0x8000_0000 { MulOrder(-0x8000_0000, top, w); } else { MulOrder(top, -0x8000_0001, w); }
  }

  // ---- Conditional negation ----

  /** The word aw with its low 31 bits complemented. */
  function FlipLow(aw: U32): U32 {
    0x7FFF_FFFF - aw % 0x8000_0000 + (if aw < 0x8000_0000 then 0 else 0x8000_0000)
  }

  /** One word of a conditional negation before the carry is split off. */
  function NegatedWord(aw: U32, ctl: int, cc: int): U32 {
    Wrap32((if ctl == 1 then FlipLow(aw) else aw) + cc)
  }

  lemma NegatedLow(aw: int, ctl: int, cc: int)
    requires 0 <= cc <= 1 && 0 <= ctl <= 1 && (ctl == 0 ==> cc == 0) && 0 <= aw < 0x8000_0000
    ensures var w := NegatedWord(aw, ctl, cc);
      && 0 <= Top32(w) <= 1 && (ctl == 0 ==> Top32(w) == 0)
      && w % 0x8000_0000 + 0x8000_0000 * (Top32(w) - ctl) == (if ctl == 1 then -aw else aw) + (cc - ctl)
  {}

  lemma NegatedTop(top: int, ctl: int, cc: int)
    requires 0 <= cc <= 1 && 0 <= ctl <= 1 && (ctl == 0 ==> cc == 0)
    ensures NegatedWord(Wrap32(top), ctl, cc) % 0x8000_0000 == ((if ctl == 1 then -top else top) + (cc - ctl)) % 0x8000_0000
  {
    var t := Wrap32(top);
    var k := top / 0x1_0000_0000;
    assert top == t + 0x1_0000_0000 * k;
    FlipResidue(t, ctl, cc);
    var x := (if ctl == 1 then -(t as int) else t) + (cc - ctl);
    hide *;
    CongIntro((if ctl == 1 then -top else top) + (cc - ctl), x, if ctl == 1 then -2 * k else 2 * k, 0x8000_0000);
    CongMeaning((if ctl == 1 then -top else top) + (cc - ctl), x, 0x8000_0000);
  }

  lemma FlipResidue(t: U32, ctl: int, cc: int)
    requires 0 <= cc <= 1 && 0 <= ctl <= 1 && (ctl == 0 ==> cc == 0)
    ensures NegatedWord(t, ctl, cc) % 0x8000_0000 == ((if ctl == 1 then -(t as int) else t) + (cc - ctl)) % 0x8000_0000
  {
    var h, l := t / 0x8000_0000, t % 0x8000_0000;
    assert t == 0x8000_0000 * h + l && h <= 1;
    var x: int := (if ctl == 1 then FlipLow(t) else t) + cc;
    assert ctl == 1 ==> x == 0x7FFF_FFFF - l + 0x8000_0000 * h + cc;
    var k := x / 0x1_0000_0000;
    var w: int := NegatedWord(t, ctl, cc);
    assert x == w + 0x1_0000_0000 * k;
    hide *;
    var y := (if ctl == 1 then -(t as int) else t) + (cc - ctl);
    CongIntro(w, y, -2 * k + (if ctl == 1 then 2 * h + 1 else 0), 0x8000_0000);
    CongMeaning(w, y, 0x8000_0000);
  }

  function Signed(ctl: int, x: int): int { if ctl == 1 then -x else x }

  lemma SignedTotal(a: seq<int>, ctl: int, u: nat)
    requires u < |a|
    ensures Signed(ctl, Num(a[..u + 1])) == Signed(ctl, Num(a[..u])) + Place(Signed(ctl, a[u]), u)
  {
    hide Num, Place, Base;
    NumStep(a, u);
    PlaceNegate(a[u], u);
  }

  lemma PlaceNegate(x: int, k: nat)
    ensures Place(-x, k) == -Place(x, k)
  {}

  lemma SignedPlace(ctl: int, n: int, top: int, k: nat)
    ensures Signed(ctl, n + Place(top, k)) == Signed(ctl, n) + Place(Signed(ctl, top), k)
  {
    hide Place;
    PlaceNegate(top, k);
  }

  /** Replaces the signed value by its negation if ctl is 1; the result must be in range. */
  method ZintNegate(a: array<U32>, ctl: int, ghost low: seq<int>, ghost top: int)
    requires 0 <= ctl <= 1 && LowAndTop(a[..], low, top)
    requires 0 <= Signed(ctl, Topped(low, top)) < Base(a.Length)
    modifies a
    ensures Limbs(a[..]) && Num(a[..]) == Signed(ctl, Topped(low, top))
  {
    hide *;
    LowAndTopShape(a[..], low, top);
    ghost var a0 := a[..];
    ghost var out: seq<int> := [];
    var len := a.Length;
    var cc := ctl;
    var u := 0;
    BuildStart(0);
    NumEmpty(low);
    SignedZero(ctl);
    while u < len - 1
      invariant 0 <= u <= len - 1 && |out| == u && 0 <= cc <= 1 && (ctl == 0 ==> cc == 0)
      invariant Built(out, cc - ctl, Signed(ctl, Num(low[..u])))
      invariant forall i :: u <= i < len ==> a[i] == a0[i]
      invariant forall i :: 0 <= i < u ==> a[i] == out[i]
    {
      LowAndTopWord(a0, low, top, u);
      NegatedLow(a[u], ctl, cc);
      var aw := NegatedWord(a[u], ctl, cc);
      SignedWord(ctl, low[u]);
      BuildStep(out, cc - ctl, Signed(ctl, Num(low[..u])), Signed(ctl, low[u]), aw % 0x8000_0000, Top32(aw) - ctl);
      SignedTotal(low, ctl, u);
      out := out + [aw % 0x8000_0000];
      a[u] := aw % 0x8000_0000;
      cc := Top32(aw);
      u := u + 1;
    }
    NumAll(low);
    LowAndTopWord(a0, low, top, u);
    NegatedTop(top, ctl, cc);
    SignedWord(ctl, top);
    var aw := NegatedWord(a[u], ctl, cc);
    ghost var carry := LastWord(out, cc - ctl, Signed(ctl, Num(low)), Signed(ctl, top), aw % 0x8000_0000);
    ToppedMeaning(low, top);
    SignedPlace(ctl, Num(low), top, u);
    a[u] := aw % 0x8000_0000;
    assert a[..] == out + [aw % 0x8000_0000];
    BuiltExact(a[..], carry, Signed(ctl, Topped(low, top)));
  }

  lemma LowAndTopShape(a: seq<U32>, low: seq<int>, top: int)
    requires LowAndTop(a, low, top)
    ensures |a| == |low| + 1 && Limbs(low)
  {}

  lemma SignedZero(ctl: int)
    ensures Signed(ctl, 0) == 0
  {}

  lemma SignedWord(ctl: int, x: int)
    ensures Signed(ctl, x) == if ctl == 1 then -x else x
  {}

  lemma ToppedMeaning(low: seq<int>, top: int)
    ensures Topped(low, top) == Num(low) + Place(top, |low|)
  {}

  // ---- Combination of two integers, divided by 2^31 ----

  /** One word of a combination with coefficients x and y, and a multiple f of a third word. */
  function Combined(wa: int, x: int, wb: int, y: int, wm: int, f: int, cc: int): int {
    Signed64(wa * x + wb * y + wm * f + cc)
  }

  lemma CombinedWord(wa: int, x: int, wb: int, y: int, wm: int, f: int, cc: int)
    requires Factors(x, y) && 0 <= wa < 0x8000_0000 && 0 <= wb < 0x8000_0000 && 0 <= wm < 0x8000_0000
    requires 0 <= f < 0x8000_0000 && -0x8000_0000 <= cc < 0x1_0000_0000
    ensures var z := Combined(wa, x, wb, y, wm, f, cc);
      && 0 <= z % 0x8000_0000 < 0x8000_0000 && -0x8000_0000 <= z / 0x8000_0000 < 0x1_0000_0000
      && z % 0x8000_0000 + 0x8000_0000 * (z / 0x8000_0000) == (wa * x + wb * y + wm * f) + cc
  {
    CombinationBound(wa, x, wb, y, 0x7FFF_FFFF);
    MulLe(wm, f, 0x7FFF_FFFF);
    MulLe(0x7FFF_FFFF, wm, 0x7FFF_FFFF);
    assert wm * f >= 0;
  }

  /** A combination of integers up to m with such coefficients is at most 2^31 * m. */
  lemma CombinationBound(a: int, x: int, b: int, y: int, m: int)
    requires Factors(x, y) && 0 <= a <= m && 0 <= b <= m
    ensures -(0x8000_0000 * m) <= a * x + b * y <= 0x8000_0000 * m
  {
    hide *;
    FactorBound(a, x, m);
    FactorBound(b, y, m);
    FactorsMeaning(x, y);
    MulLe(m, Abs(x) + Abs(y), 0x8000_0000);
    MulAdd(m, Abs(x), Abs(y));
    assert m * 0x8000_0000 == 0x8000_0000 * m;
  }

  lemma FactorBound(a: int, x: int, m: int)
    requires 0 <= a <= m
    ensures -(m * Abs(x)) <= a * x <= m * Abs(x)
  {
    MulLe(Abs(x), a, m);
    assert a * x == Abs(x) * a || a * x == -(Abs(x) * a);
  }

  lemma FactorsMeaning(x: int, y: int)
    ensures Factors(x, y) <==> Abs(x) + Abs(y) <= 0x8000_0000
  {}

  /** The total that the first u words of the combination stand for. */
  function Combination(a: seq<int>, x: int, b: seq<int>, y: int, m: seq<int>, f: int, u: nat): int
    requires u <= |a| == |b| == |m|
  {
    x * Num(a[..u]) + y * Num(b[..u]) + f * Num(m[..u])
  }

  lemma CombinationNext(a: seq<int>, x: int, b: seq<int>, y: int, m: seq<int>, f: int, u: nat)
    requires u < |a| == |b| == |m|
    ensures Combination(a, x, b, y, m, f, u + 1) == Combination(a, x, b, y, m, f, u) + Place(a[u] * x + b[u] * y + m[u] * f, u)
  {
    hide Num, Place, Base;
    ScaledNext(a, x, u);
    ScaledNext(b, y, u);
    ScaledNext(m, f, u);
    PlaceAdd(a[u] * x, b[u] * y, u);
    PlaceAdd(a[u] * x + b[u] * y, m[u] * f, u);
  }

  lemma CombinationStart(a: seq<int>, x: int, b: seq<int>, y: int, m: seq<int>, f: int)
    requires |a| == |b| == |m|
    ensures Combination(a, x, b, y, m, f, 0) == 0
    ensures Combination(a, x, b, y, m, f, |a|) == x * Num(a) + y * Num(b) + f * Num(m)
  {
    NumEmpty(a);
    NumEmpty(b);
    NumEmpty(m);
    NumAll(a);
    NumAll(b);
    NumAll(m);
  }

  /** Dropping the lowest word, which is zero, divides by 2^31. */
  lemma ShiftedTotal(full: seq<int>, top: int, total: int)
    requires |full| >= 1 && Built(full, top, total) && total % 0x8000_0000 == 0
    ensures 0x8000_0000 * Topped(full[1..], top) == total && Limbs(full[1..])
  {
    hide Num, Place, Base;
    NumCons(full);
    var low := full[1..];
    PlaceUp(top, |low|);
    LowWordZero(full[0], Topped(low, top), total);
  }

  lemma LowWordZero(w: int, t: int, total: int)
    requires 0 <= w < 0x8000_0000 && w + 0x8000_0000 * t == total && total % 0x8000_0000 == 0
    ensures w == 0
  {}

  lemma LowAndTopIntro(a: seq<U32>, full: seq<int>, top: int)
    requires |full| >= 1 && |a| == |full| && Limbs(full) && a[|a| - 1] == Wrap32(top)
    requires forall i :: 1 <= i < |full| ==> a[i - 1] == full[i]
    ensures LowAndTop(a, full[1..], top)
  {
    var low := full[1..];
    forall i | 0 <= i < |low| ensures a[i] == low[i] { assert low[i] == full[i + 1]; }
  }

  lemma BuiltLimbs(out: seq<int>, carry: int, total: int)
    requires Built(out, carry, total)
    ensures Limbs(out)
  {}

  lemma BaseBound(s: seq<int>)
    requires Limbs(s)
    ensures 0 <= Num(s) <= Base(|s|) - 1
  {
    NumBound(s);
  }

  /** A combination of two integers of the same length has again that length. */
  lemma CombinationFits(a: seq<int>, x: int, b: seq<int>, y: int, low: seq<int>, top: int)
    requires |a| == |b| == |low| + 1 && Limbs(a) && Limbs(b) && Limbs(low) && Factors(x, y)
    requires 0x8000_0000 * Topped(low, top) == x * Num(a) + y * Num(b) + 0 * Num(a)
    ensures var s := Topped(low, top); 0 <= Signed(if top < 0 then 1 else 0, s) < Base(|a|)
    ensures top < 0 <==> x * Num(a) + y * Num(b) < 0
    ensures 0x8000_0000 * Signed(if top < 0 then 1 else 0, Topped(low, top)) == Abs(x * Num(a) + y * Num(b))
  {
    hide Num, Base, Topped, Limbs, Factors;
    BaseBound(a);
    BaseBound(b);
    ToppedBound(low, top);
    CombinationBound(Num(a), x, Num(b), y, Base(|a|) - 1);
    assert Num(a) * x == x * Num(a) && Num(b) * y == y * Num(b);
  }

  /** The loop over the words: leaves both combinations over 2^31, with signed top words. */
  method CoReduceWords(a: array<U32>, b: array<U32>, xa: int, xb: int, ya: int, yb: int)
    returns (cca: int, ccb: int, ghost fa: seq<int>, ghost fb: seq<int>)
    requires a != b && a.Length == b.Length >= 1 && Limbs(a[..]) && Limbs(b[..])
    requires Factors(xa, xb) && Factors(ya, yb)
    modifies a, b
    ensures |fa| == |fb| == a.Length && LowAndTop(a[..], fa[1..], cca) && LowAndTop(b[..], fb[1..], ccb)
    ensures Built(fa, cca, xa * Num(old(a[..])) + xb * Num(old(b[..])) + 0 * Num(old(a[..])))
    ensures Built(fb, ccb, ya * Num(old(a[..])) + yb * Num(old(b[..])) + 0 * Num(old(a[..])))
  {
    hide *;
    ghost var a0: seq<int>, b0: seq<int> := a[..], b[..];
    fa, fb := [], [];
    var len := a.Length;
    cca, ccb := 0, 0;
    var u := 0;
    BuildStart(0);
    CombinationStart(a0, xa, b0, xb, a0, 0);
    CombinationStart(a0, ya, b0, yb, a0, 0);
    while u < len
      invariant 0 <= u <= len && |fa| == |fb| == u
      invariant -0x8000_0000 <= cca < 0x1_0000_0000 && -0x8000_0000 <= ccb < 0x1_0000_0000
      invariant Built(fa, cca, Combination(a0, xa, b0, xb, a0, 0, u))
      invariant Built(fb, ccb, Combination(a0, ya, b0, yb, a0, 0, u))
      invariant forall i :: u <= i < len ==> a[i] == a0[i] && b[i] == b0[i]
      invariant forall i :: 1 <= i < u ==> a[i - 1] == fa[i] && b[i - 1] == fb[i]
    {
      var wa: int, wb: int := a[u], b[u];
      LimbAt(a0, u);
      LimbAt(b0, u);
      CombinedWord(wa, xa, wb, xb, wa, 0, cca);
      CombinedWord(wa, ya, wb, yb, wa, 0, ccb);
      var za := Combined(wa, xa, wb, xb, wa, 0, cca);
      var zb := Combined(wa, ya, wb, yb, wa, 0, ccb);
      BuildStep(fa, cca, Combination(a0, xa, b0, xb, a0, 0, u), wa * xa + wb * xb + wa * 0, za % 0x8000_0000, za / 0x8000_0000);
      BuildStep(fb, ccb, Combination(a0, ya, b0, yb, a0, 0, u), wa * ya + wb * yb + wa * 0, zb % 0x8000_0000, zb / 0x8000_0000);
      CombinationNext(a0, xa, b0, xb, a0, 0, u);
      CombinationNext(a0, ya, b0, yb, a0, 0, u);
      fa, fb := fa + [za % 0x8000_0000], fb + [zb % 0x8000_0000];
      if u > 0 {
        a[u - 1] := za % 0x8000_0000;
        b[u - 1] := zb % 0x8000_0000;
      }
      cca, ccb := za / 0x8000_0000, zb / 0x8000_0000;
      u := u + 1;
    }
    a[len - 1] := Wrap32(cca);
    b[len - 1] := Wrap32(ccb);
    BuiltLimbs(fa, cca, Combination(a0, xa, b0, xb, a0, 0, u));
    BuiltLimbs(fb, ccb, Combination(a0, ya, b0, yb, a0, 0, u));
    LowAndTopIntro(a[..], fa, cca);
    LowAndTopIntro(b[..], fb, ccb);
  }

  /**
   Replaces a by |a * xa + b * xb| / 2^31 and b by |a * ya + b * yb| / 2^31, for exact divisions,
   and returns which of the two were negative.
   */
  method ZintCoReduce(a: array<U32>, b: array<U32>, xa: int, xb: int, ya: int, yb: int) returns (nega: int, negb: int)
    requires a != b && a.Length == b.Length >= 1 && Limbs(a[..]) && Limbs(b[..])
    requires Factors(xa, xb) && Factors(ya, yb)
    requires (xa * Num(a[..]) + xb * Num(b[..])) % 0x8000_0000 == 0 && (ya * Num(a[..]) + yb * Num(b[..])) % 0x8000_0000 == 0
    modifies a, b
    ensures Limbs(a[..]) && Limbs(b[..])
    ensures 0x8000_0000 * Num(a[..]) == Abs(xa * old(Num(a[..])) + xb * old(Num(b[..])))
    ensures 0x8000_0000 * Num(b[..]) == Abs(ya * old(Num(a[..])) + yb * old(Num(b[..])))
    ensures nega == if xa * old(Num(a[..])) + xb * old(Num(b[..])) < 0 then 1 else 0
    ensures negb == if ya * old(Num(a[..])) + yb * old(Num(b[..])) < 0 then 1 else 0
  {
    hide *;
    ghost var a0: seq<int>, b0: seq<int> := a[..], b[..];
    var cca, ccb;
    ghost var fa, fb;
    cca, ccb, fa, fb := CoReduceWords(a, b, xa, xb, ya, yb);
    ShiftedTotal(fa, cca, xa * Num(a0) + xb * Num(b0) + 0 * Num(a0));
    ShiftedTotal(fb, ccb, ya * Num(a0) + yb * Num(b0) + 0 * Num(a0));
    CombinationFits(a0, xa, b0, xb, fa[1..], cca);
    CombinationFits(a0, ya, b0, yb, fb[1..], ccb);
    nega := if cca < 0 then 1 else 0;
    negb := if ccb < 0 then 1 else 0;
    ZintNegate(a, nega, fa[1..], cca);
    ZintNegate(b, negb, fb[1..], ccb);
  }
}
