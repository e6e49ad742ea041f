/** Combinations modulo an odd big integer, divided by 2^31, as in crypto/keygen.c. */
module BezoutModular {
  import opened Words
  import opened Residues
  import opened BigNum
  import opened LimbArithmetic
  import opened BezoutSteps

  /** The word of m, of -m or 0 that the final loop subtracts. */
  function ModulusWord(m: U32, neg: int, apply: bool): U32 {
    if !apply then 0 else if neg == 1 then 0x7FFF_FFFF - m % 0x8000_0000 else m
  }

  /** What the final loop adds: the modulus, its opposite, or nothing. */
  function Correction(neg: int, apply: bool): int { if !apply then 0 else if neg == 1 then 1 else -1 }

  lemma FinishLow(aw: int, m: int, neg: int, apply: bool, cc: int)
    requires 0 <= aw < 0x8000_0000 && 0 <= m < 0x8000_0000 && 0 <= neg <= 1 && 0 <= cc <= 1 && (neg == 1 ==> apply)
    ensures var w := Wrap32(aw - ModulusWord(m, neg, apply) - cc);
      && 0 <= Top32(w) <= 1
      && w % 0x8000_0000 + 0x8000_0000 * (neg - Top32(w)) == aw + Correction(neg, apply) * m + (neg - cc)
  {}

  lemma FinishTop(top: int, m: int, neg: int, apply: bool, cc: int)
    requires 0 <= m < 0x8000_0000 && 0 <= neg <= 1 && 0 <= cc <= 1 && (neg == 1 ==> apply)
    ensures Wrap32(Wrap32(top) - ModulusWord(m, neg, apply) - cc) % 0x8000_0000
         == (top + Correction(neg, apply) * m + (neg - cc)) % 0x8000_0000
  {
    var mw: int, t: int := ModulusWord(m, neg, apply), Wrap32(top);
    var k, l := top / 0x1_0000_0000, (t - mw - cc) / 0x1_0000_0000;
    var w: int := Wrap32(t - mw - cc);
    assert top == t + 0x1_0000_0000 * k && t - mw - cc == w + 0x1_0000_0000 * l;
    assert -mw == Correction(neg, apply) * m + neg - neg * 0x8000_0000;
    hide *;
    CongIntro(w, top + Correction(neg, apply) * m + (neg - cc), -2 * k - 2 * l - neg, 0x8000_0000);
    CongMeaning(w, top + Correction(neg, apply) * m + (neg - cc), 0x8000_0000);
  }

  lemma CorrectedNext(a: seq<int>, m: seq<int>, d: int, u: nat)
    requires u < |a| && u < |m|
    ensures Num(a[..u + 1]) + d * Num(m[..u + 1]) == Num(a[..u]) + d * Num(m[..u]) + Place(a[u] + d * m[u], u)
  {
    hide Num, Place, Base;
    NumStep(a, u);
    ScaledNext(m, d, u);
    PlaceAdd(a[u], m[u] * d, u);
    assert m[u] * d == d * m[u];
  }

  lemma CorrectedTop(low: seq<int>, top: int, m: seq<int>, d: int)
    requires |m| == |low| + 1
    ensures Num(low) + d * Num(m[..|low|]) + Place(top + d * m[|low|], |low|) == Topped(low, top) + d * Num(m)
  {
    hide Num, Place, Base;
    ScaledNext(m, d, |low|);
    NumAll(m);
    PlaceAdd(top, m[|low|] * d, |low|);
    assert m[|low|] * d == d * m[|low|];
  }

  /** Compares the value, when it is not negative, with m: the borrow of the subtraction. */
  method CompareTopped(a: seq<U32>, m: seq<U32>, ghost low: seq<int>, ghost top: int) returns (cc: int)
    requires LowAndTop(a, low, top) && |a| == |m| && Limbs(m)
    ensures 0 <= cc <= 1
    ensures 0 <= Topped(low, top) < 2 * Num(m) ==> (cc == 1 <==> Topped(low, top) < Num(m))
  {
    hide *;
    LowAndTopShape(a, low, top);
    ghost var out: seq<int> := [];
    var len := |a|;
    cc := 0;
    var u := 0;
    BuildStart(0);
    NumEmpty(low);
    NumEmpty(m);
    while u < len - 1
      invariant 0 <= u <= len - 1 && |out| == u && 0 <= cc <= 1
      invariant Built(out, -cc, Num(low[..u]) + -1 * Num(m[..u]))
    {
      LowAndTopWord(a, low, top, u);
      LimbAt(m, u);
      SubWord(a[u], m[u], cc);
      var w := Wrap32(a[u] - m[u] - cc);
      ghost var borrow: int := Top32(w);
      CorrectedNext(low, m, -1, u);
      BuildStep(out, -cc, Num(low[..u]) + -1 * Num(m[..u]), low[u] + -1 * m[u], w % 0x8000_0000, -borrow);
      out := out + [w % 0x8000_0000];
      cc := Top32(w);
      u := u + 1;
    }
    NumAll(low);
    LowAndTopWord(a, low, top, u);
    LimbAt(m, u);
    CompareTop(out, cc, low, top, m);
    cc := Top32(Wrap32(a[u] - m[u] - cc));
  }

  lemma CompareTop(out: seq<int>, cc: int, low: seq<int>, top: int, m: seq<int>)
    requires |m| == |low| + 1 == |out| + 1 && 0 <= cc <= 1 && Limbs(low) && Limbs(m) && 0 <= m[|low|] < 0x8000_0000
    requires Built(out, -cc, Num(low) + -1 * Num(m[..|low|]))
    ensures var borrow := Top32(Wrap32(Wrap32(top) - m[|low|] - cc));
      && 0 <= borrow <= 1
      && (0 <= Topped(low, top) < 2 * Num(m) ==> (borrow == 1 <==> Topped(low, top) < Num(m)))
  {
    hide *;
    var d := top - m[|low|] - cc;
    BuiltMeaning(out, -cc, Num(low) + -1 * Num(m[..|low|]));
    CorrectedTop(low, top, m, -1);
    PlaceAdd(top + -1 * m[|low|], -cc, |low|);
    ToppedMeaning(out, d);
    assert Topped(out, d) == Topped(low, top) - Num(m);
    BaseBound(m);
    ToppedBound(out, d);
    ToppedBound(low, top);
    TopBorrow(top, m[|low|], cc);
  }

  lemma TopBorrow(top: int, m: int, cc: int)
    requires 0 <= m < 0x8000_0000 && 0 <= cc <= 1
    ensures var borrow := Top32(Wrap32(Wrap32(top) - m - cc));
      0 <= borrow <= 1 && (-0x8000_0000 <= top - m - cc < 0x8000_0000 ==> (borrow == 1 <==> top - m - cc < 0))
  {}

  /** Brings a value in -m..2m-1 into 0..m-1, adding or subtracting m. */
  method ZintFinishMod(a: array<U32>, m: seq<U32>, neg: int, ghost low: seq<int>, ghost top: int)
    requires a.Length == |m| && LowAndTop(a[..], low, top) && Limbs(m) && Num(m) > 0
    requires neg == if top < 0 then 1 else 0
    requires -Num(m) <= Topped(low, top) < 2 * Num(m)
    modifies a
    ensures Limbs(a[..]) && Num(a[..]) == Topped(low, top) % Num(m)
  {
    hide *;
    LowAndTopShape(a[..], low, top);
    ToppedBound(low, top);
    ghost var a0 := a[..];
    var len := a.Length;
    var cc := CompareTopped(a[..], m, low, top);
    var apply := neg == 1 || cc == 0;
    ghost var d := Correction(neg, apply);
    ghost var out: seq<int> := [];
    cc := neg;
    var u := 0;
    BuildStart(0);
    NumEmpty(low);
    NumEmpty(m);
    while u < len - 1
      invariant 0 <= u <= len - 1 && |out| == u && 0 <= cc <= 1
      invariant Built(out, neg - cc, Num(low[..u]) + d * Num(m[..u]))
      invariant forall i :: u <= i < len ==> a[i] == a0[i]
      invariant forall i :: 0 <= i < u ==> a[i] == out[i]
    {
      LowAndTopWord(a0, low, top, u);
      LimbAt(m, u);
      FinishLow(a[u], m[u], neg, apply, cc);
      var aw := Wrap32(a[u] - ModulusWord(m[u], neg, apply) - cc);
      CorrectedNext(low, m, d, u);
      BuildStep(out, neg - cc, Num(low[..u]) + d * Num(m[..u]), low[u] + d * m[u], aw % 0x8000_0000, neg - Top32(aw));
      out := out + [aw % 0x8000_0000];
      a[u] := aw % 0x8000_0000;
      cc := Top32(aw);
      u := u + 1;
    }
    NumAll(low);
    LowAndTopWord(a0, low, top, u);
    LimbAt(m, u);
    FinishTop(top, m[u], neg, apply, cc);
    var aw := Wrap32(a[u] - ModulusWord(m[u], neg, apply) - cc);
    ghost var carry := LastWord(out, neg - cc, Num(low) + d * Num(m[..u]), top + d * m[u], aw % 0x8000_0000);
    CorrectedTop(low, top, m, d);
    a[u] := aw % 0x8000_0000;
    assert a[..] == out + [aw % 0x8000_0000];
    FinishRange(Topped(low, top), Num(m), neg, apply);
    BaseBound(m);
    BuiltExact(a[..], carry, Topped(low, top) + d * Num(m));
  }

  lemma FinishRange(t: int, m: int, neg: int, apply: bool)
    requires m > 0 && -m <= t < 2 * m && 0 <= neg <= 1 && (neg == 1 <==> t < 0) && (neg == 0 ==> (apply <==> t >= m)) && (neg == 1 ==> apply)
    ensures var r := t + Correction(neg, apply) * m; 0 <= r < m && r == t % m
  {
    var r := t + Correction(neg, apply) * m;
    assert r == if t < 0 then t + m else if t >= m then t - m else t;
    RemainderUnique(t, if t < 0 then -1 else if t >= m then 1 else 0, r, m);
  }

  /** The multiple of m that makes the lowest word of the combination vanish. */
  function Clearing(a: U32, x: int, b: U32, y: int, m0i: U31): U31 {
    Wrap32(Wrap32(a * Wrap32(x) + b * Wrap32(y)) * m0i) % 0x8000_0000
  }

  lemma ClearingMeaning(a: U32, x: int, b: U32, y: int, m: U32, m0i: U31)
    requires m < 0x8000_0000 && Cong(m * m0i, -1, 0x8000_0000)
    ensures (a * x + b * y + m * Clearing(a, x, b, y, m0i)) % 0x8000_0000 == 0
  {
    hide *;
    var z := a * x + b * y;
    var f := Clearing(a, x, b, y, m0i);
    ClearingCong(a, x, b, y, m0i);
    CongScale(m, f, z * m0i, 0x8000_0000);
    MulAssoc(z, m, m0i);
    assert m * (z * m0i) == z * (m * m0i);
    CongScale(z, m * m0i, -1, 0x8000_0000);
    CongTrans(m * f, z * (m * m0i), z * -1, 0x8000_0000);
    CongShift(z, m * f, z * -1, 0x8000_0000);
    CongMeaning(z + m * f, 0, 0x8000_0000);
  }

  lemma LowResidue(z: int)
    ensures Cong(Wrap32(z), z, 0x8000_0000)
  {
    CongIntro(z % 0x1_0000_0000, z, -2 * (z / 0x1_0000_0000), 0x8000_0000);
  }

  lemma ClearingCong(a: U32, x: int, b: U32, y: int, m0i: U31)
    ensures Cong(Clearing(a, x, b, y, m0i), (a * x + b * y) * m0i, 0x8000_0000)
  {
    hide Cong, Wrap32;
    LowResidue(x);
    LowResidue(y);
    var wx: int, wy: int := Wrap32(x), Wrap32(y);
    var s: int := a * wx + b * wy;
    CongScale(a, wx, x, 0x8000_0000);
    CongScale(b, wy, y, 0x8000_0000);
    CongAdd(a * wx, a * x, b * wy, b * y, 0x8000_0000);
    LowResidue(s);
    CongTrans(Wrap32(s), s, a * x + b * y, 0x8000_0000);
    CongScale(m0i, Wrap32(s), a * x + b * y, 0x8000_0000);
    var t: int := Wrap32(s) * m0i;
    assert m0i * Wrap32(s) == t && m0i * (a * x + b * y) == (a * x + b * y) * m0i;
    LowResidue(t);
    CongMod(Wrap32(t), 0x8000_0000);
    CongTrans(Wrap32(t) % 0x8000_0000, Wrap32(t), t, 0x8000_0000);
    CongTrans(Wrap32(t) % 0x8000_0000, t, (a * x + b * y) * m0i, 0x8000_0000);
  }

  /** A number is congruent to its lowest word modulo 2^31. */
  lemma LowestWord(s: seq<int>)
    requires |s| >= 1
    ensures Cong(Num(s), s[0], 0x8000_0000)
  {
    hide Num;
    NumCons(s);
    CongIntro(Num(s), s[0], Num(s[1..]), 0x8000_0000);
  }

  lemma LowestCombination(a: seq<int>, x: int, b: seq<int>, y: int, m: seq<int>, f: int)
    requires |a| == |b| == |m| >= 1 && (a[0] * x + b[0] * y + m[0] * f) % 0x8000_0000 == 0
    ensures (x * Num(a) + y * Num(b) + f * Num(m)) % 0x8000_0000 == 0
  {
    hide *;
    LowestWord(a);
    LowestWord(b);
    LowestWord(m);
    CongScale(x, Num(a), a[0], 0x8000_0000);
    CongScale(y, Num(b), b[0], 0x8000_0000);
    CongScale(f, Num(m), m[0], 0x8000_0000);
    CongAdd(x * Num(a), x * a[0], y * Num(b), y * b[0], 0x8000_0000);
    CongAdd(x * Num(a) + y * Num(b), x * a[0] + y * b[0], f * Num(m), f * m[0], 0x8000_0000);
    assert x * a[0] == a[0] * x && y * b[0] == b[0] * y && f * m[0] == m[0] * f;
    CongMeaning(x * Num(a) + y * Num(b) + f * Num(m), x * a[0] + y * b[0] + f * m[0], 0x8000_0000);
  }

  /** The value before the last correction is in -m..2m-1 and congruent to the combination over 2^31. */
  lemma MontgomeryRange(t: int, a: int, x: int, b: int, y: int, m: int, f: int)
    requires Factors(x, y) && 0 <= a <= m && 0 <= b <= m && 0 < m && 0 <= f < 0x8000_0000
    requires 0x8000_0000 * t == x * a + y * b + f * m
    ensures -m <= t < 2 * m
    ensures Cong(0x8000_0000 * t, x * a + y * b, m)
    ensures Cong(0x8000_0000 * (t % m), x * a + y * b, m)
  {
    hide *;
    CombinationBound(a, x, b, y, m);
    MulLe(m, f, 0x7FFF_FFFF);
    assert f * m == m * f && a * x == x * a && b * y == y * b;
    CongIntro(0x8000_0000 * t, x * a + y * b, f, m);
    CongMod(t, m);
    CongScale(0x8000_0000, t % m, t, m);
    CongTrans(0x8000_0000 * (t % m), 0x8000_0000 * t, x * a + y * b, m);
  }

  /** The loop over the words: four combined Montgomery multiplications, with signed top words. */
  method CoReduceModWords(a: array<U32>, b: array<U32>, m: seq<U32>, fa: U31, fb: U31, xa: int, xb: int, ya: int, yb: int)
    returns (cca: int, ccb: int, ghost full: seq<int>, ghost full': seq<int>)
    requires a != b && a.Length == b.Length == |m| >= 1 && Limbs(a[..]) && Limbs(b[..]) && Limbs(m)
    requires Factors(xa, xb) && Factors(ya, yb)
    modifies a, b
    ensures |full| == |full'| == |m| && LowAndTop(a[..], full[1..], cca) && LowAndTop(b[..], full'[1..], ccb)
    ensures Built(full, cca, xa * Num(old(a[..])) + xb * Num(old(b[..])) + fa * Num(m))
    ensures Built(full', ccb, ya * Num(old(a[..])) + yb * Num(old(b[..])) + fb * Num(m))
  {
    hide *;
    ghost var a0: seq<int>, b0: seq<int> := a[..], b[..];
    full, full' := [], [];
    var len := a.Length;
    cca, ccb := 0, 0;
    var u := 0;
    BuildStart(0);
    CombinationStart(a0, xa, b0, xb, m, fa);
    CombinationStart(a0, ya, b0, yb, m, fb);
    while u < len
      invariant 0 <= u <= len && |full| == |full'| == u
      invariant -0x8000_0000 <= cca < 0x1_0000_0000 && -0x8000_0000 <= ccb < 0x1_0000_0000
      invariant Built(full, cca, Combination(a0, xa, b0, xb, m, fa, u))
      invariant Built(full', ccb, Combination(a0, ya, b0, yb, m, fb, u))
      invariant forall i :: u <= i < len ==> a[i] == a0[i] && b[i] == b0[i]
      invariant forall i :: 1 <= i < u ==> a[i - 1] == full[i] && b[i - 1] == full'[i]
    {
      var wa: int, wb: int, wm: int := a[u], b[u], m[u];
      LimbAt(a0, u);
      LimbAt(b0, u);
      LimbAt(m, u);
      CombinedWord(wa, xa, wb, xb, wm, fa, cca);
      CombinedWord(wa, ya, wb, yb, wm, fb, ccb);
      var za := Combined(wa, xa, wb, xb, wm, fa, cca);
      var zb := Combined(wa, ya, wb, yb, wm, fb, ccb);
      BuildStep(full, cca, Combination(a0, xa, b0, xb, m, fa, u), wa * xa + wb * xb + wm * fa, za % 0x8000_0000, za / 0x8000_0000);
      BuildStep(full', ccb, Combination(a0, ya, b0, yb, m, fb, u), wa * ya + wb * yb + wm * fb, zb % 0x8000_0000, zb / 0x8000_0000);
      CombinationNext(a0, xa, b0, xb, m, fa, u);
      CombinationNext(a0, ya, b0, yb, m, fb, u);
      full, full' := full + [za % 0x8000_0000], full' + [zb % 0x8000_0000];
      if u > 0 {
        a[u - 1] := za % 0x8000_0000;
        b[u - 1] := zb % 0x8000_0000;
      }
      cca, ccb := za / 0x8000_0000, zb / 0x8000_0000;
      u := u + 1;
    }
    a[len - 1] := Wrap32(cca);
    b[len - 1] := Wrap32(ccb);
    BuiltLimbs(full, cca, Combination(a0, xa, b0, xb, m, fa, u));
    BuiltLimbs(full', ccb, Combination(a0, ya, b0, yb, m, fb, u));
    LowAndTopIntro(a[..], full, cca);
    LowAndTopIntro(b[..], full', ccb);
  }

  /** Replaces a and b by (a * xa + b * xb) / 2^31 and (a * ya + b * yb) / 2^31 modulo m. */
  method ZintCoReduceMod(a: array<U32>, b: array<U32>, m: seq<U32>, m0i: U31, xa: int, xb: int, ya: int, yb: int)
    requires a != b && a.Length == b.Length == |m| >= 1 && Limbs(a[..]) && Limbs(b[..]) && Limbs(m)
    requires Num(m) > 0 && Num(a[..]) <= Num(m) && Num(b[..]) <= Num(m)
    requires Cong(m[0] * m0i, -1, 0x8000_0000) && Factors(xa, xb) && Factors(ya, yb)
    modifies a, b
    ensures Limbs(a[..]) && Limbs(b[..]) && 0 <= Num(a[..]) < Num(m) && 0 <= Num(b[..]) < Num(m)
    ensures Cong(0x8000_0000 * Num(a[..]), xa * old(Num(a[..])) + xb * old(Num(b[..])), Num(m))
    ensures Cong(0x8000_0000 * Num(b[..]), ya * old(Num(a[..])) + yb * old(Num(b[..])), Num(m))
  {
    hide *;
    ghost var a0: seq<int>, b0: seq<int> := a[..], b[..];
    LimbAt(m, 0);
    var fa := Clearing(a[0], xa, b[0], xb, m0i);
    var fb := Clearing(a[0], ya, b[0], yb, m0i);
    ClearingMeaning(a[0], xa, b[0], xb, m[0], m0i);
    ClearingMeaning(a[0], ya, b[0], yb, m[0], m0i);
    LowestCombination(a0, xa, b0, xb, m, fa);
    LowestCombination(a0, ya, b0, yb, m, fb);
    NumBound(a0);
    NumBound(b0);
    var cca, ccb;
    ghost var full, full';
    cca, ccb, full, full' := CoReduceModWords(a, b, m, fa, fb, xa, xb, ya, yb);
    ShiftedTotal(full, cca, xa * Num(a0) + xb * Num(b0) + fa * Num(m));
    ShiftedTotal(full', ccb, ya * Num(a0) + yb * Num(b0) + fb * Num(m));
    ghost var ta, tb := Topped(full[1..], cca), Topped(full'[1..], ccb);
    MontgomeryRange(ta, Num(a0), xa, Num(b0), xb, Num(m), fa);
    MontgomeryRange(tb, Num(a0), ya, Num(b0), yb, Num(m), fb);
    RemainderBound(ta, Num(m));
    RemainderBound(tb, Num(m));
    ZintFinishMod(a, m, if cca < 0 then 1 else 0, full[1..], cca);
    ZintFinishMod(b, m, if ccb < 0 then 1 else 0, full'[1..], ccb);
  }
}
