/** Linear passes over 31-bit words: subtraction, addition, small multiples, normalisation. */
module LimbArithmetic {
  import opened Words
  import opened Residues
  import opened BigNum

  /** One word of a subtraction with borrow. */
  lemma SubWord(a: int, b: int, cc: int)
    requires 0 <= a < 0x8000_0000 && 0 <= b < 0x8000_0000 && 0 <= cc <= 1
    ensures var w := Wrap32(a - b - cc); w % 0x8000_0000 - 0x8000_0000 * Top32(w) == a - b - cc && Top32(w) <= 1
  {}

  lemma DifferenceTotal(a: seq<int>, b: seq<int>, u: nat)
    requires u < |a| == |b|
    ensures Num(a[..u + 1]) - Num(b[..u + 1]) == Num(a[..u]) - Num(b[..u]) + Place(a[u] - b[u], u)
  {
    hide *;
    NumStep(a, u);
    NumStep(b, u);
    PlaceAdd(a[u], b[u], u);
  }

  /** a - b with borrow, stored only under control of ctl; the borrow is returned either way. */
  method ZintSub(a: array<U32>, b: seq<U32>, ctl: nat) returns (cc: int)
    requires a.Length == |b| && ctl <= 1 && Limbs(a[..]) && Limbs(b)
    modifies a
    ensures 0 <= cc <= 1 && (cc == 1 <==> Num(old(a[..])) < Num(b)) && Limbs(a[..])
    ensures ctl == 0 ==> a[..] == old(a[..])
    ensures ctl == 1 ==> Num(a[..]) == Num(old(a[..])) - Num(b) + Place(cc, |b|)
  {
    hide *;
    ghost var a0: seq<int> := a[..];
    ghost var out: seq<int> := [];
    cc := 0;
    var u := 0;
    BuildStart(0);
    NumEmpty(a0);
    NumEmpty(b);
    while u < |b|
      invariant u <= |b| && |out| == u && 0 <= cc <= 1
      invariant Built(out, -cc, Num(a0[..u]) - Num(b[..u]))
      invariant forall i :: u <= i < |b| ==> a[i] == a0[i]
      invariant forall i :: 0 <= i < u ==> a[i] == if ctl == 1 then out[i] else a0[i]
    {
      var aw := a[u];
      LimbAt(a0, u);
      LimbAt(b, u);
      SubWord(aw, b[u], cc);
      var w := Wrap32(aw - b[u] - cc);
      ghost var top: int := Top32(w);
      BuildStep(out, -cc, Num(a0[..u]) - Num(b[..u]), aw - b[u], w % 0x8000_0000, -top);
      DifferenceTotal(a0, b, u);
      out := out + [w % 0x8000_0000];
      cc := Top32(w);
      if ctl == 1 { a[u] := w % 0x8000_0000; }
      u := u + 1;
    }
    assert a[..] == if ctl == 1 then out else a0;
    NumAll(a0);
    NumAll(b);
    BorrowMeaning(out, a0, b, cc);
  }

  lemma BorrowMeaning(out: seq<int>, a: seq<int>, b: seq<int>, cc: int)
    requires |out| == |a| == |b| && 0 <= cc <= 1 && Limbs(a) && Limbs(b)
    requires Built(out, -cc, Num(a) - Num(b))
    ensures Limbs(out) && Num(out) == Num(a) - Num(b) + Place(cc, |b|) && (cc == 1 <==> Num(a) < Num(b))
  {
    hide *;
    BuiltMeaning(out, -cc, Num(a) - Num(b));
    NumBound(a);
    NumBound(b);
    PlaceUnit(0, |b|);
  }

  // ---- Multiplication by one word ----

  /** One word of a multiplication: 64 bits hold the product, the addend and the carry. */
  lemma MulWord(a: int, x: int, b: int, cc: int)
    requires 0 <= a < 0x8000_0000 && 0 <= x < 0x8000_0000 && 0 <= b < 0x8000_0000 && 0 <= cc < 0x8000_0000
    ensures var z := Wrap64(a * x + b + cc);
      && 0 <= z % 0x8000_0000 < 0x8000_0000 && 0 <= z / 0x8000_0000 < 0x8000_0000
      && z % 0x8000_0000 + 0x8000_0000 * (z / 0x8000_0000) == a * x + b + cc
  {
    MulLe(a, x, 0x7FFF_FFFF);
    MulLe(0x7FFF_FFFF, a, 0x7FFF_FFFF);
    var z := a * x + b + cc;
    assert 0 <= z < 0x4000_0000_0000_0000;
  }

  /** Multiplies the first mlen words by x; the carry word is returned. */
  method ZintMulSmall(m: array<U32>, mlen: nat, x: U31) returns (cc: U31)
    requires mlen <= m.Length && Limbs(m[..mlen])
    modifies m
    ensures Limbs(m[..mlen]) && m[mlen..] == old(m[mlen..])
    ensures Num(m[..mlen]) + Place(cc, mlen) == x * Num(old(m[..mlen]))
  {
    hide *;
    ghost var m0: seq<int> := m[..mlen];
    ghost var m1 := m[mlen..];
    ghost var out: seq<int> := [];
    cc := 0;
    var u := 0;
    BuildStart(0);
    NumEmpty(m0);
    while u < mlen
      invariant u <= mlen && |out| == u
      invariant Built(out, cc, x * Num(m0[..u]))
      invariant forall i :: u <= i < mlen ==> m[i] == m0[i]
      invariant forall i :: 0 <= i < u ==> m[i] == out[i]
      invariant m[mlen..] == m1
    {
      LimbAt(m0, u);
      MulWord(m[u], x, 0, cc);
      var z: U64 := Wrap64(m[u] * x + 0 + cc);
      BuildStep(out, cc, x * Num(m0[..u]), m[u] * x, z % 0x8000_0000, z / 0x8000_0000);
      ScaledNext(m0, x, u);
      out := out + [z % 0x8000_0000];
      m[u] := z % 0x8000_0000;
      cc := z / 0x8000_0000;
      u := u + 1;
    }
    NumAll(m0);
    assert m[..mlen] == out;
    BuiltMeaning(out, cc, x * Num(m0));
  }

  lemma SumTotal(a: seq<int>, b: seq<int>, s: int, u: nat)
    requires u < |a| == |b|
    ensures Num(a[..u + 1]) + s * Num(b[..u + 1]) == Num(a[..u]) + s * Num(b[..u]) + Place(b[u] * s + a[u], u)
  {
    hide *;
    NumStep(a, u);
    ScaledNext(b, s, u);
    PlaceAdd(b[u] * s, a[u], u);
  }

  /** Adds y * s to the first len words of x; the carry becomes word len. */
  method ZintAddMulSmall(x: array<U32>, y: seq<U32>, len: nat, s: U31)
    requires len < x.Length && len == |y| && Limbs(x[..len]) && Limbs(y)
    modifies x
    ensures Limbs(x[..len + 1]) && x[len + 1..] == old(x[len + 1..])
    ensures Num(x[..len + 1]) == Num(old(x[..len])) + s * Num(y)
  {
    hide *;
    ghost var x0: seq<int> := x[..len];
    ghost var x1 := x[len + 1..];
    ghost var out: seq<int> := [];
    var cc: U31 := 0;
    var u := 0;
    BuildStart(0);
    NumEmpty(x0);
    NumEmpty(y);
    while u < len
      invariant u <= len && |out| == u
      invariant Built(out, cc, Num(x0[..u]) + s * Num(y[..u]))
      invariant forall i :: u <= i < len ==> x[i] == x0[i]
      invariant forall i :: 0 <= i < u ==> x[i] == out[i]
      invariant x[len + 1..] == x1
    {
      var xw, yw := x[u], y[u];
      LimbAt(x0, u);
      LimbAt(y, u);
      MulWord(yw, s, xw, cc);
      var z: U64 := Wrap64(yw * s + xw + cc);
      BuildStep(out, cc, Num(x0[..u]) + s * Num(y[..u]), yw * s + xw, z % 0x8000_0000, z / 0x8000_0000);
      SumTotal(x0, y, s, u);
      out := out + [z % 0x8000_0000];
      x[u] := z % 0x8000_0000;
      cc := z / 0x8000_0000;
      u := u + 1;
    }
    NumAll(x0);
    NumAll(y);
    assert x[..len] == out;
    x[len] := cc;
    assert x[..len + 1] == out + [cc];
    CarryWord(out, cc, Num(x0) + s * Num(y));
  }

  lemma CarryWord(out: seq<int>, cc: int, total: int)
    requires Built(out, cc, total) && 0 <= cc < 0x8000_0000
    ensures Limbs(out + [cc]) && Num(out + [cc]) == total
  {
    NumAppend(out, cc);
  }

  // ---- Addition and subtraction that may write over an operand ----

  lemma AddWord(a: int, b: int, cc: int)
    requires 0 <= a < 0x8000_0000 && 0 <= b < 0x8000_0000 && 0 <= cc <= 1
    ensures var w := a % 0x8000_0000 + b % 0x8000_0000 + cc;
      0 <= w < 0x1_0000_0000 && w % 0x8000_0000 + 0x8000_0000 * (w / 0x8000_0000) == a + b + cc && 0 <= w / 0x8000_0000 <= 1
  {}

  lemma PairTotal(a: seq<int>, b: seq<int>, u: nat)
    requires u < |a| == |b|
    ensures Num(a[..u + 1]) + Num(b[..u + 1]) == Num(a[..u]) + Num(b[..u]) + Place(a[u] + b[u], u)
  {
    hide *;
    NumStep(a, u);
    NumStep(b, u);
    PlaceAdd(a[u], b[u], u);
  }

  /** d = a + b, where d may be a or b; the carry is returned. */
  method Z31Add(d: array<U32>, a: array<U32>, b: array<U32>) returns (cc: int)
    requires d.Length == a.Length == b.Length && Limbs(a[..]) && Limbs(b[..])
    modifies d
    ensures 0 <= cc <= 1 && Limbs(d[..])
    ensures Num(d[..]) + Place(cc, d.Length) == old(Num(a[..])) + old(Num(b[..]))
  {
    hide *;
    ghost var a0: seq<int>, b0: seq<int> := a[..], b[..];
    ghost var out: seq<int> := [];
    var len := d.Length;
    cc := 0;
    var u := 0;
    BuildStart(0);
    NumEmpty(a0);
    NumEmpty(b0);
    while u < len
      invariant u <= len && |out| == u && 0 <= cc <= 1
      invariant Built(out, cc, Num(a0[..u]) + Num(b0[..u]))
      invariant forall i :: u <= i < len ==> a[i] == a0[i] && b[i] == b0[i]
      invariant forall i :: 0 <= i < u ==> d[i] == out[i]
    {
      LimbAt(a0, u);
      LimbAt(b0, u);
      AddWord(a[u], b[u], cc);
      var w: int := a[u] % 0x8000_0000 + b[u] % 0x8000_0000 + cc;
      BuildStep(out, cc, Num(a0[..u]) + Num(b0[..u]), a[u] + b[u], w % 0x8000_0000, w / 0x8000_0000);
      PairTotal(a0, b0, u);
      out := out + [w % 0x8000_0000];
      d[u] := w % 0x8000_0000;
      cc := w / 0x8000_0000;
      u := u + 1;
    }
    NumAll(a0);
    NumAll(b0);
    assert d[..] == out;
    BuiltMeaning(out, cc, Num(a0) + Num(b0));
  }

  /** One word of a subtraction, with the borrow found by comparing. */
  lemma CompareWord(a: int, b: int, cc: int)
    requires 0 <= a < 0x8000_0000 && 0 <= b < 0x8000_0000 && 0 <= cc <= 1
    ensures var aw, bw := a % 0x8000_0000, b % 0x8000_0000;
      Wrap32(aw - bw - cc) % 0x8000_0000 - 0x8000_0000 * (if aw < bw + cc then 1 else 0) == a - b - cc
  {}

  /** d = a - b, where d may be a or b; the borrow is returned. */
  method Z31Sub(d: array<U32>, a: array<U32>, b: array<U32>) returns (cc: int)
    requires d.Length == a.Length == b.Length && Limbs(a[..]) && Limbs(b[..])
    modifies d
    ensures 0 <= cc <= 1 && Limbs(d[..]) && (cc == 1 <==> old(Num(a[..])) < old(Num(b[..])))
    ensures Num(d[..]) == old(Num(a[..])) - old(Num(b[..])) + Place(cc, d.Length)
  {
    hide *;
    ghost var a0: seq<int>, b0: seq<int> := a[..], b[..];
    ghost var out: seq<int> := [];
    var len := d.Length;
    cc := 0;
    var u := 0;
    BuildStart(0);
    NumEmpty(a0);
    NumEmpty(b0);
    while u < len
      invariant u <= len && |out| == u && 0 <= cc <= 1
      invariant Built(out, -cc, Num(a0[..u]) - Num(b0[..u]))
      invariant forall i :: u <= i < len ==> a[i] == a0[i] && b[i] == b0[i]
      invariant forall i :: 0 <= i < u ==> d[i] == out[i]
    {
      LimbAt(a0, u);
      LimbAt(b0, u);
      CompareWord(a[u], b[u], cc);
      var aw: int, bw: int := a[u] % 0x8000_0000, b[u] % 0x8000_0000;
      var w := Wrap32(aw - bw - cc);
      var borrow: int := if aw < bw + cc then 1 else 0;
      BuildStep(out, -cc, Num(a0[..u]) - Num(b0[..u]), a0[u] - b0[u], w % 0x8000_0000, -borrow);
      DifferenceTotal(a0, b0, u);
      out := out + [w % 0x8000_0000];
      d[u] := w % 0x8000_0000;
      cc := borrow;
      u := u + 1;
    }
    NumAll(a0);
    NumAll(b0);
    assert d[..] == out;
    BorrowMeaning(out, a0, b0, cc);
  }

  // ---- Normalisation around zero ----

  function Sign(x: int): int { if x < 0 then -1 else if x == 0 then 0 else 1 }

  /** One word of the comparison of x with p/2, from the top down. */
  lemma CompareHalves(x: int, xs: int, p: int, ps: int, bb: int, r: int)
    requires 0 <= x < 0x8000_0000 && 0 <= p < 0x8000_0000 && bb == ps % 2
    requires r == Sign(ps / 2 - xs)
    ensures var wp := p / 2 + bb * 0x4000_0000;
      && 0 <= wp < 0x8000_0000 && (p + 0x8000_0000 * ps) % 2 == p % 2
      && (if r == 0 then Sign(wp - x) else r) == Sign((p + 0x8000_0000 * ps) / 2 - (x + 0x8000_0000 * xs))
  {
    var h := ps / 2;
    assert ps == 2 * h + bb;
    assert (p + 0x8000_0000 * ps) / 2 == p / 2 + bb * 0x4000_0000 + 0x8000_0000 * h;
  }

  /** The sign of floor(p/2) - x. */
  method CompareWithHalf(x: seq<U32>, p: seq<U32>) returns (r: int)
    requires |x| == |p| && Limbs(x) && Limbs(p)
    ensures r == Sign(Num(p) / 2 - Num(x))
  {
    hide *;
    r := 0;
    var bb := 0;
    var u := |x|;
    assert x[u..] == [] && p[u..] == [];
    NumEmpty(x);
    SignZero();
    while u > 0
      invariant 0 <= u <= |x| && 0 <= bb && bb == Num(p[u..]) % 2
      invariant r == Sign(Num(p[u..]) / 2 - Num(x[u..]))
    {
      u := u - 1;
      var wx := x[u];
      var wp := p[u] / 2 + bb * 0x4000_0000;
      NumCons(x[u..]);
      NumCons(p[u..]);
      assert x[u..][0] == x[u] && x[u..][1..] == x[u + 1..] && p[u..][0] == p[u] && p[u..][1..] == p[u + 1..];
      LimbAt(x, u);
      LimbAt(p, u);
      CompareHalves(wx, Num(x[u + 1..]), p[u], Num(p[u + 1..]), bb, r);
      bb := p[u] % 2;
      r := if r == 0 then Sign(wp as int - wx) else r;
    }
    assert x[0..] == x && p[0..] == p;
  }

  lemma SignZero()
    ensures Sign(0) == 0 && Sign(0 / 2 - 0) == 0
  {}

  /** x below p becomes x - p when it exceeds p/2; two's complement encodes the sign. */
  method ZintNormZero(x: array<U32>, p: seq<U32>)
    requires x.Length == |p| && Limbs(x[..]) && Limbs(p) && Num(p) % 2 == 1 && Num(x[..]) < Num(p)
    modifies x
    ensures Limbs(x[..])
    ensures SignedNum(x[..]) == var n := Num(old(x[..])); if 2 * n > Num(p) then n - Num(p) else n
  {
    hide *;
    ghost var n := Num(x[..]);
    NumBound(x[..]);
    NumBound(p);
    var r := CompareWithHalf(x[..], p);
    var cc := ZintSub(x, p, if r < 0 then 1 else 0);
    PlaceUnit(0, |p|);
    CentredNum(x[..], n, Num(p), r);
  }

  lemma CentredNum(x: seq<int>, n: int, p: int, r: int)
    requires 0 <= n < p < Base(|x|) && p % 2 == 1 && r == Sign(p / 2 - n)
    requires Num(x) == if r < 0 then n - p + Base(|x|) else n
    ensures SignedNum(x) == if 2 * n > p then n - p else n
  {}
}
