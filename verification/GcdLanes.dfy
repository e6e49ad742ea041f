/** The inner loop of the batched GCD: 31 bitwise steps on single words, as in crypto/keygen.c. */
module GcdLanes {
  import opened Words
  import opened Residues
  import opened BigNum
  import opened BezoutSteps
  import opened BezoutModular

  /** The top bit of a 64-bit word. */
  function Top64(x: U64): bool { x >= 0x8000_0000_0000_0000 }

  /** a > b, from the top bits of a, b and b - a. */
  function Exceeds(a: U64, b: U64): (r: bool)
    ensures r <==> a > b
  {
    var z := Wrap64(b - a);
    Top64(z) != (Top64(a) != Top64(b) && Top64(a) != Top64(z))
  }

  /** x is a multiple of 2^i. */
  ghost predicate Multiple(x: int, i: nat) { Cong(x, 0, Pow2(i)) }

  /** Bit i of a word. */
  function Bit(x: U32, i: nat): nat { (x / Pow2(i)) % 2 }

  lemma MultipleIntro(x: int, c: int, i: nat)
    requires x == c * Pow2(i)
    ensures Multiple(x, i)
  {
    CongIntro(x, 0, c, Pow2(i));
  }

  lemma MultipleElim(x: int, i: nat) returns (c: int)
    requires Multiple(x, i)
    ensures x == c * Pow2(i)
    ensures 0 <= x < 0x1_0000_0000 ==> c == x / Pow2(i)
  {
    c := CongElim(x, 0, Pow2(i));
    RemainderUnique(x, c, 0, Pow2(i));
  }

  /** Wrapping to 32 bits keeps divisibility by 2^i. */
  lemma MultipleWrap(x: int, i: nat)
    requires Multiple(x, i) && i <= 32
    ensures Multiple(Wrap32(x), i)
  {
    hide Multiple;
    var c := MultipleElim(x, i);
    Pow2Add(32 - i, i);
    Pow2Values();
    var k := x / 0x1_0000_0000;
    var h, w := Pow2(32 - i), Pow2(i);
    assert Wrap32(x) == x - k * 0x1_0000_0000;
    MulAssoc(k, h, w);
    MulAdd(w, c, k * h);
    MultipleIntro(Wrap32(x), c - k * h, i);
  }

  lemma HalfQuotient(c: int, w: int)
    requires c % 2 == 0
    ensures c * w == (c / 2) * (2 * w)
  {
    var h := c / 2;
    assert c == 2 * h;
    MulAssoc(h, 2, w);
  }

  /** A clear bit gives one more factor of two. */
  lemma MultipleNext(x: U32, i: nat)
    requires Multiple(x, i) && Bit(x, i) == 0
    ensures Multiple(x, i + 1)
  {
    hide Multiple, Cong;
    var c := MultipleElim(x, i);
    HalfQuotient(c, Pow2(i));
    MultipleIntro(x, c / 2, i + 1);
  }

  /** The difference of two words with bit i set has it clear. */
  lemma MultipleDifference(x: U32, y: U32, i: nat)
    requires Multiple(x, i) && Multiple(y, i) && Bit(x, i) == 1 && Bit(y, i) == 1 && i < 32
    ensures Multiple(Wrap32(x - y), i + 1)
  {
    hide Multiple, Cong;
    var c := MultipleElim(x, i);
    var d := MultipleElim(y, i);
    MulAdd(Pow2(i), c, d);
    HalfQuotient(c - d, Pow2(i));
    MultipleIntro(x - y, (c - d) / 2, i + 1);
    MultipleWrap(x - y, i + 1);
  }

  lemma MultipleDouble(x: U32, i: nat)
    requires Multiple(x, i) && i < 32
    ensures Multiple(Wrap32(x + x), i + 1)
  {
    hide Multiple, Cong;
    var c := MultipleElim(x, i);
    DoubleProduct(Pow2(i), c);
    assert c * (2 * Pow2(i)) == 2 * (c * Pow2(i));
    MultipleIntro(x + x, c, i + 1);
    MultipleWrap(x + x, i + 1);
  }

  /** What the inner loop keeps for one operand: its low word, its top words and its two factors. */
  datatype Lane = Lane(lo: U32, hi: U64, p: int, q: int) {
    function Minus(other: Lane): Lane {
      Lane(Wrap32(lo as int - other.lo), Wrap64(hi as int - other.hi), p - other.p, q - other.q)
    }

    /** Not dividing by two: the low word and the factors are doubled instead. */
    function Doubled(): Lane { Lane(Wrap32(2 * (lo as int)), hi, 2 * p, 2 * q) }

    function Halved(): Lane { Lane(lo, hi / 2, p, q) }

    /** After i steps: factors at most 2^i; the low word is that combination of a and b, divisible by 2^i. */
    ghost predicate Tracks(a: int, b: int, i: nat) {
      Abs(p) + Abs(q) <= Pow2(i) && Multiple(lo, i) && Cong(lo, p * a + q * b, 0x8000_0000)
    }
  }

  lemma TracksStart(alo: U32, blo: U32, ahi: U64, bhi: U64, a: int, b: int)
    requires Cong(alo, a, 0x8000_0000) && Cong(blo, b, 0x8000_0000)
    ensures Lane(alo, ahi, 1, 0).Tracks(a, b, 0) && Lane(blo, bhi, 0, 1).Tracks(a, b, 0)
  {
    MultipleIntro(alo, alo, 0);
    MultipleIntro(blo, blo, 0);
  }

  lemma TracksHalved(l: Lane, a: int, b: int, i: nat)
    requires l.Tracks(a, b, i) && Bit(l.lo, i) == 0
    ensures l.Halved().Tracks(a, b, i + 1)
  {
    hide Multiple, Cong, Bit;
    MultipleNext(l.lo, i);
  }

  lemma TracksDifference(l: Lane, m: Lane, a: int, b: int, i: nat)
    requires l.Tracks(a, b, i) && m.Tracks(a, b, i) && Bit(l.lo, i) == 1 && Bit(m.lo, i) == 1 && i < 31
    ensures l.Minus(m).Halved().Tracks(a, b, i + 1)
  {
    hide Multiple, Cong, Bit, Wrap32;
    MultipleDifference(l.lo, m.lo, i);
    CongSub(l.lo, l.p * a + l.q * b, m.lo, m.p * a + m.q * b, 0x8000_0000);
    MulAdd(a, l.p, m.p);
    MulAdd(b, l.q, m.q);
    assert (l.p * a + l.q * b) - (m.p * a + m.q * b) == (l.p - m.p) * a + (l.q - m.q) * b;
    LowResidue(l.lo - m.lo);
    CongTrans(Wrap32(l.lo - m.lo), l.lo - m.lo, (l.p - m.p) * a + (l.q - m.q) * b, 0x8000_0000);
  }

  lemma TracksDoubled(l: Lane, a: int, b: int, i: nat)
    requires l.Tracks(a, b, i) && i < 31
    ensures l.Doubled().Tracks(a, b, i + 1)
  {
    hide Multiple, Cong, Wrap32;
    var lo: int := l.lo;
    MultipleDouble(l.lo, i);
    CongScale(2, lo, l.p * a + l.q * b, 0x8000_0000);
    DoubleProduct(l.p, a);
    DoubleProduct(l.q, b);
    assert 2 * (l.p * a + l.q * b) == (2 * l.p) * a + (2 * l.q) * b;
    LowResidue(2 * lo);
    CongTrans(Wrap32(2 * lo), 2 * lo, (2 * l.p) * a + (2 * l.q) * b, 0x8000_0000);
  }

  lemma TracksAll(l: Lane, a: int, b: int)
    requires l.Tracks(a, b, 31)
    ensures Factors(l.p, l.q) && (l.p * a + l.q * b) % 0x8000_0000 == 0
  {
    Pow2Values();
    CongMeaning(l.p * a + l.q * b, 0, 0x8000_0000);
  }

  /** One bitwise step: exactly one operand is halved, after a subtraction if both are odd. */
  function LaneStep(l: Lane, m: Lane, i: nat): (Lane, Lane) {
    var rt := Exceeds(l.hi, m.hi);
    var oa, ob := Bit(l.lo, i), Bit(m.lo, i);
    var cAB := oa == 1 && ob == 1 && rt;
    var cBA := oa == 1 && ob == 1 && !rt;
    var cA := cAB || oa != 1;
    var l' := if cAB then l.Minus(m) else l;
    var m' := if cBA then m.Minus(l') else m;
    if cA then (l'.Halved(), m'.Doubled()) else (l'.Doubled(), m'.Halved())
  }

  lemma TracksNext(l: Lane, m: Lane, a: int, b: int, i: nat)
    requires l.Tracks(a, b, i) && m.Tracks(a, b, i) && i < 31
    ensures LaneStep(l, m, i).0.Tracks(a, b, i + 1) && LaneStep(l, m, i).1.Tracks(a, b, i + 1)
  {
    hide Lane.Tracks, Bit, Lane.Minus, Lane.Doubled, Lane.Halved;
    BitRange(l.lo, i);
    BitRange(m.lo, i);
    if Bit(l.lo, i) == 0 {
      TracksHalved(l, a, b, i);
      TracksDoubled(m, a, b, i);
    } else if Bit(m.lo, i) == 0 {
      TracksDoubled(l, a, b, i);
      TracksHalved(m, a, b, i);
    } else if Exceeds(l.hi, m.hi) {
      TracksDifference(l, m, a, b, i);
      TracksDoubled(m, a, b, i);
    } else {
      TracksDoubled(l, a, b, i);
      TracksDifference(m, l, a, b, i);
    }
  }

  lemma BitRange(x: U32, i: nat)
    ensures Bit(x, i) == 0 || Bit(x, i) == 1
  {}

  /** The two lanes after k steps. */
  function LaneSteps(l: Lane, m: Lane, k: nat): (Lane, Lane) {
    if k == 0 then (l, m) else
      var (l', m') := LaneSteps(l, m, k - 1);
      LaneStep(l', m', k - 1)
  }

  lemma LaneStepsNext(l: Lane, m: Lane, k: nat)
    ensures LaneSteps(l, m, 0) == (l, m)
    ensures LaneSteps(l, m, k + 1) == LaneStep(LaneSteps(l, m, k).0, LaneSteps(l, m, k).1, k)
  {}

  /** The four reduction factors of a round. */
  function RoundFactors(alo: U32, blo: U32, ahi: U64, bhi: U64): (int, int, int, int) {
    var (l, m) := LaneSteps(Lane(alo, ahi, 1, 0), Lane(blo, bhi, 0, 1), 31);
    (l.p, l.q, m.p, m.q)
  }

  lemma RoundFactorsMeaning(alo: U32, blo: U32, ahi: U64, bhi: U64)
    ensures var (l, m) := LaneSteps(Lane(alo, ahi, 1, 0), Lane(blo, bhi, 0, 1), 31);
      RoundFactors(alo, blo, ahi, bhi) == (l.p, l.q, m.p, m.q)
  {}

  /**
   The reduction factors of one round, from the low word and the top words of a and b. Whatever
   the top words are, the two combinations are multiples of 2^31 and the factors are small.
   */
  method ReductionFactors(alo: U32, blo: U32, ahi: U64, bhi: U64, ghost a: int, ghost b: int) returns (pa: int, pb: int, qa: int, qb: int)
    requires Cong(alo, a, 0x8000_0000) && Cong(blo, b, 0x8000_0000)
    ensures Factors(pa, pb) && Factors(qa, qb)
    ensures (pa * a + pb * b) % 0x8000_0000 == 0 && (qa * a + qb * b) % 0x8000_0000 == 0
    ensures (pa, pb, qa, qb) == RoundFactors(alo, blo, ahi, bhi)
  {
    hide *;
    var l, m := Lane(alo, ahi, 1, 0), Lane(blo, bhi, 0, 1);
    TracksStart(alo, blo, ahi, bhi, a, b);
    ghost var l0, m0 := l, m;
    LaneStepsNext(l0, m0, 0);
    for i := 0 to 31
      invariant l.Tracks(a, b, i) && m.Tracks(a, b, i)
      invariant (l, m) == LaneSteps(l0, m0, i)
    {
      TracksNext(l, m, a, b, i);
      LaneStepsNext(l0, m0, i);
      var next := LaneStep(l, m, i);
      l, m := next.0, next.1;
    }
    TracksAll(l, a, b);
    TracksAll(m, a, b);
    RoundFactorsMeaning(alo, blo, ahi, bhi);
    return l.p, l.q, m.p, m.q;
  }

  /** The two top words of a and b together, from place j down; only one word when j is 0. */
  ghost predicate TopWords(a: seq<int>, b: seq<int>, j: nat, ahi: int, bhi: int) {
    && j < |a| == |b| && (forall k :: j < k < |a| ==> a[k] == 0 && b[k] == 0)
    && if j == 0 then ahi == a[0] && bhi == b[0]
       else (a[j] != 0 || b[j] != 0) && ahi == a[j] * 0x8000_0000 + a[j - 1] && bhi == b[j] * 0x8000_0000 + b[j - 1]
  }

  method ExtractTop(a: seq<U32>, b: seq<U32>) returns (ahi: U64, bhi: U64)
    requires |a| == |b| >= 1 && Limbs(a) && Limbs(b)
    ensures exists j :: TopWords(a, b, j, ahi, bhi)
    ensures 0 <= Num(a) && 0 <= Num(b) && (ahi, bhi) == TopPair(Num(a), Num(b))
  {
    hide Num;
    var c0, c1 := true, true;
    var a0, a1, b0, b1: U32 := 0, 0, 0, 0;
    var j := |a|;
    ghost var top: nat := 0;
    while j > 0
      invariant 0 <= j <= |a| && (c0 ==> c1)
      invariant c0 ==> forall k :: j <= k < |a| ==> a[k] == 0 && b[k] == 0
      invariant c1 && j < |a| ==> a0 == a1 == a[j] && b0 == b1 == b[j]
      invariant !c0 && c1 ==> top == j
      invariant !c1 ==> 0 < top < |a| && j < top && a1 == a[top - 1] && b1 == b[top - 1]
      invariant !c0 ==> j <= top < |a| && a0 == a[top] && b0 == b[top] && (a[top] != 0 || b[top] != 0)
      invariant !c0 ==> forall k :: top < k < |a| ==> a[k] == 0 && b[k] == 0
    {
      j := j - 1;
      var aw, bw := a[j], b[j];
      if c0 { a0, b0, top := aw, bw, j; }
      if c1 { a1, b1 := aw, bw; }
      c1 := c0;
      c0 := c0 && aw == 0 && bw == 0;
    }
    if c1 { a0, b0, top := 0, 0, 0; }
    ahi := a0 as int * 0x8000_0000 + a1;
    bhi := b0 as int * 0x8000_0000 + b1;
    assert TopWords(a, b, top, ahi, bhi);
    NumBound(a);
    NumBound(b);
    TopIsPair(a, b, top, ahi, bhi);
  }

  /** The leading 62 bits of two numbers: whole numbers if they are that small, or else without their low words. */
  function TopPair(a: nat, b: nat): (r: (U64, U64))
    ensures r.0 < 0x4000_0000_0000_0000 && r.1 < 0x4000_0000_0000_0000
    decreases a + b
  {
    if a < 0x4000_0000_0000_0000 && b < 0x4000_0000_0000_0000 then (a, b)
    else TopPair(a / 0x8000_0000, b / 0x8000_0000)
  }

  lemma {:induction false} TopIsPair(a: seq<int>, b: seq<int>, j: nat, ahi: int, bhi: int)
    requires Limbs(a) && Limbs(b) && TopWords(a, b, j, ahi, bhi)
    ensures 0 <= Num(a) && 0 <= Num(b) && (ahi, bhi) == TopPair(Num(a), Num(b))
    decreases j
  {
    hide Num, Limbs, TopPair;
    NumBound(a);
    NumBound(b);
    NumCons(a);
    NumCons(b);
    if j <= 1 {
      TopOfFew(a, j);
      TopOfFew(b, j);
      SmallPair(Num(a), Num(b));
    } else {
      TailLimbs(a);
      TailLimbs(b);
      TailTop(a, b, j, ahi, bhi);
      TopIsPair(a[1..], b[1..], j - 1, ahi, bhi);
      if a[j] != 0 { LargeNumber(a, j); } else { LargeNumber(b, j); }
      LowestApart(Num(a), a[0], Num(a[1..]));
      LowestApart(Num(b), b[0], Num(b[1..]));
      LargePair(Num(a), Num(b));
    }
  }

  lemma SmallPair(a: nat, b: nat)
    requires a < 0x4000_0000_0000_0000 && b < 0x4000_0000_0000_0000
    ensures TopPair(a, b) == (a, b)
  {}

  lemma LargePair(a: nat, b: nat)
    requires a >= 0x4000_0000_0000_0000 || b >= 0x4000_0000_0000_0000
    ensures TopPair(a, b) == TopPair(a / 0x8000_0000, b / 0x8000_0000)
  {}

  lemma LowestApart(n: int, w: int, t: int)
    requires n == w + 0x8000_0000 * t && 0 <= w < 0x8000_0000
    ensures n / 0x8000_0000 == t
  {
    RemainderUnique(n, t, w, 0x8000_0000);
  }

  lemma TailLimbs(a: seq<int>)
    requires Limbs(a) && |a| > 0
    ensures Limbs(a[1..]) && 0 <= a[0] < 0x8000_0000
  {}

  lemma TailTop(a: seq<int>, b: seq<int>, j: nat, ahi: int, bhi: int)
    requires TopWords(a, b, j, ahi, bhi) && j >= 2
    ensures TopWords(a[1..], b[1..], j - 1, ahi, bhi)
  {
    assert forall k :: 0 <= k < |a| - 1 ==> a[1..][k] == a[k + 1] && b[1..][k] == b[k + 1];
  }

  /** A number of one or two words. */
  lemma TopOfFew(a: seq<int>, j: nat)
    requires Limbs(a) && j <= 1 && j < |a| && forall k :: j < k < |a| ==> a[k] == 0
    ensures Num(a) == (if j == 0 then a[0] else a[1] * 0x8000_0000 + a[0]) < 0x4000_0000_0000_0000
  {
    hide Num;
    NumCons(a);
    var t := a[1..];
    assert forall k :: 0 <= k < |t| ==> t[k] == a[k + 1];
    if j == 0 {
      ZeroWords(t);
    } else {
      NumCons(t);
      assert forall k :: 0 <= k < |t[1..]| ==> t[1..][k] == a[k + 2];
      ZeroWords(t[1..]);
    }
  }

  lemma {:induction false} ZeroWords(s: seq<int>)
    requires forall k :: 0 <= k < |s| ==> s[k] == 0
    ensures Num(s) == 0
  {
    if |s| > 0 { ZeroWords(s[..|s| - 1]); }
  }

  /** A nonzero word from place 2 on makes the number at least 2^62. */
  lemma LargeNumber(a: seq<int>, j: nat)
    requires Limbs(a) && 2 <= j < |a| && a[j] != 0
    ensures Num(a) >= 0x4000_0000_0000_0000
  {
    hide Num;
    NumCons(a);
    NumCons(a[1..]);
    var t := a[1..][1..];
    assert t == a[2..] && t[j - 2] == a[j];
    TailLimbs(a);
    TailLimbs(a[1..]);
    PositiveWords(t, j - 2);
  }

  lemma {:induction false} PositiveWords(s: seq<int>, j: nat)
    requires Limbs(s) && j < |s| && s[j] != 0
    ensures Num(s) >= 1
    decreases |s|
  {
    hide Num;
    NumCons(s);
    TailLimbs(s);
    NumBound(s[1..]);
    if j > 0 {
      assert s[1..][j - 1] == s[j];
      PositiveWords(s[1..], j - 1);
    }
  }
}
