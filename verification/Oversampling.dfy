/**
 Why the constant-time hash draws as many samples as it does (crypto/common.c): all streams are
 counted, and those with too few accepted samples.
 */
module Oversampling {
  import opened Words
  import opened Residues
  import opened HashToPoint

  const ACCEPTED: nat := 61445
  const REJECTED: nat := 4091

  // ---- Counting streams ----

  /** The streams of S continued by one sample in lo..hi-1. */
  ghost function Extended(S: set<seq<U16>>, lo: nat, hi: nat): set<seq<U16>>
    requires hi <= 0x1_0000
  {
    set s: seq<U16>, w: U16 | s in S && lo <= w < hi :: s + [w]
  }

  lemma ExtendedMember(S: set<seq<U16>>, lo: nat, hi: nat, s: seq<U16>)
    requires hi <= 0x1_0000
    ensures s in Extended(S, lo, hi) <==> |s| > 0 && s[..|s| - 1] in S && lo <= s[|s| - 1] < hi
  {
    if |s| > 0 && s[..|s| - 1] in S && lo <= s[|s| - 1] < hi { assert s == s[..|s| - 1] + [s[|s| - 1]]; }
  }

  lemma {:induction false} ExtendedSize(S: set<seq<U16>>, lo: nat, hi: nat)
    requires lo <= hi <= 0x1_0000
    ensures |Extended(S, lo, hi)| == |S| * (hi - lo)
    decreases |S|
  {
    if S == {} {
      assert Extended(S, lo, hi) == {};
    } else {
      var x :| x in S;
      hide Extended;
      ExtendedParts(S - {x}, x, lo, hi);
      assert S - {x} + {x} == S;
      ExtendedSize(S - {x}, lo, hi);
      OneExtended(x, lo, hi);
      MulAdd(hi - lo, |S| - 1, 1);
    }
  }

  lemma ExtendedParts(S: set<seq<U16>>, x: seq<U16>, lo: nat, hi: nat)
    requires x !in S && lo <= hi <= 0x1_0000
    ensures |Extended(S + {x}, lo, hi)| == |Extended(S, lo, hi)| + |Extended({x}, lo, hi)|
  {
    hide *;
    var A, B, C := Extended(S + {x}, lo, hi), Extended(S, lo, hi), Extended({x}, lo, hi);
    forall s: seq<U16> ensures s in A <==> s in B || s in C {
      ExtendedMember(S + {x}, lo, hi, s);
      ExtendedMember(S, lo, hi, s);
      ExtendedMember({x}, lo, hi, s);
    }
    forall s: seq<U16> | s in B ensures s !in C {
      ExtendedMember(S, lo, hi, s);
      ExtendedMember({x}, lo, hi, s);
    }
    assert A == B + C && B !! C;
  }

  lemma {:induction false} OneExtended(x: seq<U16>, lo: nat, hi: nat)
    requires lo <= hi <= 0x1_0000
    ensures |Extended({x}, lo, hi)| == hi - lo
    decreases hi
  {
    if lo == hi {
      assert Extended({x}, lo, hi) == {};
    } else {
      var last: U16 := hi - 1;
      OneExtended(x, lo, hi - 1);
      var A, B := Extended({x}, lo, hi), Extended({x}, lo, hi - 1);
      hide Extended;
      forall s: seq<U16> ensures s in A <==> s in B || s == x + [last] {
        ExtendedMember({x}, lo, hi, s);
        ExtendedMember({x}, lo, hi - 1, s);
      }
      ExtendedMember({x}, lo, hi - 1, x + [last]);
      assert A == B + {x + [last]};
    }
  }

  /** The streams of m samples of which at least j are rejected. */
  ghost function Failures(m: nat, j: nat): set<seq<U16>> {
    if m == 0 then (if j == 0 then {[]} else {})
    else Extended(Failures(m - 1, j), 0, 61445) + Extended(Failures(m - 1, if j == 0 then 0 else j - 1), 61445, 0x1_0000)
  }

  lemma {:induction false} FailuresMember(m: nat, j: nat, s: seq<U16>)
    ensures s in Failures(m, j) <==> |s| == m && |Accepted(s)| + j <= m
    decreases m
  {
    hide Accepted, Extended;
    AcceptedBound(s);
    if m > 0 {
      var i := if j == 0 then 0 else j - 1;
      ExtendedMember(Failures(m - 1, j), 0, 61445, s);
      ExtendedMember(Failures(m - 1, i), 61445, 0x1_0000, s);
      if |s| > 0 {
        var front := s[..|s| - 1];
        FailuresMember(m - 1, j, front);
        FailuresMember(m - 1, i, front);
        AcceptedStep(s, |s| - 1);
        AcceptedBound(front);
        assert s[..|s|] == s;
      }
    }
  }

  lemma AcceptedBound(s: seq<U16>)
    ensures |Accepted(s)| <= |s| && (|s| == 0 ==> s == [])
  {}

  /** The number of such streams. */
  function Count(m: nat, j: nat): nat {
    if m == 0 then (if j == 0 then 1 else 0)
    else ACCEPTED * Count(m - 1, j) + REJECTED * Count(m - 1, if j == 0 then 0 else j - 1)
  }

  lemma {:induction false} CountMeaning(m: nat, j: nat)
    ensures |Failures(m, j)| == Count(m, j)
    decreases m
  {
    hide *;
    if m == 0 {
      NoSamples(j);
    } else {
      var i := if j == 0 then 0 else j - 1;
      FailuresStep(m, j, i);
      CountMeaning(m - 1, j);
      CountMeaning(m - 1, i);
      ContinuedSize(Failures(m - 1, j), Failures(m - 1, i));
    }
  }

  lemma NoSamples(j: nat)
    ensures |Failures(0, j)| == Count(0, j)
  {}

  lemma ContinuedSize(S: set<seq<U16>>, T: set<seq<U16>>)
    ensures |Extended(S, 0, 61445) + Extended(T, 61445, 0x1_0000)| == |S| * 61445 + |T| * 4091
  {
    hide *;
    ExtendedSize(S, 0, 61445);
    ExtendedSize(T, 61445, 0x1_0000);
    DisjointParts(S, T);
  }

  lemma FailuresStep(m: nat, j: nat, i: nat)
    requires m > 0 && i == if j == 0 then 0 else j - 1
    ensures Failures(m, j) == Extended(Failures(m - 1, j), 0, 61445) + Extended(Failures(m - 1, i), 61445, 0x1_0000)
    ensures Count(m, j) == Count(m - 1, j) * 61445 + Count(m - 1, i) * 4091
  {
    hide Extended;
  }

  lemma DisjointParts(S: set<seq<U16>>, T: set<seq<U16>>)
    ensures |Extended(S, 0, 61445) + Extended(T, 61445, 0x1_0000)| == |Extended(S, 0, 61445)| + |Extended(T, 61445, 0x1_0000)|
  {
    hide *;
    var A, B := Extended(S, 0, 61445), Extended(T, 61445, 0x1_0000);
    forall s: seq<U16> | s in A ensures s !in B {
      ExtendedMember(S, 0, 61445, s);
      ExtendedMember(T, 61445, 0x1_0000, s);
    }
    assert A !! B;
  }

  /** All streams of m samples. */
  ghost function Streams(m: nat): set<seq<U16>> { Failures(m, 0) }

  /** Those with fewer than n accepted samples. */
  ghost function TooFew(m: nat, n: nat): set<seq<U16>> {
    set s: seq<U16> | s in Streams(m) && |Accepted(s)| < n
  }

  lemma StreamsMember(m: nat, s: seq<U16>)
    ensures s in Streams(m) <==> |s| == m
  {
    hide Accepted, Failures;
    AcceptedBound(s);
    FailuresMember(m, 0, s);
  }

  lemma TooFewSize(m: nat, n: nat)
    requires n <= m + 1
    ensures |TooFew(m, n)| == Count(m, m + 1 - n)
  {
    hide Accepted, Failures, Count;
    var j := m + 1 - n;
    forall s: seq<U16> ensures s in TooFew(m, n) <==> s in Failures(m, j) {
      FailuresMember(m, 0, s);
      FailuresMember(m, j, s);
    }
    assert TooFew(m, n) == Failures(m, j);
    CountMeaning(m, j);
  }

  // ---- Binomial terms ----

  function Power(x: nat, k: nat): nat {
    if k == 0 then 1
    else
      var h := Power(x, k / 2);
      if k % 2 == 1 then h * h * x else h * h
  }

  lemma {:induction false} PowerNext(x: nat, k: nat)
    ensures Power(x, k + 1) == Power(x, k) * x
  {
    if k % 2 == 1 {
      var h := Power(x, k / 2);
      PowerNext(x, k / 2);
      assert (k + 1) / 2 == k / 2 + 1;
      SquareNext(h, x);
    } else {
      assert (k + 1) / 2 == k / 2;
    }
  }

  lemma SquareNext(h: nat, x: nat)
    ensures (h * x) * (h * x) == h * h * x * x
  {}

  lemma {:induction false} CountAll(m: nat)
    ensures Count(m, 0) == Power(0x1_0000, m)
  {
    if m > 0 {
      CountAll(m - 1);
      PowerNext(0x1_0000, m - 1);
    }
  }

  function Choose(m: nat, j: nat): nat {
    if j == 0 then 1 else if m == 0 then 0 else Choose(m - 1, j) + Choose(m - 1, j - 1)
  }

  lemma {:induction false} ChooseNone(m: nat, j: nat)
    requires j > m
    ensures Choose(m, j) == 0
    decreases m
  {
    if m > 0 {
      ChooseNone(m - 1, j);
      ChooseNone(m - 1, j - 1);
    }
  }

  lemma {:induction false} ChooseNext(m: nat, j: nat)
    requires j <= m
    ensures Choose(m, j + 1) * (j + 1) == Choose(m, j) * (m - j)
    decreases m
  {
    if m == j {
      ChooseNone(m, j + 1);
    } else {
      var c, d := Choose(m - 1, j + 1), Choose(m - 1, j);
      ChooseNext(m - 1, j);
      if j > 0 {
        var e := Choose(m - 1, j - 1);
        ChooseNext(m - 1, j - 1);
        NextScalar(c, d, e, j, m);
      }
    }
  }

  lemma NextScalar(c: nat, d: nat, e: nat, j: nat, m: nat)
    requires 0 < j < m && c * (j + 1) == d * (m - 1 - j) && d * j == e * (m - j)
    ensures (c + d) * (j + 1) == (d + e) * (m - j)
  {}

  /** The number of streams of m samples of which exactly j are rejected. */
  function Exactly(m: nat, j: nat): nat
    requires j <= m
  {
    Choose(m, j) * (Power(ACCEPTED, m - j) * Power(REJECTED, j))
  }

  /** At least j rejections are exactly j, or more. */
  lemma {:induction false} CountSplit(m: nat, j: nat)
    requires j <= m
    ensures Count(m, j) == Exactly(m, j) + Count(m, j + 1)
    decreases m
  {
    hide Power;
    if m == 0 {
      PowersOfZero(ACCEPTED);
      PowersOfZero(REJECTED);
    } else {
      ExactlyStep(m, j);
      if j > 0 { CountSplit(m - 1, j - 1); }
      if j < m { CountSplit(m - 1, j); } else { CountNone(m - 1, j); CountNone(m - 1, j + 1); }
      if j == 0 { assert Count(m - 1, 1) >= 0; }
    }
  }

  lemma PowersOfZero(x: nat)
    ensures Power(x, 0) == 1
  {}

  lemma {:induction false} CountNone(m: nat, j: nat)
    requires j > m
    ensures Count(m, j) == 0
    decreases m
  {
    if m > 0 {
      CountNone(m - 1, j);
      CountNone(m - 1, j - 1);
    }
  }

  lemma ExactlyStep(m: nat, j: nat)
    requires 0 < m && j <= m
    ensures Exactly(m, j) == (if j < m then ACCEPTED * Exactly(m - 1, j) else 0) + (if j > 0 then REJECTED * Exactly(m - 1, j - 1) else 0)
  {
    var c, d := Choose(m - 1, j), if j > 0 then Choose(m - 1, j - 1) else 0;
    var p, q := Power(ACCEPTED, m - j), Power(REJECTED, j);
    hide Power;
    if j < m { PowerNext(ACCEPTED, m - 1 - j); } else { ChooseNone(m - 1, j); }
    if j > 0 { PowerNext(REJECTED, j - 1); }
    assert Choose(m, j) == c + d;
    MulAdd(p * q, c, d);
    if j < m { FactorOut(c, Power(ACCEPTED, m - 1 - j), q, ACCEPTED); }
    if j > 0 { FactorOut(d, Power(REJECTED, j - 1), p, REJECTED); }
  }

  lemma FactorOut(c: nat, x: nat, y: nat, z: nat)
    ensures c * ((x * z) * y) == z * (c * (x * y)) && c * (y * (x * z)) == z * (c * (y * x))
  {}

  /** How the terms for j and j + 1 rejections compare. */
  lemma TermRatio(m: nat, j: nat)
    requires j < m
    ensures Exactly(m, j + 1) * ((j + 1) * ACCEPTED) == Exactly(m, j) * ((m - j) * REJECTED)
  {
    var c, d, x, y := Choose(m, j), Choose(m, j + 1), Power(ACCEPTED, m - j - 1), Power(REJECTED, j);
    hide Power, Choose;
    ChooseNext(m, j);
    PowerNext(ACCEPTED, m - j - 1);
    PowerNext(REJECTED, j);
    hide *;
    RatioScalar(c, d, x, y, j, m - j);
  }

  lemma RatioScalar(c: nat, d: nat, x: nat, y: nat, j: nat, k: nat)
    requires d * (j + 1) == c * k
    ensures (d * (x * (y * REJECTED))) * ((j + 1) * ACCEPTED) == (c * ((x * ACCEPTED) * y)) * (k * REJECTED)
  {
    calc {
      (d * (x * (y * REJECTED))) * ((j + 1) * ACCEPTED);
      (d * (j + 1)) * (x * y * REJECTED * ACCEPTED);
      (c * k) * (x * y * REJECTED * ACCEPTED);
      (c * ((x * ACCEPTED) * y)) * (k * REJECTED);
    }
  }

  /** From J rejections on, the terms fall at least as fast as a geometric series does. */
  lemma {:induction false} Tail(m: nat, J: nat, j: nat)
    requires J <= j <= m && (m - J) * REJECTED < (J + 1) * ACCEPTED
    ensures Count(m, j) * ((J + 1) * ACCEPTED - (m - J) * REJECTED) <= (J + 1) * ACCEPTED * Exactly(m, j)
    decreases m - j
  {
    var a, b := (m - J) * REJECTED, (J + 1) * ACCEPTED;
    CountSplit(m, j);
    hide *;
    if j == m {
      CountNone(m, j + 1);
      MulLe(Exactly(m, j), b - a, b);
    } else {
      Tail(m, J, j + 1);
      TermRatio(m, j);
      TailScalar(Count(m, j + 1), Exactly(m, j + 1), Exactly(m, j), a, b, (m - j) * REJECTED, (j + 1) * ACCEPTED);
      MulAdd(b - a, Exactly(m, j), Count(m, j + 1));
    }
  }

  lemma TailScalar(rest: nat, next: nat, term: nat, a: nat, b: nat, a': nat, b': nat)
    requires a' <= a < b <= b' && next * b' == term * a' && rest * (b - a) <= b * next
    ensures (term + rest) * (b - a) <= b * term
  {
    MulLe(next, b, b');
    MulLe(term, a', a);
    MulAdd(b - a, term, rest);
    assert term * (b - a) == term * b - term * a;
  }

  // ---- Approximate binomial coefficients ----

  /** The product of k numbers from x downwards. */
  function Falling(x: int, k: nat): int
    decreases k
  {
    if k == 0 then 1 else x * Falling(x - 1, k - 1)
  }

  lemma {:induction false} FallingSplit(x: int, j: nat, k: nat)
    ensures Falling(x, j + k) == Falling(x, j) * Falling(x - j, k)
    decreases j
  {
    if j > 0 {
      FallingSplit(x - 1, j - 1, k);
      MulAssoc(x, Falling(x - 1, j - 1), Falling(x - j, k));
    }
  }

  /** The same product, four factors at a time. */
  function Fall(x: int, k: nat): int
    decreases k
  {
    if k >= 4 then Fall4(x) * Fall(x - 4, k - 4) else if k > 0 then x * Fall(x - 1, k - 1) else 1
  }

  function Fall4(x: int): int { x * (x - 1) * (x - 2) * (x - 3) }

  function Fall16(x: int): int { Fall4(x) * Fall4(x - 4) * Fall4(x - 8) * Fall4(x - 12) }

  lemma {:induction false} FallIsFalling(x: int, k: nat)
    ensures Fall(x, k) == Falling(x, k)
    decreases k
  {
    if k >= 4 {
      FallIsFalling(x - 4, k - 4);
      FourFactors(x, k - 4);
    } else if k > 0 {
      FallIsFalling(x - 1, k - 1);
    }
  }

  lemma FallSixteen(x: int)
    ensures Fall16(x) == Falling(x, 16)
  {
    hide Falling, Fall4;
    FourFactors(x, 12);
    FourFactors(x - 4, 8);
    FourFactors(x - 8, 4);
    FourFactors(x - 12, 0);
    assert Falling(x - 16, 0) == 1 by { NoFactors(x - 16); }
    FiveFactors(Fall4(x), Fall4(x - 4), Fall4(x - 8), Fall4(x - 12), 1);
  }

  lemma NoFactors(x: int)
    ensures Falling(x, 0) == 1
  {}

  lemma FourFactors(x: int, k: nat)
    ensures Falling(x, 4 + k) == Fall4(x) * Falling(x - 4, k)
  {
    FallingSplit(x, 4, k);
    assert Falling(x - 3, 1) == x - 3;
    assert Falling(x - 2, 2) == (x - 2) * (x - 3);
    assert Falling(x - 1, 3) == (x - 1) * ((x - 2) * (x - 3));
    FiveFactors(x, x - 1, x - 2, x - 3, 1);
  }

  lemma FiveFactors(a: int, b: int, c: int, d: int, e: int)
    ensures a * b * c * d * e == a * (b * (c * (d * e)))
  {}

  lemma {:induction false} ChooseGrows(m: nat, j: nat, k: nat)
    requires j + k <= m
    ensures Choose(m, j + k) * Falling(j + k, k) == Choose(m, j) * Falling(m - j, k)
    decreases k
  {
    if k > 0 {
      ChooseGrows(m, j, k - 1);
      ChooseNext(m, j + k - 1);
      FallingSplit(m - j, k - 1, 1);
      var c, d, f, g := Choose(m, j + k), Choose(m, j + k - 1), Falling(j + k - 1, k - 1), Falling(m - j, k - 1);
      var r := m - j - (k - 1);
      assert Falling(r, 1) == r;
      assert Falling(j + k, k) == (j + k) * f;
      hide *;
      GrowScalar(c, d, Choose(m, j), f, g, j + k, r);
    }
  }

  lemma GrowScalar(c: nat, d: nat, e: nat, f: int, g: int, j: nat, r: int)
    requires c * j == d * r && d * f == e * g
    ensures c * (j * f) == e * (g * r)
  {
    MulAssoc(c, j, f);
    assert (d * r) * f == (d * f) * r;
    MulAssoc(e, g, r);
  }

  /** The number of ways to place j rejected samples among m lies between lo * 2^(16t) and hi * 2^(16t). */
  ghost predicate Near(m: nat, j: nat, lo: nat, hi: nat, t: nat) {
    lo * Power(0x1_0000, t) <= Choose(m, j) * Power(REJECTED, j) <= hi * Power(0x1_0000, t)
  }

  lemma GrowBy(m: nat, j: nat, k: nat, lo: nat, hi: nat, t: nat, lo': nat, hi': nat, s: nat)
    requires j + k <= m && Near(m, j, lo, hi, t)
    requires lo' * Power(0x1_0000, s) * Falling(j + k, k) <= lo * Power(REJECTED, k) * Falling(m - j, k)
    requires hi * Power(REJECTED, k) * Falling(m - j, k) <= hi' * Power(0x1_0000, s) * Falling(j + k, k)
    ensures Near(m, j + k, lo', hi', t + s)
  {
    hide Power, Choose, Falling;
    ChooseGrows(m, j, k);
    FallingPositive(j + k, k);
    FallingPositive(m - j, k);
    PowerAdd(0x1_0000, t, s);
    PowerAdd(REJECTED, j, k);
    var c, c', x, y, f, g := Choose(m, j), Choose(m, j + k), Power(REJECTED, j), Power(REJECTED, k), Falling(m - j, k), Falling(j + k, k);
    hide *;
    TermScalar(c, c', x, y, f, g);
    MulAssoc(lo, y, f);
    MulAssoc(hi, y, f);
    NearScalar(c * x, c' * (x * y), lo, hi, lo', hi', Power(0x1_0000, t), Power(0x1_0000, s), y * f, g);
  }

  /** Sixteen more rejections. */
  lemma Grow(m: nat, j: nat, lo: nat, hi: nat, t: nat, lo': nat, hi': nat, s: nat, u: nat)
    requires j + 16 <= m && Near(m, j, lo, hi, t) && u == Power(2, s)
    requires lo' * Pow16(u) * Fall16(j + 16) <= lo * Pow16(REJECTED) * Fall16(m - j)
    requires hi * Pow16(REJECTED) * Fall16(m - j) <= hi' * Pow16(u) * Fall16(j + 16)
    ensures Near(m, j + 16, lo', hi', t + s)
  {
    hide *;
    PowerOfPower(s);
    PowerSixteen(u);
    PowerSixteen(REJECTED);
    FallSixteen(j + 16);
    FallSixteen(m - j);
    GrowBy(m, j, 16, lo, hi, t, lo', hi', s);
  }

  /** The last few rejections. */
  lemma GrowRest(m: nat, j: nat, k: nat, lo: nat, hi: nat, t: nat, lo': nat, hi': nat, s: nat)
    requires j + k <= m && Near(m, j, lo, hi, t)
    requires lo' * Power(0x1_0000, s) * Fall(j + k, k) <= lo * Power(REJECTED, k) * Fall(m - j, k)
    requires hi * Power(REJECTED, k) * Fall(m - j, k) <= hi' * Power(0x1_0000, s) * Fall(j + k, k)
    ensures Near(m, j + k, lo', hi', t + s)
  {
    hide *;
    FallIsFalling(j + k, k);
    FallIsFalling(m - j, k);
    GrowBy(m, j, k, lo, hi, t, lo', hi', s);
  }

  function Pow4(x: nat): nat { x * x * x * x }

  function Pow16(x: nat): nat { Pow4(Pow4(x)) }

  lemma PowerFour(x: nat, k: nat)
    ensures Power(x, 4 * k) == Pow4(Power(x, k))
  {
    hide Power;
    var p := Power(x, k);
    PowerAdd(x, k, k);
    PowerAdd(x, k + k, k);
    PowerAdd(x, k + k + k, k);
  }

  lemma PowerSixteen(x: nat)
    ensures Power(x, 16) == Pow16(x)
  {
    hide *;
    PowerOnce(x);
    PowerFour(x, 1);
    PowerFour(x, 4);
    SixteenParts(x);
  }

  lemma SixteenParts(x: nat)
    ensures Pow16(x) == Pow4(Pow4(x))
  {}

  lemma PowerOnce(x: nat)
    ensures Power(x, 1) == x
  {}

  lemma PowerOfPower(s: nat)
    ensures Power(0x1_0000, s) == Power(Power(2, s), 16)
  {
    hide *;
    SixteenBits(s);
    var u := Power(2, s);
    PowerFour(2, s);
    PowerFour(2, 4 * s);
    PowerSixteen(u);
    SixteenParts(u);
  }

  lemma TermScalar(c: nat, c': nat, x: nat, y: nat, f: nat, g: nat)
    requires c' * g == c * f
    ensures (c' * (x * y)) * g == (c * x) * (y * f)
  {
    calc {
      (c' * (x * y)) * g;
      (c' * g) * (x * y);
      (c * f) * (x * y);
      (c * x) * (y * f);
    }
  }

  lemma {:induction false} PowerAdd(x: nat, j: nat, k: nat)
    ensures Power(x, j + k) == Power(x, j) * Power(x, k)
  {
    hide Power;
    if k == 0 {
      PowersOfZero(x);
    } else {
      PowerAdd(x, j, k - 1);
      PowerNext(x, j + k - 1);
      PowerNext(x, k - 1);
      MulAssoc(Power(x, j), Power(x, k - 1), x);
    }
  }

  lemma NearScalar(c: nat, c': nat, lo: nat, hi: nat, lo': nat, hi': nat, u: nat, v: nat, f: nat, g: nat)
    requires lo * u <= c <= hi * u && c' * g == c * f && g > 0 && lo' * v * g <= lo * f && hi * f <= hi' * v * g
    ensures lo' * (u * v) <= c' <= hi' * (u * v)
  {
    MulLe(f, lo * u, c);
    MulLe(f, c, hi * u);
    MulLe(u, lo' * v * g, lo * f);
    MulLe(u, hi * f, hi' * v * g);
    Regroup(lo', u, v, g);
    Regroup(hi', u, v, g);
    MulAssoc(lo, u, f);
    MulAssoc(hi, u, f);
    hide *;
    LessByFactor(lo' * (u * v), c', g);
    LessByFactor(c', hi' * (u * v), g);
  }

  lemma Regroup(x: nat, u: nat, v: nat, g: nat)
    ensures u * (x * v * g) == (x * (u * v)) * g
  {}

  lemma LessByFactor(x: nat, y: nat, g: nat)
    requires g > 0 && x * g <= y * g
    ensures x <= y
  {
    if y < x { MulLe(g, y + 1, x); MulAdd(g, y, 1); }
  }

  lemma {:induction false} FallingPositive(x: nat, k: nat)
    requires k <= x
    ensures Falling(x, k) > 0
    decreases k
  {
    if k > 0 {
      FallingPositive(x - 1, k - 1);
      MulLe(Falling(x - 1, k - 1), 1, x);
    }
  }

  // ---- The table ----

  /** The terms at J and J - 1 rejections, by the binomial coefficient. */
  lemma Absorb(m: nat, J: nat)
    requires 0 < J <= m
    ensures J * Choose(m, J) == m * Choose(m - 1, J - 1)
  {
    hide *;
    ChooseNext(m - 1, J - 1);
    ChooseStep(m, J);
    AbsorbScalar(Choose(m - 1, J), Choose(m - 1, J - 1), J, m);
  }

  lemma ChooseStep(m: nat, J: nat)
    requires 0 < J <= m
    ensures Choose(m, J) == Choose(m - 1, J) + Choose(m - 1, J - 1)
  {}

  lemma AbsorbScalar(c: nat, d: nat, J: int, m: int)
    requires c * J == d * (m - J)
    ensures J * (c + d) == m * d
  {
    MulAdd(J, c, d);
    MulAdd(d, m, -J);
  }

  /** A power of the number of accepted values lies between lo * 2^e and hi * 2^e. */
  ghost predicate NearPower(n: nat, lo: nat, hi: nat, e: nat) {
    lo * Power(2, e) <= Power(ACCEPTED, n) <= hi * Power(2, e)
  }

  lemma Square(n: nat, lo: nat, hi: nat, e: nat, lo': nat, hi': nat, d: nat)
    requires NearPower(n, lo, hi, e) && lo' * Power(2, d) <= lo * lo && hi * hi <= hi' * Power(2, d)
    ensures NearPower(2 * n, lo', hi', 2 * e + d)
  {
    hide Power;
    PowerAdd(ACCEPTED, n, n);
    PowerAdd(2, e, e);
    PowerAdd(2, 2 * e, d);
    SquareScalar(Power(ACCEPTED, n), lo, hi, lo', hi', Power(2, e), Power(2, d));
  }

  lemma SquareScalar(x: nat, lo: nat, hi: nat, lo': nat, hi': nat, u: nat, v: nat)
    requires lo * u <= x <= hi * u && lo' * v <= lo * lo && hi * hi <= hi' * v
    ensures lo' * ((u * u) * v) <= x * x <= hi' * ((u * u) * v)
  {
    MulLe(lo * u, lo * u, x);
    MulLe(x, lo * u, x);
    MulLe(x, x, hi * u);
    MulLe(hi * u, x, hi * u);
    MulLe(u * u, lo' * v, lo * lo);
    MulLe(u * u, hi * hi, hi' * v);
    SquareParts(lo, u);
    SquareParts(hi, u);
    MulAssoc(lo', v, u * u);
    MulAssoc(hi', v, u * u);
  }

  lemma SquareParts(x: nat, u: nat)
    ensures (x * u) * (x * u) == (x * x) * (u * u)
  {}

  /** With over + 1 or more rejections out of n + over samples, fewer than n are left; over is enough, and one less is not. */
  ghost predicate Sharp(n: nat, over: nat)
    requires n > 0
  {
    && Count(n + over, over + 1) * Power(2, 256) < Power(0x1_0000, n + over)
    && Count(n + over - 1, over) * Power(2, 256) >= Power(0x1_0000, n + over - 1)
  }

  lemma Decide(n: nat, over: nat, lo: nat, hi: nat, t: nat, lo': nat, hi': nat, d: nat, s: nat)
    requires n > 0 && Near(n + over, over + 1, lo, hi, t) && NearPower(n, lo', hi', d)
    requires (n - 1) * REJECTED < (over + 2) * ACCEPTED && 16 * (n + over) == 16 * t + d + 272 + s
    requires (over + 2) * ACCEPTED * hi * hi' < ((over + 2) * ACCEPTED - (n - 1) * REJECTED) * ACCEPTED * (0x1_0000 * Power(2, s))
    requires (over + 1) * lo * lo' >= (n + over) * REJECTED * ACCEPTED * Power(2, s)
    ensures Sharp(n, over)
  {
    hide *;
    var m, x, y, w := n + over, Choose(n + over, over + 1) * Power(REJECTED, over + 1), Power(ACCEPTED, n), Power(2, 16 * t + d);
    NearMeaning(m, over + 1, lo, hi, t);
    NearPowerMeaning(n, lo', hi', d);
    SixteenBits(t);
    UnitScale(16 * t, d, s, m);
    ProductNear(x, lo, hi, Power(2, 16 * t), y, lo', hi', Power(2, d));
    MulAssoc((over + 2) * ACCEPTED, hi, hi');
    MulAssoc(over + 1, lo, lo');
    Upper(n, over, hi * hi', w, 0x1_0000 * Power(2, s));
    Lower(n, over, lo * lo', w, Power(2, s));
    SharpIntro(n, over);
  }

  lemma Upper(n: nat, over: nat, h: nat, w: nat, v: nat)
    requires n > 0 && w > 0 && (n - 1) * REJECTED < (over + 2) * ACCEPTED
    requires Choose(n + over, over + 1) * Power(REJECTED, over + 1) * Power(ACCEPTED, n) <= h * w
    requires (over + 2) * ACCEPTED * h < ((over + 2) * ACCEPTED - (n - 1) * REJECTED) * ACCEPTED * v
    ensures Count(n + over, over + 1) * Power(2, 256) < w * Power(2, 256) * v
  {
    hide *;
    var m, J := n + over, over + 1;
    Tail(m, J, J);
    PowerNext(ACCEPTED, n - 1);
    PowerPositive(2, 256);
    ExactlyMeaning(m, J);
    UpperScalar(Count(m, J), Choose(m, J), Power(ACCEPTED, n - 1), Power(REJECTED, J), (n - 1) * REJECTED, (over + 2) * ACCEPTED, h, w,
                Power(2, 256), v);
  }

  lemma Lower(n: nat, over: nat, l: nat, w: nat, v: nat)
    requires n > 0 && l * w <= Choose(n + over, over + 1) * Power(REJECTED, over + 1) * Power(ACCEPTED, n)
    requires (over + 1) * l >= (n + over) * REJECTED * ACCEPTED * v
    ensures Count(n + over - 1, over) * Power(2, 256) >= w * Power(2, 256) * v
  {
    var m, y := n + over, REJECTED * ACCEPTED;
    assert y > 0;
    hide *;
    var c, d, p, q := Choose(m, over + 1), Choose(m - 1, over), Power(ACCEPTED, n - 1), Power(REJECTED, over);
    Absorb(m, over + 1);
    CountSplit(m - 1, over);
    ExactlyMeaning(m - 1, over);
    PowerNext(ACCEPTED, n - 1);
    PowerNext(REJECTED, over);
    LowerParts(c, p, q);
    MulAssoc(m, REJECTED, ACCEPTED);
    MulAssoc(m, y, v);
    MulAssoc(m, v, y);
    LowerScalar(Count(m - 1, over), c, d, p * q, m, over + 1, l, w, Power(2, 256), v, y);
  }

  lemma SharpIntro(n: nat, over: nat)
    requires n > 0 && Count(n + over, over + 1) * Power(2, 256) < Power(0x1_0000, n + over)
    requires Count(n + over - 1, over) * Power(2, 256) >= Power(0x1_0000, n + over - 1)
    ensures Sharp(n, over)
  {}

  lemma ExactlyMeaning(m: nat, j: nat)
    requires j <= m
    ensures Exactly(m, j) == Choose(m, j) * (Power(ACCEPTED, m - j) * Power(REJECTED, j))
  {}

  lemma NearMeaning(m: nat, j: nat, lo: nat, hi: nat, t: nat)
    requires Near(m, j, lo, hi, t)
    ensures lo * Power(0x1_0000, t) <= Choose(m, j) * Power(REJECTED, j) <= hi * Power(0x1_0000, t)
  {}

  lemma NearPowerMeaning(n: nat, lo: nat, hi: nat, e: nat)
    requires NearPower(n, lo, hi, e)
    ensures lo * Power(2, e) <= Power(ACCEPTED, n) <= hi * Power(2, e)
  {}

  lemma UnitScale(e: nat, d: nat, s: nat, m: nat)
    requires 16 * m == e + d + 272 + s
    ensures Power(0x1_0000, m) == Power(2, e + d) * Power(2, 256) * (0x1_0000 * Power(2, s))
    ensures m > 0 && Power(0x1_0000, m - 1) == Power(2, e + d) * Power(2, 256) * Power(2, s)
    ensures Power(2, e + d) == Power(2, e) * Power(2, d) > 0 && Power(2, 256) > 0
  {
    hide *;
    PowerAdd(2, e, d);
    PowerAdd(2, e + d, 256);
    PowerAdd(2, e + d + 256, s);
    SixteenBits(m - 1);
    PowerNext(0x1_0000, m - 1);
    assert (Power(2, e + d) * Power(2, 256) * Power(2, s)) * 0x1_0000 == Power(2, e + d) * Power(2, 256) * (0x1_0000 * Power(2, s));
    PowerPositive(2, e + d);
    PowerPositive(2, 256);
  }

  lemma {:induction false} SixteenBits(m: nat)
    ensures Power(0x1_0000, m) == Power(2, 16 * m)
  {
    hide Power;
    if m == 0 {
      PowersOfZero(2);
      PowersOfZero(0x1_0000);
    } else {
      SixteenBits(m - 1);
      PowerNext(0x1_0000, m - 1);
      PowerAdd(2, 16 * (m - 1), 16);
      assert Power(2, 16) == 0x1_0000 by { SixteenTwos(); }
    }
  }

  lemma SixteenTwos()
    ensures Power(2, 16) == 0x1_0000
  {}

  lemma ProductNear(x: nat, lo: nat, hi: nat, u: nat, y: nat, lo': nat, hi': nat, v: nat)
    requires lo * u <= x <= hi * u && lo' * v <= y <= hi' * v
    ensures (lo * lo') * (u * v) <= x * y <= (hi * hi') * (u * v)
  {
    MulLe(lo * u, lo' * v, y);
    MulLe(y, lo * u, x);
    MulLe(x, y, hi' * v);
    MulLe(hi' * v, x, hi * u);
    ProductParts(lo, u, lo', v);
    ProductParts(hi, u, hi', v);
  }

  lemma ProductParts(x: nat, u: nat, y: nat, v: nat)
    ensures (x * u) * (y * v) == (x * y) * (u * v)
  {}

  lemma {:induction false} PowerPositive(x: nat, k: nat)
    requires x > 0
    ensures Power(x, k) > 0
  {
    if k > 0 {
      PowerPositive(x, k - 1);
      PowerNext(x, k - 1);
      MulLe(Power(x, k - 1), 1, x);
    }
  }

  lemma UpperScalar(count: nat, c: nat, p: nat, q: nat, a: nat, b: nat, h: nat, w: nat, u: nat, v: nat)
    requires a < b && w > 0 && u > 0 && (c * q) * (p * ACCEPTED) <= h * w
    requires count * (b - a) <= b * (c * (p * q)) && b * h < (b - a) * ACCEPTED * v
    ensures count * u < w * u * v
  {
    if w * u * v <= count * u {
      var t := c * (p * q);
      assert w * u * v == (w * v) * u;
      LessByFactor(w * v, count, u);
      MulLe(b - a, w * v, count);
      MulLe(ACCEPTED, (b - a) * (w * v), b * t);
      UpperParts(a, b, c, p, q, w, v);
      MulLe(b, t * ACCEPTED, h * w);
      UpperOrder(((b - a) * ACCEPTED) * v, b * h, w);
      MulAssoc(b, h, w);
      assert false;
    }
  }

  lemma UpperParts(a: nat, b: nat, c: nat, p: nat, q: nat, w: nat, v: nat)
    requires a < b
    ensures ((b - a) * (w * v)) * ACCEPTED == (((b - a) * ACCEPTED) * v) * w
    ensures (b * (c * (p * q))) * ACCEPTED == b * ((c * (p * q)) * ACCEPTED) && (c * (p * q)) * ACCEPTED == (c * q) * (p * ACCEPTED)
  {
    MulAssoc(b, c * (p * q), ACCEPTED);
    assert c * (p * q) == (c * q) * p by { MulAssoc(c, q, p); assert p * q == q * p; }
    MulAssoc(c * q, p, ACCEPTED);
    assert (b - a) * (w * v) == ((b - a) * v) * w by { MulAssoc(b - a, v, w); assert w * v == v * w; }
  }

  lemma UpperOrder(x: int, y: nat, w: nat)
    requires y < x && w > 0
    ensures y * w < x * w
  {
    MulLe(w, y + 1, x);
    MulAdd(w, y, 1);
  }

  lemma LowerScalar(count: nat, c: nat, d: nat, z: nat, m: nat, J: nat, l: nat, w: nat, u: nat, v: nat, y: nat)
    requires l * w <= (c * z) * y && J * c == m * d && m > 0 && y > 0 && count >= d * z && J * l >= (m * v) * y
    ensures count * u >= w * u * v
  {
    MulLe(w, (m * v) * y, J * l);
    MulAssoc(J, l, w);
    MulLe(J, l * w, (c * z) * y);
    hide *;
    MulAssoc(J, c * z, y);
    MulAssoc(J, c, z);
    MulAssoc(m, d, z);
    MulAssoc(m * v, y, w);
    MulAssoc(m * v, w, y);
    MulAssoc(m, v, w);
    LessByFactor(m * (v * w), m * (d * z), y);
    LessByFactor(v * w, d * z, m);
    MulLe(u, v * w, count);
    MulAssoc(w, u, v);
    MulAssoc(v, w, u);
  }

  lemma LowerParts(c: nat, p: nat, q: nat)
    ensures c * (q * REJECTED) * (p * ACCEPTED) == (c * (p * q)) * (REJECTED * ACCEPTED)
  {
    calc {
      (c * (q * REJECTED)) * (p * ACCEPTED);
      (c * (q * p)) * (REJECTED * ACCEPTED);
      (c * (p * q)) * (REJECTED * ACCEPTED);
    }
  }
}
