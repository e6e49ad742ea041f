/** The batched GCD on integers: whole rounds, and when they are exact, as in crypto/keygen.c. */
module GcdRounds {
  import opened Words
  import opened Residues
  import opened GcdSteps
  import opened GcdLanes

  /** One round on the two running integers. */
  function Round(a: nat, b: nat): (nat, nat) {
    var (ahi, bhi) := TopPair(a, b);
    var (pa, pb, qa, qb) := RoundFactors(a % 0x8000_0000, b % 0x8000_0000, ahi, bhi);
    (Abs(pa * a + pb * b) / 0x8000_0000, Abs(qa * a + qb * b) / 0x8000_0000)
  }

  lemma RoundMeaning(a: nat, b: nat, pa: int, pb: int, qa: int, qb: int, a': int, b': int)
    requires (pa, pb, qa, qb) == RoundFactors(a % 0x8000_0000, b % 0x8000_0000, TopPair(a, b).0, TopPair(a, b).1)
    requires 0x8000_0000 * a' == Abs(pa * a + pb * b) && 0x8000_0000 * b' == Abs(qa * a + qb * b)
    ensures (a', b') == Round(a, b)
  {
    hide RoundFactors, TopPair;
    RemainderUnique(Abs(pa * a + pb * b), a', 0, 0x8000_0000);
    RemainderUnique(Abs(qa * a + qb * b), b', 0, 0x8000_0000);
  }

  function Rounds(a: nat, b: nat, r: nat): (nat, nat) {
    if r == 0 then (a, b) else
      var (c, d) := Rounds(a, b, r - 1);
      Round(c, d)
  }

  lemma RoundsNext(a: nat, b: nat, r: nat)
    ensures Rounds(a, b, 0) == (a, b) && Rounds(a, b, r + 1) == Round(Rounds(a, b, r).0, Rounds(a, b, r).1)
  {}

  /** What the batched GCD of operands of len words decides. */
  ghost predicate GcdIsOne(x: nat, y: nat, len: nat) {
    len > 0 && x % 2 == 1 && y % 2 == 1 && Rounds(x, y, (62 * len + 30) / 30).0 == 1
  }

  // ---- Numbers of at most 62 bits: every step is exact ----

  /** The lane l stands for the exact number n after i steps. */
  ghost predicate Exactly(l: Lane, n: nat, a: int, b: int, i: nat) {
    l.hi == n && l.p * a + l.q * b == Pow2(i) * n && l.Tracks(a, b, i)
  }

  /** Bit i of the low word is the lowest bit of the number. */
  lemma BitOfLane(l: Lane, n: nat, a: int, b: int, i: nat)
    requires Exactly(l, n, a, b, i) && i <= 30
    ensures Bit(l.lo, i) == n % 2
  {
    var c := CongElim(l.lo, l.p * a + l.q * b, 0x8000_0000);
    var w, v := Pow2(i), Pow2(31 - i);
    Pow2Add(31 - i, i);
    Pow2Values();
    assert v == 2 * Pow2(30 - i);
    MulAssoc(c, v, w);
    MulAdd(w, n, c * v);
    RemainderUnique(l.lo, n + c * v, 0, w);
    EvenShift(n, c, Pow2(30 - i));
  }

  lemma EvenShift(n: int, c: int, h: int)
    ensures (n + c * (2 * h)) % 2 == n % 2
  {
    MulAssoc(2, c, h);
    RemainderUnique(n + c * (2 * h), n / 2 + c * h, n % 2, 2);
  }

  lemma HalvedExactly(l: Lane, n: nat, a: int, b: int, i: nat)
    requires Exactly(l, n, a, b, i) && n % 2 == 0 && i < 31
    ensures Exactly(l.Halved(), n / 2, a, b, i + 1)
  {
    hide Multiple, Cong, Bit;
    BitOfLane(l, n, a, b, i);
    TracksHalved(l, a, b, i);
    MulAssoc(Pow2(i), 2, n / 2);
    DoubleProduct(Pow2(i), n / 2);
  }

  lemma DoubledExactly(l: Lane, n: nat, a: int, b: int, i: nat)
    requires Exactly(l, n, a, b, i) && i < 31
    ensures Exactly(l.Doubled(), n, a, b, i + 1)
  {
    hide Multiple, Cong, Lane.Tracks;
    TracksDoubled(l, a, b, i);
    DoubleProduct(l.p, a);
    DoubleProduct(l.q, b);
    DoubleProduct(Pow2(i), n);
  }

  lemma MinusExactly(l: Lane, m: Lane, n: nat, k: nat, a: int, b: int, i: nat)
    requires Exactly(l, n, a, b, i) && Exactly(m, k, a, b, i) && n % 2 == 1 && k % 2 == 1 && n >= k && i < 31
    ensures Exactly(l.Minus(m).Halved(), (n - k) / 2, a, b, i + 1)
  {
    hide *;
    BitOfLane(l, n, a, b, i);
    BitOfLane(m, k, a, b, i);
    ExactMeaning(l, n, a, b, i);
    ExactMeaning(m, k, a, b, i);
    TracksDifference(l, m, a, b, i);
    DifferenceScalar(l.p, l.q, m.p, m.q, a, b, Pow2(i), n, k);
    MinusParts(l, m, i);
    ExactMeaning(l.Minus(m).Halved(), (n - k) / 2, a, b, i + 1);
  }

  lemma ExactMeaning(l: Lane, n: nat, a: int, b: int, i: nat)
    ensures Exactly(l, n, a, b, i) <==> l.hi == n && l.p * a + l.q * b == Pow2(i) * n && l.Tracks(a, b, i)
  {}

  lemma MinusParts(l: Lane, m: Lane, i: nat)
    requires l.hi >= m.hi
    ensures var d := l.Minus(m).Halved(); d.hi == (l.hi - m.hi) / 2 && d.p == l.p - m.p && d.q == l.q - m.q
    ensures Pow2(i + 1) == 2 * Pow2(i)
  {}

  lemma DifferenceScalar(p: int, q: int, p': int, q': int, a: int, b: int, w: int, n: nat, k: nat)
    requires p * a + q * b == w * n && p' * a + q' * b == w * k && n >= k && (n - k) % 2 == 0
    ensures (p - p') * a + (q - q') * b == (2 * w) * ((n - k) / 2)
  {
    MulAdd(a, p, p');
    MulAdd(b, q, q');
    MulAdd(w, n, k);
    var h := (n - k) / 2;
    assert n - k == 2 * h;
    MulAssoc(2, w, h);
    MulAssoc(w, 2, h);
  }

  /** One step on exact lanes is the bitwise step. */
  lemma StepExactly(l: Lane, m: Lane, n: nat, k: nat, a: int, b: int, i: nat)
    requires Exactly(l, n, a, b, i) && Exactly(m, k, a, b, i) && i < 31
    ensures var (l', m') := LaneStep(l, m, i); var (n', k') := Step(n, k);
      Exactly(l', n', a, b, i + 1) && Exactly(m', k', a, b, i + 1)
  {
    BitOfLane(l, n, a, b, i);
    BitOfLane(m, k, a, b, i);
    hide Lane.Minus, Lane.Doubled, Lane.Halved, Exactly, Bit, Exceeds;
    ExactHigh(l, n, a, b, i);
    ExactHigh(m, k, a, b, i);
    if n % 2 == 0 {
      HalvedExactly(l, n, a, b, i);
      DoubledExactly(m, k, a, b, i);
    } else if k % 2 == 0 {
      DoubledExactly(l, n, a, b, i);
      HalvedExactly(m, k, a, b, i);
    } else if n > k {
      MinusExactly(l, m, n, k, a, b, i);
      DoubledExactly(m, k, a, b, i);
    } else {
      DoubledExactly(l, n, a, b, i);
      MinusExactly(m, l, k, n, a, b, i);
    }
  }

  lemma ExactHigh(l: Lane, n: nat, a: int, b: int, i: nat)
    requires Exactly(l, n, a, b, i)
    ensures l.hi == n
  {}

  lemma {:induction false} StepsExactly(l: Lane, m: Lane, a: nat, b: nat, i: nat)
    requires Exactly(l, a, a, b, 0) && Exactly(m, b, a, b, 0) && i <= 31
    ensures var (l', m') := LaneSteps(l, m, i); var (n, k) := Steps(a, b, i);
      Exactly(l', n, a, b, i) && Exactly(m', k, a, b, i)
  {
    hide Exactly, LaneStep, Step;
    if i > 0 {
      StepsExactly(l, m, a, b, i - 1);
      var (l', m') := LaneSteps(l, m, i - 1);
      var (n, k) := Steps(a, b, i - 1);
      StepExactly(l', m', n, k, a, b, i - 1);
    }
  }

  /** A round on numbers below 2^62 is 31 bitwise steps. */
  lemma RoundExact(a: nat, b: nat)
    requires a < 0x4000_0000_0000_0000 && b < 0x4000_0000_0000_0000
    ensures Round(a, b) == Steps(a, b, 31)
  {
    var l, m := Lane(a % 0x8000_0000, a, 1, 0), Lane(b % 0x8000_0000, b, 0, 1);
    SmallPair(a, b);
    StartExactly(a, b);
    StepsExactly(l, m, a, b, 31);
    RoundFactorsMeaning(a % 0x8000_0000, b % 0x8000_0000, a, b);
    var (l', m') := LaneSteps(l, m, 31);
    var (n, k) := Steps(a, b, 31);
    hide Steps, LaneSteps, RoundFactors, TopPair;
    Pow2Values();
    RemainderUnique(Pow2(31) * n, n, 0, 0x8000_0000);
    RemainderUnique(Pow2(31) * k, k, 0, 0x8000_0000);
  }

  lemma StartExactly(a: nat, b: nat)
    requires a < 0x4000_0000_0000_0000 && b < 0x4000_0000_0000_0000
    ensures Exactly(Lane(a % 0x8000_0000, a, 1, 0), a, a, b, 0) && Exactly(Lane(b % 0x8000_0000, b, 0, 1), b, a, b, 0)
  {
    CongMod(a, 0x8000_0000);
    CongMod(b, 0x8000_0000);
    TracksStart(a % 0x8000_0000, b % 0x8000_0000, a, b, a, b);
    assert Pow2(0) == 1;
    hide Lane.Tracks;
  }

  lemma {:induction false} RoundsExact(a: nat, b: nat, r: nat)
    requires a < 0x4000_0000_0000_0000 && b < 0x4000_0000_0000_0000
    ensures Rounds(a, b, r) == Steps(a, b, 31 * r)
  {
    hide Round, Steps;
    if r > 0 {
      RoundsExact(a, b, r - 1);
      var (c, d) := Rounds(a, b, r - 1);
      StepsBounded(a, b, 31 * (r - 1), 0x4000_0000_0000_0000);
      RoundExact(c, d);
      StepsAdd(a, b, 31 * (r - 1), 31);
    } else {
      NoSteps(a, b);
    }
  }

  lemma NoSteps(a: nat, b: nat)
    ensures Steps(a, b, 0) == (a, b)
  {}

  /** For odd operands below 2^62, of one word or more, the rounds decide whether there is a common divisor. */
  lemma RoundsDecide(x: nat, y: nat, len: nat)
    requires x % 2 == 1 && y % 2 == 1 && len >= 1
    requires x < 0x4000_0000_0000_0000 && y < 0x4000_0000_0000_0000 && (len == 1 ==> x < 0x8000_0000 && y < 0x8000_0000)
    ensures GcdIsOne(x, y, len) <==> Coprime(x, y)
  {
    hide Rounds, Steps, Coprime;
    var r := (62 * len + 30) / 30;
    RoundsExact(x, y, r);
    EnoughSteps(x, y, len, r);
    StepsDecide(x, y, 31 * r);
  }

  lemma EnoughSteps(x: nat, y: nat, len: nat, r: nat)
    requires len >= 1 && r == (62 * len + 30) / 30
    requires x < 0x4000_0000_0000_0000 && y < 0x4000_0000_0000_0000 && (len == 1 ==> x < 0x8000_0000 && y < 0x8000_0000)
    ensures x * y < Pow2(31 * r)
  {
    hide *;
    var e := if len == 1 then 31 else 62;
    assert 2 * e <= 31 * r;
    Pow2Values();
    Pow2Add(31, 31);
    ProductBelow(x, y, Pow2(e));
    Pow2Add(e, e);
    Pow2Monotone(2 * e, 31 * r);
  }

  lemma ProductBelow(x: nat, y: nat, p: nat)
    requires x < p && y < p
    ensures x * y < p * p
  {
    MulLe(x, y, p);
    MulLe(p, x + 1, p);
    MulAdd(p, x, 1);
  }
}
