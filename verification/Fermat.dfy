/** Fermat's little theorem, from the binomial theorem. */
module Fermat {
  import opened Residues

  ghost predicate Prime(p: int) {
    p > 1 && forall d :: 1 < d < p ==> p % d != 0
  }

  /** Euclid's lemma for a factor below p. */
  lemma {:induction false} PrimeDivides(p: int, k: int, c: int)
    requires Prime(p) && 0 < k < p && Cong(k * c, 0, p)
    ensures Cong(c, 0, p)
    decreases k
  {
    if k > 1 {
      var r, d := p % k, p / k;
      assert p == d * k + r && r > 0;
      hide Cong;
      MulAdd(c, d * k, r);
      MulAssoc(d, k, c);
      assert r * c == p * c - d * (k * c);
      CongScale(d, k * c, 0, p);
      CongIntro(p * c, 0, c, p);
      CongSub(p * c, 0, d * (k * c), d * 0, p);
      PrimeDivides(p, r, c);
    } else {
      assert k * c == c;
    }
  }

  function Choose(n: nat, k: int): nat
  {
    if k < 0 then 0
    else if n == 0 then (if k == 0 then 1 else 0)
    else Choose(n - 1, k - 1) + Choose(n - 1, k)
  }

  lemma {:induction false} ChooseEdge(n: nat, k: int)
    requires k >= n
    ensures Choose(n, k) == if k == n then 1 else 0
    ensures Choose(n, 0) == 1
    decreases n
  {
    if n > 0 {
      ChooseEdge(n - 1, k - 1);
      ChooseEdge(n - 1, k);
    }
  }

  lemma AbsorptionStep(n: int, k: int, a: int, b: int, c: int, d: int)
    requires k * b == (n - 1) * d && (k - 1) * a == (n - 1) * c && a == c + d
    ensures k * (a + b) == n * a
  {
    MulAdd(k, a, b);
    MulAdd(n - 1, c, d);
    MulAdd(a, k, 1);
    MulAdd(a, n, 1);
    assert (k - 1) * a == k * a - a && (n - 1) * a == n * a - a;
  }

  lemma {:induction false} Absorption(n: nat, k: int)
    requires n > 0 && k > 0
    ensures k * Choose(n, k) == n * Choose(n - 1, k - 1)
    decreases n
  {
    ChooseEdge(n - 1, n - 1);
    if n == 1 {
      if k == 1 {
        assert Choose(1, 1) == Choose(0, 0) + Choose(0, 1);
      } else {
        ChooseEdge(1, k);
        ChooseEdge(0, k - 1);
      }
    } else {
      Absorption(n - 1, k);
      if k > 1 {
        Absorption(n - 1, k - 1);
      }
      AbsorptionStep(n, k, Choose(n - 1, k - 1), Choose(n - 1, k), Choose(n - 2, k - 2), Choose(n - 2, k - 1));
    }
  }

  /** Inner binomial coefficients of a prime row vanish modulo the prime. */
  lemma PrimeRow(p: int, k: int)
    requires Prime(p) && 0 < k < p
    ensures Cong(Choose(p, k), 0, p)
  {
    Absorption(p, k);
    CongIntro(k * Choose(p, k), 0, Choose(p - 1, k - 1), p);
    PrimeDivides(p, k, Choose(p, k));
  }

  /** The sum of Choose(n, i) * y^i over i < j. */
  function BinomialSum(n: nat, y: int, j: nat): int
    decreases j
  {
    if j == 0 then 0 else BinomialSum(n, y, j - 1) + Choose(n, j - 1) * Pow(y, j - 1)
  }

  lemma {:induction false} BinomialStep(n: nat, y: int, j: nat)
    ensures BinomialSum(n + 1, y, j + 1) == BinomialSum(n, y, j + 1) + y * BinomialSum(n, y, j)
    decreases j
  {
    if j == 0 {
      ChooseEdge(n, n);
      ChooseEdge(n + 1, n + 1);
      assert BinomialSum(n + 1, y, 1) == BinomialSum(n + 1, y, 0) + Choose(n + 1, 0) * Pow(y, 0);
      assert BinomialSum(n, y, 1) == BinomialSum(n, y, 0) + Choose(n, 0) * Pow(y, 0);
    } else {
      BinomialStep(n, y, j - 1);
      var a, b, w := Choose(n, j - 1), Choose(n, j), Pow(y, j - 1);
      MulAdd(y * w, a, b);
      MulAdd(y, BinomialSum(n, y, j - 1), a * w);
      MulAssoc(y, a, w);
      assert Pow(y, j) == y * w;
      assert Choose(n + 1, j) * Pow(y, j) == a * (y * w) + b * (y * w);
    }
  }

  lemma {:induction false} BinomialTheorem(n: nat, y: int)
    ensures Pow(1 + y, n) == BinomialSum(n, y, n + 1)
    decreases n
  {
    if n == 0 {
      assert BinomialSum(0, y, 1) == BinomialSum(0, y, 0) + Choose(0, 0) * Pow(y, 0);
    } else {
      hide Choose;
      BinomialTheorem(n - 1, y);
      BinomialStep(n - 1, y, n);
      ChooseEdge(n - 1, n);
      var s, w := BinomialSum(n - 1, y, n), Pow(y, n);
      assert BinomialSum(n - 1, y, n + 1) == s + 0 * w;
      MulAdd(s, 1, y);
      assert Pow(1 + y, n) == (1 + y) * s;
    }
  }

  lemma {:induction false} PrimeSum(p: int, y: int, j: nat)
    requires Prime(p) && 1 <= j <= p
    ensures Cong(BinomialSum(p, y, j), 1, p)
    decreases j
  {
    hide Cong, Choose;
    if j == 1 {
      ChooseEdge(p, p);
      assert BinomialSum(p, y, 1) == BinomialSum(p, y, 0) + Choose(p, 0) * Pow(y, 0);
      CongRefl(1, p);
    } else {
      PrimeSum(p, y, j - 1);
      PrimeRow(p, j - 1);
      var w := Pow(y, j - 1);
      CongScale(w, Choose(p, j - 1), 0, p);
      CongAdd(BinomialSum(p, y, j - 1), 1, w * Choose(p, j - 1), w * 0, p);
      assert w * Choose(p, j - 1) == Choose(p, j - 1) * w;
    }
  }

  /** (1 + y)^p is 1 + y^p modulo the prime p. */
  lemma PrimePowerOfSum(p: int, y: int)
    requires Prime(p)
    ensures Cong(Pow(1 + y, p), 1 + Pow(y, p), p)
  {
    ChooseEdge(p, p);
    PrimeSum(p, y, p);
    BinomialTheorem(p, y);
    var s, w := BinomialSum(p, y, p), Pow(y, p);
    assert BinomialSum(p, y, p + 1) == s + Choose(p, p) * w;
    hide *;
    assert Pow(1 + y, p) == w + s;
    CongShift(w, s, 1, p);
    assert w + 1 == 1 + w;
  }

  lemma {:induction false} FermatAll(p: int, y: nat)
    requires Prime(p)
    ensures Cong(Pow(y, p), y, p)
    decreases y
  {
    if y == 0 {
      assert Pow(0, p) == 0 * Pow(0, p - 1);
    } else {
      hide *;
      FermatAll(p, y - 1);
      PrimePowerOfSum(p, y - 1);
      assert 1 + (y - 1) == y;
      CongShift(1, Pow(y - 1, p), y - 1, p);
      CongTrans(Pow(y, p), 1 + Pow(y - 1, p), y, p);
    }
  }

  /** y^(p-2) is the inverse of y. */
  lemma FermatInverse(p: int, y: int)
    requires Prime(p) && 0 < y < p
    ensures Cong(y * Pow(y, p - 2), 1, p)
  {
    FermatAll(p, y);
    var w := Pow(y, p - 1);
    assert w == y * Pow(y, p - 2) && Pow(y, p) == y * w;
    hide Cong;
    CongRefl(y, p);
    CongSub(y * w, y, y, y, p);
    MulAdd(y, w, 1);
    assert y * (w - 1) == y * w - y;
    assert y - y == 0;
    PrimeDivides(p, y, w - 1);
    CongShift(1, w - 1, 0, p);
    assert 1 + (w - 1) == w && 1 + 0 == 1;
  }

  /** No number from d on whose square is at most p divides p. */
  predicate NoDivisorFrom(p: nat, d: nat)
    requires d > 0
    decreases p - d
  {
    d >= p || d * d > p || (p % d != 0 && NoDivisorFrom(p, d + 1))
  }

  lemma {:induction false} NoDivisorMeaning(p: nat, d: nat, e: nat)
    requires 0 < d <= e < p && e * e <= p && NoDivisorFrom(p, d)
    ensures p % e != 0
    decreases p - d
  {
    MulLe(d, d, e);
    MulLe(e, d, e);
    if d < e { NoDivisorMeaning(p, d + 1, e); }
  }

  lemma TrialStart(p: nat, d: nat)
    requires d > 0 && d * d > p
    ensures NoDivisorFrom(p, d)
  {}

  /** Four more divisors tried. */
  lemma TrialStep(p: nat, d: nat)
    requires d > 0 && NoDivisorFrom(p, d + 4)
    requires p % d != 0 && p % (d + 1) != 0 && p % (d + 2) != 0 && p % (d + 3) != 0
    ensures NoDivisorFrom(p, d)
  {
    assert NoDivisorFrom(p, d + 3);
    assert NoDivisorFrom(p, d + 2);
    assert NoDivisorFrom(p, d + 1);
  }

  lemma TrialLast(p: nat)
    requires NoDivisorFrom(p, 3) && p % 2 != 0
    ensures NoDivisorFrom(p, 2)
  {}

  lemma TrialDivision(p: nat)
    requires p > 1 && NoDivisorFrom(p, 2)
    ensures Prime(p)
  {
    forall d | 1 < d < p ensures p % d != 0 {
      if p % d == 0 {
        var e := p / d;
        assert p == e * d;
        CofactorBounds(p, d, e);
        if d * d <= p {
          NoDivisorMeaning(p, 2, d);
        } else {
          NoDivisorMeaning(p, 2, e);
        }
      }
    }
  }

  lemma CofactorBounds(p: nat, d: nat, e: nat)
    requires 1 < d < p && p == e * d
    ensures 1 < e < p && p % e == 0 && (d * d > p ==> e * e <= p)
  {
    if e <= 1 { MulLe(d, e, 1); }
    MulLe(e, 2, d);
    assert p == d * e + 0;
    RemainderUnique(p, d, 0, e);
    if d * d > p && e * e > p {
      if e <= d { MulLe(e, e, d); } else { MulLe(d, d, e); }
    }
  }
}
