/** The binary GCD on integers, one bit at a time, as the comment of zint_bezout in crypto/keygen.c describes it. */
module GcdSteps {
  import opened Words
  import opened Residues

  /** Halve an even number, or the difference of two odd ones in place of the larger. */
  function Step(a: nat, b: nat): (nat, nat) {
    if a % 2 == 0 then (a / 2, b)
    else if b % 2 == 0 then (a, b / 2)
    else if a > b then ((a - b) / 2, b)
    else (a, (b - a) / 2)
  }

  function Steps(a: nat, b: nat, k: nat): (nat, nat) {
    if k == 0 then (a, b) else
      var (c, d) := Steps(a, b, k - 1);
      Step(c, d)
  }

  lemma {:induction false} StepsAdd(a: nat, b: nat, j: nat, k: nat)
    ensures var (c, d) := Steps(a, b, j); Steps(a, b, j + k) == Steps(c, d, k)
  {
    hide Step;
    if k > 0 { StepsAdd(a, b, j, k - 1); }
  }

  predicate Divides(d: nat, n: nat) { d > 0 && n % d == 0 }

  /** No common divisor above 1. */
  ghost predicate Coprime(x: nat, y: nat) {
    forall d: nat :: Divides(d, x) && Divides(d, y) ==> d <= 1
  }

  lemma DividesIntro(d: nat, c: int, n: nat)
    requires d > 0 && n == c * d
    ensures Divides(d, n)
  {
    RemainderUnique(n, c, 0, d);
  }

  lemma DividesElim(d: nat, n: nat) returns (c: nat)
    requires Divides(d, n)
    ensures n == c * d
  {
    c := n / d;
  }

  lemma DividesSum(d: nat, a: nat, b: nat)
    requires Divides(d, a) && Divides(d, b)
    ensures Divides(d, a + b)
  {
    var m := DividesElim(d, a);
    var n := DividesElim(d, b);
    MulAdd(d, m, n);
    hide Divides;
    DividesIntro(d, m + n, a + b);
  }

  lemma DividesDifference(d: nat, a: nat, b: nat)
    requires Divides(d, a) && Divides(d, b) && b <= a
    ensures Divides(d, a - b)
  {
    var m := DividesElim(d, a);
    var n := DividesElim(d, b);
    var k: int := n;
    MulAdd(d, m, -k);
    hide Divides;
    DividesIntro(d, m - n, a - b);
  }

  /** What a step does to the two numbers. */
  lemma StepCases(a: nat, b: nat)
    ensures var (c, e) := Step(a, b);
      || (a == c + c && b == e) || (a == c && b == e + e && a % 2 == 1)
      || (a == c + c + b && b == e && a % 2 == b % 2 == 1) || (a == c && b == e + e + a && a % 2 == b % 2 == 1)
  {}

  /** A common divisor after a step is one before it. */
  lemma DivisorsBefore(d: nat, a: nat, b: nat)
    requires var (a', b') := Step(a, b); Divides(d, a') && Divides(d, b')
    ensures Divides(d, a) && Divides(d, b)
  {
    hide *;
    StepCases(a, b);
    var (c, e) := Step(a, b);
    DividesSum(d, c, c);
    DividesSum(d, e, e);
    DividesSum(d, c + c, e);
    DividesSum(d, e + e, c);
  }

  /** An odd divisor of an even number divides its half. */
  lemma DividesHalf(d: nat, n: nat)
    requires Divides(d, n) && d % 2 == 1 && n % 2 == 0
    ensures Divides(d, n / 2)
  {
    var c := DividesElim(d, n);
    if c % 2 == 1 {
      OddTimesOdd(c, d);
    } else {
      var h := c / 2;
      DoubleProduct(h, d);
      DividesIntro(d, h, n / 2);
    }
  }

  lemma OddTimesOdd(c: nat, d: nat)
    requires c % 2 == 1 && d % 2 == 1
    ensures c * d % 2 == 1
  {
    var h := c / 2;
    assert c == 2 * h + 1;
    MulAdd(d, 2 * h, 1);
    DoubleProduct(h, d);
  }

  /** An odd common divisor stays one. */
  lemma DivisorsAfter(d: nat, a: nat, b: nat)
    requires Divides(d, a) && Divides(d, b) && d % 2 == 1
    ensures var (a', b') := Step(a, b); Divides(d, a') && Divides(d, b')
  {
    hide *;
    StepCases(a, b);
    var (c, e) := Step(a, b);
    if a != c {
      if a != c + c { DividesDifference(d, a, b); }
      DividesOfDouble(d, c);
    } else if b != e {
      if b != e + e { DividesDifference(d, b, a); }
      DividesOfDouble(d, e);
    }
  }

  lemma DividesOfDouble(d: nat, c: nat)
    requires Divides(d, c + c) && d % 2 == 1
    ensures Divides(d, c)
  {
    DividesHalf(d, c + c);
  }

  lemma {:induction false} AllDivisorsBefore(d: nat, a: nat, b: nat, k: nat)
    requires var (a', b') := Steps(a, b, k); Divides(d, a') && Divides(d, b')
    ensures Divides(d, a) && Divides(d, b)
  {
    hide Divides, Step;
    if k > 0 {
      var (c, e) := Steps(a, b, k - 1);
      DivisorsBefore(d, c, e);
      AllDivisorsBefore(d, a, b, k - 1);
    }
  }

  lemma {:induction false} AllDivisorsAfter(d: nat, a: nat, b: nat, k: nat)
    requires Divides(d, a) && Divides(d, b) && d % 2 == 1
    ensures var (a', b') := Steps(a, b, k); Divides(d, a') && Divides(d, b')
  {
    hide Divides, Step;
    if k > 0 {
      AllDivisorsAfter(d, a, b, k - 1);
      var (c, e) := Steps(a, b, k - 1);
      DivisorsAfter(d, c, e);
    }
  }

  /** One of the numbers is odd, and the first one is not zero. */
  predicate Live(a: nat, b: nat) { a > 0 && (a % 2 == 1 || b % 2 == 1) }

  /** A step keeps that, and at least halves the product. */
  lemma StepShrinks(a: nat, b: nat)
    requires Live(a, b)
    ensures var (a', b') := Step(a, b); Live(a', b') && 0 <= 2 * (a' * b') <= a * b
  {
    var (c, d) := Step(a, b);
    if a % 2 == 0 {
      DoubleProduct(c, b);
    } else if b % 2 == 0 {
      DoubleProduct(d, a);
      assert a * d == d * a && a * b == b * a;
    } else if a > b {
      DoubleProduct(c, b);
      MulLe(b, a - b, a);
    } else {
      DoubleProduct(d, a);
      assert a * d == d * a;
      MulLe(a, b - a, b);
    }
  }

  /** After as many steps as the product has bits, the second number is zero. */
  lemma {:induction false} StepsEnd(a: nat, b: nat, k: nat)
    requires Live(a, b) && a * b < Pow2(k)
    ensures var (c, d) := Steps(a, b, k); c > 0 && d == 0
    decreases k
  {
    if k == 0 {
      PositiveProduct(a, b);
    } else {
      StepShrinks(a, b);
      var (a', b') := Step(a, b);
      assert Steps(a, b, 0) == (a, b) && Steps(a, b, 1) == (a', b');
      hide Step;
      StepsEnd(a', b', k - 1);
      StepsAdd(a, b, 1, k - 1);
    }
  }

  lemma PositiveProduct(a: nat, b: nat)
    requires a > 0 && a * b < 1
    ensures b == 0
  {
    if b > 0 { MulLe(1, 1, b); MulLe(b, 1, a); }
  }

  /** Enough steps leave the GCD: it is 1 exactly if there is no common divisor above 1. */
  lemma StepsDecide(x: nat, y: nat, k: nat)
    requires x % 2 == 1 && y % 2 == 1 && x * y < Pow2(k)
    ensures Steps(x, y, k).0 == 1 <==> Coprime(x, y)
  {
    StepsEnd(x, y, k);
    var g := Steps(x, y, k).0;
    hide Steps;
    assert Divides(g, g) && Divides(g, 0);
    AllDivisorsBefore(g, x, y, k);
    if g == 1 {
      forall d: nat | Divides(d, x) && Divides(d, y) ensures d <= 1 {
        OddDivisor(d, x);
        AllDivisorsAfter(d, x, y, k);
      }
    }
  }

  lemma OddDivisor(d: nat, x: nat)
    requires Divides(d, x) && x % 2 == 1
    ensures d % 2 == 1
  {
    var c := DividesElim(d, x);
    if d % 2 == 0 {
      var h := d / 2;
      assert c * d == 2 * (c * h) by { MulAssoc(c, 2, h); }
    }
  }

  lemma {:induction false} StepsBounded(a: nat, b: nat, k: nat, m: nat)
    requires a < m && b < m
    ensures var (c, d) := Steps(a, b, k); c < m && d < m
  {
    if k > 0 { StepsBounded(a, b, k - 1, m); }
  }
}
