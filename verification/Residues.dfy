/** Equality of residues. Two integers are congruent modulo m when a % m == b % m. */
module Residues {
  /** The ring laws as separate facts, for proofs in which the solver must not search for them. */
  lemma MulAdd(x: int, y: int, z: int)
    ensures x * (y + z) == x * y + x * z && (y + z) * x == y * x + z * x
    ensures x * (y - z) == x * y - x * z && (y - z) * x == y * x - z * x
  {}

  lemma MulAssoc(x: int, y: int, z: int)
    ensures (x * y) * z == x * (y * z) && y * (x * z) == x * (y * z)
  {}

  lemma MulLe(x: nat, y: nat, z: nat)
    requires y <= z
    ensures 0 <= x * y <= x * z && 0 <= y * x <= z * x
  {}

  lemma MulOrder(x: int, y: int, w: int)
    requires x <= y && w >= 0
    ensures x * w <= y * w
  {}

  lemma RemainderBound(x: int, m: int)
    requires m > 0
    ensures 0 <= x % m < m
  {}

  predicate Cong(a: int, b: int, m: int)
    requires m > 0
  {
    a % m == b % m
  }

  /** A multiple of the modulus does not change the residue. */
  lemma AddMultiple(b: int, k: int, m: int)
    requires m > 0
    ensures Cong(b + k * m, b, m)
  {
    var d := b / m;
    assert b + k * m == (d + k) * m + b % m;
    RemainderUnique(b + k * m, d + k, b % m, m);
  }

  lemma SmallMultiple(k: int, m: int)
    requires m > 0 && -m < k * m < m
    ensures k == 0
  {}

  lemma RemainderUnique(x: int, d: int, r: int, m: int)
    requires m > 0 && 0 <= r < m && x == d * m + r
    ensures x % m == r && x / m == d
  {
    var e := x / m;
    assert (d - e) * m == x % m - r;
    SmallMultiple(d - e, m);
  }

  /** Congruence from an explicit quotient, and back. */
  lemma CongIntro(a: int, b: int, k: int, m: int)
    requires m > 0 && a == b + k * m
    ensures Cong(a, b, m)
  {
    AddMultiple(b, k, m);
  }

  lemma CongElim(a: int, b: int, m: int) returns (k: int)
    requires m > 0 && Cong(a, b, m)
    ensures a == b + k * m
  {
    k := a / m - b / m;
    assert a == (a / m) * m + a % m;
    assert b == (b / m) * m + b % m;
    assert k * m == (a / m) * m - (b / m) * m;
  }

  lemma CongMeaning(a: int, b: int, m: int)
    requires m > 0
    ensures Cong(a, b, m) <==> a % m == b % m
  {}

  lemma CongRefl(a: int, m: int)
    requires m > 0
    ensures Cong(a, a, m)
  {}

  lemma CongSym(a: int, b: int, m: int)
    requires m > 0 && Cong(a, b, m)
    ensures Cong(b, a, m)
  {}

  lemma CongTrans(a: int, b: int, c: int, m: int)
    requires m > 0 && (Cong(a, b, m) || Cong(b, a, m)) && (Cong(b, c, m) || Cong(c, b, m))
    ensures Cong(a, c, m)
  {}

  lemma CongMod(a: int, m: int)
    requires m > 0
    ensures Cong(a % m, a, m)
  {
    CongIntro(a % m, a, -(a / m), m);
  }

  lemma CongShift(x: int, a: int, b: int, m: int)
    requires m > 0 && Cong(a, b, m)
    ensures Cong(x + a, x + b, m)
  {
    var k := CongElim(a, b, m);
    CongIntro(x + a, x + b, k, m);
  }

  lemma CongAdd(a: int, b: int, c: int, d: int, m: int)
    requires m > 0 && Cong(a, b, m) && Cong(c, d, m)
    ensures Cong(a + c, b + d, m)
  {
    var k := CongElim(a, b, m);
    var l := CongElim(c, d, m);
    assert (k + l) * m == k * m + l * m;
    CongIntro(a + c, b + d, k + l, m);
  }

  lemma CongSub(a: int, b: int, c: int, d: int, m: int)
    requires m > 0 && Cong(a, b, m) && Cong(c, d, m)
    ensures Cong(a - c, b - d, m)
  {
    var k := CongElim(a, b, m);
    var l := CongElim(c, d, m);
    assert (k - l) * m == k * m - l * m;
    CongIntro(a - c, b - d, k - l, m);
  }

  /** Congruence scaled on one side. */
  lemma CongScale(x: int, a: int, b: int, m: int)
    requires m > 0 && Cong(a, b, m)
    ensures Cong(x * a, x * b, m)
  {
    var k := CongElim(a, b, m);
    assert x * (b + k * m) == x * b + (x * k) * m;
    CongIntro(x * a, x * b, x * k, m);
  }

  lemma CongMul(a: int, b: int, c: int, d: int, m: int)
    requires m > 0 && Cong(a, b, m) && Cong(c, d, m)
    ensures Cong(a * c, b * d, m)
  {
    CongScale(c, a, b, m);
    CongScale(b, c, d, m);
    assert c * a == a * c && c * b == b * c;
  }

  /** A factor with an inverse cancels. */
  lemma CongCancel(u: int, ui: int, a: int, b: int, m: int)
    requires m > 0 && Cong(u * ui, 1, m) && Cong(u * a, u * b, m)
    ensures Cong(a, b, m)
  {
    CongScale(ui, u * a, u * b, m);
    CongMul(u * ui, 1, a, a, m);
    CongMul(u * ui, 1, b, b, m);
    assert ui * (u * a) == (u * ui) * a && ui * (u * b) == (u * ui) * b;
  }

  /** Canonical representatives that are congruent are equal. */
  lemma CongCanonical(a: int, b: int, m: int)
    requires m > 0 && Cong(a, b, m) && 0 <= a < m && 0 <= b < m
    ensures a == b
  {
    RemainderUnique(a, 0, a, m);
    RemainderUnique(b, 0, b, m);
  }

  /** Reducing inside and outside a multiplication. */
  lemma ModOfScaledMod(c: int, x: int, m: int)
    requires m > 0
    ensures Cong((c * (x % m)) % m, c * x, m)
  {
    CongMod(x, m);
    CongScale(c, x % m, x, m);
    CongMod(c * (x % m), m);
  }

  function Pow(x: int, k: nat): int {
    if k == 0 then 1 else x * Pow(x, k - 1)
  }

  lemma {:induction false} PowAdd(x: int, a: nat, b: nat)
    ensures Pow(x, a + b) == Pow(x, a) * Pow(x, b)
  {
    if a == 0 {
    } else {
      PowAdd(x, a - 1, b);
      MulAssoc(x, Pow(x, a - 1), Pow(x, b));
    }
  }

  lemma {:induction false} PowCong(x: int, y: int, k: nat, m: int)
    requires m > 0 && Cong(x, y, m)
    ensures Cong(Pow(x, k), Pow(y, k), m)
  {
    if k > 0 {
      PowCong(x, y, k - 1, m);
      CongMul(x, y, Pow(x, k - 1), Pow(y, k - 1), m);
    }
  }

  lemma {:induction false} PowPow(x: int, a: nat, b: nat)
    ensures Pow(Pow(x, a), b) == Pow(x, a * b)
  {
    if b == 0 {
    } else {
      PowPow(x, a, b - 1);
      assert a * b == a + a * (b - 1);
      PowAdd(x, a, a * (b - 1));
    }
  }

  lemma {:induction false} PowOne(k: nat)
    ensures Pow(1, k) == 1
  {
    if k > 0 { PowOne(k - 1); }
  }
}
