/** Arithmetic modulo a 31-bit prime on 32-bit words, as in crypto/keygen.c. */
module Modp {
  import opened Words
  import opened Residues

  /** An odd modulus between 2^30 and 2^31. */
  predicate Modulus(p: nat) {
    0x4000_0000 < p < 0x8000_0000 && p % 2 == 1
  }

  /** The residue of a small signed integer. */
  function ModpSet(x: int, p: U31): (r: U32)
    requires -0x8000_0000 <= x < 0x8000_0000
    ensures -(p as int) <= x < p ==> r == x % p
  {
    ReduceOnce(x, p);
    Lift(Wrap32(x), p)
  }

  /** A word in -p..p-1 is reduced by one conditional addition. */
  lemma ReduceOnce(x: int, p: U31)
    ensures -(p as int) <= x < p ==> Lift(Wrap32(x), p) == x % p
  {
    if -(p as int) <= x < p {
      LiftMeaning(x, p);
      RemainderUnique(x, if x < 0 then -1 else 0, if x < 0 then x + p else x, p);
    }
  }

  lemma LiftMeaning(x: int, p: U31)
    requires -(p as int) <= x < p
    ensures Lift(Wrap32(x), p) == if x < 0 then x + p else x
  {}

  /** Adds p when the top bit of the word is set. */
  function Lift(d: U32, p: U31): U32 { Wrap32(d + Masked(p, Top32(d))) }

  /** The centred representative of a residue. */
  function ModpNorm(x: U32, p: U31): int {
    var below := Top32(Wrap32(x as int - (p + 1) / 2));
    Signed32(Wrap32(x - (if below == 1 then 0 else p)))
  }

  lemma ModpNormMeaning(x: U32, p: U31)
    requires Modulus(p) && x < p
    ensures Cong(ModpNorm(x, p), x, p) && -(p as int) < 2 * ModpNorm(x, p) < p
  {
    NormWords(x, p);
    hide *;
    CongIntro(ModpNorm(x, p), x, if 2 * x <= p then 0 else -1, p);
  }

  lemma NormWords(x: U32, p: U31)
    requires Modulus(p) && x < p
    ensures ModpNorm(x, p) == if 2 * x <= p then x else x - p
    ensures 2 * x != p
  {}

  function ModpAdd(a: U32, b: U32, p: U31): (d: U32)
    requires p > 0
    ensures a < p && b < p ==> d == (a + b) % p
  {
    ReduceOnce(a + b - p, p);
    AddMultiple(a + b, -1, p);
    Lift(Wrap32(a + b - p), p)
  }

  function ModpSub(a: U32, b: U32, p: U31): (d: U32)
    ensures a < p && b < p ==> d == (a - b) % p
  {
    ReduceOnce(a - b, p);
    Lift(Wrap32(a - b), p)
  }

  lemma AddSubMeaning(x: U32, v: U32, p: U31)
    requires p > 0 && x < p && v < p
    ensures ModpAdd(x, v, p) == (x + v) % p < p && ModpSub(x, v, p) == (x - v) % p < p
  {}

  /** One Newton step: y becomes y * (2 - p * y), modulo 2^32. */
  function NewtonStep(y: U32, p: U31): U32 { Wrap32(y * Wrap32(2 - p * y)) }

  /** -1/p modulo 2^31. */
  function ModpNinv31(p: U31): U31 {
    var y0 := Wrap32(2 - p);
    var y4 := NewtonStep(NewtonStep(NewtonStep(NewtonStep(y0, p), p), p), p);
    Wrap32(-(y4 as int)) % 0x8000_0000
  }

  /** A Newton step squares the error 1 - p * y. */
  lemma NewtonError(p: int, y: int)
    ensures 1 - p * (y * (2 - p * y)) == (1 - p * y) * (1 - p * y)
  {
    var e := p * y;
    MulAssoc(p, y, 2 - p * y);
    assert p * (y * (2 - p * y)) == e * (2 - e);
  }

  /** Each step doubles the number of correct low bits. */
  lemma NewtonDoubles(p: U31, y: U32, m: nat, m': nat)
    requires m > 0 && Cong(p * y, 1, m) && m' == m * m && m' > 0 && exists c: int :: 0x1_0000_0000 == c * m'
    ensures Cong(p * NewtonStep(y, p), 1, m')
  {
    var c: int :| 0x1_0000_0000 == c * m';
    hide NewtonStep, Cong;
    var k := CongElim(p * y, 1, m);
    NewtonError(p, y);
    NewtonWrap(p, y);
    var z := y * (2 - p * y);
    MulAssoc(k, m, k * m);
    MulAssoc(m, k, m);
    assert (1 - p * y) * (1 - p * y) == (k * k) * m' by {
      assert 1 - p * y == -(k * m);
      assert (-(k * m)) * (-(k * m)) == (k * m) * (k * m);
      MulAssoc(k, k, m * m);
    }
    var d := CongElim(NewtonStep(y, p), z, 0x1_0000_0000);
    MulAdd(p, z, d * 0x1_0000_0000);
    MulAssoc(d, c, m');
    MulAssoc(p, d * c, m');
    assert p * NewtonStep(y, p) == 1 + (p * (d * c) - k * k) * m' by {
      assert p * NewtonStep(y, p) == p * z + p * ((d * c) * m');
      MulAdd(m', p * (d * c), k * k);
    }
    CongIntro(p * NewtonStep(y, p), 1, p * (d * c) - k * k, m');
  }

  /** The step computes y * (2 - p * y) modulo 2^32. */
  lemma NewtonWrap(p: U31, y: U32)
    ensures Cong(NewtonStep(y, p), y * (2 - p * y), 0x1_0000_0000)
  {
    var w := 2 - p * y;
    CongMod(w, 0x1_0000_0000);
    CongScale(y, Wrap32(w), w, 0x1_0000_0000);
    CongMod(y * Wrap32(w), 0x1_0000_0000);
  }

  lemma NewtonStart(p: U31)
    requires p % 2 == 1
    ensures Cong(p * Wrap32(2 - p), 1, 4)
  {
    var h := p / 2;
    assert p == 2 * h + 1;
    var d := (2 - p) / 0x1_0000_0000;
    assert Wrap32(2 - p) == 2 - p - d * 0x1_0000_0000;
    assert p * (2 - p) == 1 - 4 * (h * h) by { assert p * (2 - p) == 1 - (2 * h) * (2 * h); }
    MulAdd(p, 2 - p, d * 0x1_0000_0000);
    MulAssoc(p, d, 0x1_0000_0000);
    assert p * Wrap32(2 - p) == 1 + (-(h * h) - (p * d) * 0x4000_0000) * 4;
    CongIntro(p * Wrap32(2 - p), 1, -(h * h) - (p * d) * 0x4000_0000, 4);
  }

  /** p times the result is -1 modulo 2^31, for every odd p. */
  lemma NinvMeaning(p: U31)
    requires p % 2 == 1
    ensures Cong(p * ModpNinv31(p), -1, 0x8000_0000)
  {
    hide NewtonStep, Cong;
    var y0 := Wrap32(2 - p);
    NewtonStart(p);
    var y1 := NewtonStep(y0, p);
    assert 0x1_0000_0000 == 0x1000_0000 * 16;
    NewtonDoubles(p, y0, 4, 16);
    var y2 := NewtonStep(y1, p);
    assert 0x1_0000_0000 == 0x100_0000 * 256;
    NewtonDoubles(p, y1, 16, 256);
    var y3 := NewtonStep(y2, p);
    assert 0x1_0000_0000 == 0x1_0000 * 0x1_0000;
    NewtonDoubles(p, y2, 256, 0x1_0000);
    var y4 := NewtonStep(y3, p);
    assert 0x1_0000_0000 == 1 * 0x1_0000_0000;
    NewtonDoubles(p, y3, 0x1_0000, 0x1_0000_0000);
    NinvLast(p, y4);
  }

  lemma NinvLast(p: U31, y: U32)
    requires Cong(p * y, 1, 0x1_0000_0000)
    ensures Cong(p * (Wrap32(-(y as int)) % 0x8000_0000), -1, 0x8000_0000)
  {
    var k := CongElim(p * y, 1, 0x1_0000_0000);
    var r := Wrap32(-(y as int)) % 0x8000_0000;
    var e: int := (-(y as int)) / 0x1_0000_0000;
    var e' := Wrap32(-(y as int)) / 0x8000_0000;
    var d := -2 * e - e';
    assert r == -(y as int) + d * 0x8000_0000;
    MulAdd(p, -(y as int), d * 0x8000_0000);
    MulAssoc(p, d, 0x8000_0000);
    assert p * -(y as int) == -(p * y);
    CongIntro(p * r, -1, p * d - 2 * k, 0x8000_0000);
  }

  /** p0i is the constant that Montgomery multiplication modulo p needs. */
  ghost predicate Reducer(p: U31, p0i: U31) {
    Modulus(p) && Cong(p * p0i, -1, 0x8000_0000)
  }

  /** Montgomery multiplication a * b / 2^31 modulo p. */
  function ModpMontyMul(a: U32, b: U32, p: U31, p0i: U31): U32 {
    var z: U64 := Wrap64(a * b);
    var w := Wrap64((Wrap64(z * p0i) % 0x8000_0000) * p);
    var d := Wrap32(Wrap32(Wrap64(z + w) / 0x8000_0000) - p);
    Lift(d, p)
  }

  lemma LowBits31(x: nat)
    ensures Wrap64(x) % 0x8000_0000 == x % 0x8000_0000
  {
    var a := x / 0x1_0000_0000_0000_0000;
    assert x == 0x8000_0000 * (0x2_0000_0000 * a) + Wrap64(x);
  }

  /** The multiple of p added to z clears its 31 low bits. */
  lemma ClearLowBits(z: nat, p: U31, p0i: U31)
    requires Reducer(p, p0i)
    ensures (z + ((z * p0i) % 0x8000_0000) * p) % 0x8000_0000 == 0
  {
    hide *;
    ReducerMeaning(p, p0i);
    CongMod(z * p0i, 0x8000_0000);
    ClearScalar(z, (z * p0i) % 0x8000_0000, p, p0i);
  }

  lemma ClearScalar(z: nat, k: int, p: int, p0i: int)
    requires Cong(p * p0i, -1, 0x8000_0000) && Cong(k, z * p0i, 0x8000_0000)
    ensures (z + k * p) % 0x8000_0000 == 0
  {
    hide *;
    var c := CongElim(p * p0i, -1, 0x8000_0000);
    var d := CongElim(k, z * p0i, 0x8000_0000);
    MulAssoc(z, p0i, p);
    assert p0i * p == p * p0i;
    MulAdd(z, -1, c * 0x8000_0000);
    MulAssoc(z, c, 0x8000_0000);
    MulAdd(p, z * p0i, d * 0x8000_0000);
    MulAssoc(p, d, 0x8000_0000);
    assert k * p == p * (z * p0i + d * 0x8000_0000);
    assert p * (z * p0i) == z * (p0i * p);
    ClearSum(z, k * p, z * c, p * d);
  }

  lemma ClearSum(z: int, kp: int, zc: int, pd: int)
    requires kp == -z + zc * 0x8000_0000 + pd * 0x8000_0000
    ensures (z + kp) % 0x8000_0000 == 0
  {
    RemainderUnique(z + kp, zc + pd, 0, 0x8000_0000);
  }

  lemma ReducerMeaning(p: U31, p0i: U31)
    requires Reducer(p, p0i)
    ensures Cong(p * p0i, -1, 0x8000_0000) && Modulus(p) && 0x4000_0000 < p
  {}

  lemma WordProduct(x: nat, y: nat, m: nat, n: nat)
    requires x < m && y < n
    ensures 0 <= x * y <= (m - 1) * (n - 1)
  {
    MulLe(x, y, n - 1);
    MulLe(n - 1, x, m - 1);
  }

  /** What Montgomery multiplication computes on reduced operands. */
  lemma MontyMeaning(a: U32, b: U32, p: U31, p0i: U31)
    requires Reducer(p, p0i) && a < p && b < p
    ensures ModpMontyMul(a, b, p, p0i) < p
    ensures Cong(0x8000_0000 * ModpMontyMul(a, b, p, p0i), a * b, p)
  {
    MontyLoose(a, b, p, p0i);
  }

  lemma HalfProduct(a: nat, b: nat, p: U31)
    requires a < 0x8000_0000 && b < p
    ensures a * b <= 0x7FFF_FFFF * (p - 1)
  {
    WordProduct(a, b, 0x8000_0000, p);
  }

  /** The same for any first operand of 31 bits. */
  lemma MontyLoose(a: U32, b: U32, p: U31, p0i: U31)
    requires Reducer(p, p0i) && a < 0x8000_0000 && b < p
    ensures ModpMontyMul(a, b, p, p0i) < p
    ensures Cong(0x8000_0000 * ModpMontyMul(a, b, p, p0i), a * b, p)
  {
    hide *;
    ReducerMeaning(p, p0i);
    HalfProduct(a, b, p);
    var k := ((a * b) * p0i) % 0x8000_0000;
    WordProduct(k, p, 0x8000_0000, p + 1);
    ClearLowBits(a * b, p, p0i);
    MontyWords(a, b, p, p0i, k);
    MontyScalar(a * b, k, p, ModpMontyMul(a, b, p, p0i));
  }

  lemma MontyScalar(z: nat, k: nat, p: U31, r: nat)
    requires p > 0 && k < 0x8000_0000 && z <= 0x7FFF_FFFF * (p - 1) && (z + k * p) % 0x8000_0000 == 0 && k * p >= 0
    requires k * p <= 0x7FFF_FFFF * p
    requires r == Lift(Wrap32((z + k * p) / 0x8000_0000 - p), p)
    ensures r < p && Cong(0x8000_0000 * r, z, p)
  {
    hide *;
    var v := (z + k * p) / 0x8000_0000;
    SubtractOnce(v, p);
    var c := if v < p then k else k - 0x8000_0000;
    MulAdd(p, k, 0x8000_0000);
    assert p * k == k * p && p * 0x8000_0000 == 0x8000_0000 * p;
    assert c * p == if v < p then k * p else k * p - 0x8000_0000 * p;
    assert 0x8000_0000 * r == z + c * p;
    CongIntro(0x8000_0000 * r, z, c, p);
  }

  lemma SubtractOnce(v: nat, p: U31)
    requires v < 2 * p
    ensures Lift(Wrap32(v - p), p) == if v < p then v else v - p
  {}

  lemma WrapNone(x: nat)
    ensures x < 0x1_0000_0000 ==> Wrap32(x) == x
    ensures x < 0x1_0000_0000_0000_0000 ==> Wrap64(x) == x
  {}

  lemma MontyWords(a: U32, b: U32, p: U31, p0i: U31, k: nat)
    requires a * b <= 0x7FFF_FFFF * (p - 1) && k == ((a * b) * p0i) % 0x8000_0000 && k * p <= 0x7FFF_FFFF * p
    ensures ModpMontyMul(a, b, p, p0i) == Lift(Wrap32((a * b + k * p) / 0x8000_0000 - p), p)
  {
    var z := a * b;
    assert z >= 0 && k * p >= 0;
    hide Wrap64, Wrap32, Lift;
    WrapNone(z);
    LowBits31(z * p0i);
    WrapNone(k * p);
    WrapNone(z + k * p);
    var v := (z + k * p) / 0x8000_0000;
    assert v < 0x1_0000_0000;
    WrapNone(v);
  }

  /** 2^31 modulo p: the value 1 in Montgomery representation. */
  function ModpR(p: U31): (r: U31)
    requires p > 0
    ensures Modulus(p) ==> r < p && Cong(r, 0x8000_0000, p)
  {
    CongIntro(0x8000_0000 - p, 0x8000_0000, -1, p);
    0x8000_0000 - p
  }

  /** v is x in Montgomery representation. */
  ghost predicate Monty(v: nat, x: int, p: U31)
  {
    p > 0 && v < p && Cong(v, 0x8000_0000 * x, p)
  }

  lemma MontyIntro(v: nat, x: int, p: U31)
    requires p > 0 && v < p && Cong(v, 0x8000_0000 * x, p)
    ensures Monty(v, x, p)
  {}

  /** The radix is invertible modulo p. */
  lemma CancelRadix31(r: int, z: int, p: U31, p0i: U31)
    requires Reducer(p, p0i) && Cong(0x8000_0000 * r, 0x8000_0000 * z, p)
    ensures Cong(r, z, p)
  {
    var c := CongElim(p * p0i, -1, 0x8000_0000);
    hide *;
    ReducerMeaning(p, p0i);
    assert 0x8000_0000 * c == 1 + p0i * p by { assert p0i * p == p * p0i; }
    CongIntro(0x8000_0000 * c, 1, p0i, p);
    CongCancel(0x8000_0000, c, r, z, p);
  }

  /** Montgomery multiplication by y in Montgomery representation is multiplication by y. */
  lemma MontyBy(a: U32, w: U32, y: int, p: U31, p0i: U31)
    requires Reducer(p, p0i) && a < p && Monty(w, y, p)
    ensures ModpMontyMul(a, w, p, p0i) < p && Cong(ModpMontyMul(a, w, p, p0i), a * y, p)
  {
    hide *;
    MontyElim(w, y, p);
    MontyMeaning(a, w, p, p0i);
    var r: int := ModpMontyMul(a, w, p, p0i);
    CongScale(a, w, 0x8000_0000 * y, p);
    MulAssoc(a, 0x8000_0000, y);
    assert a * (0x8000_0000 * y) == 0x8000_0000 * (a * y);
    CongTrans(0x8000_0000 * r, a * w, 0x8000_0000 * (a * y), p);
    CancelRadix31(r, a * y, p, p0i);
  }

  /** Montgomery representations multiply. */
  lemma MontyProduct(v: U32, x: int, w: U32, y: int, p: U31, p0i: U31)
    requires Reducer(p, p0i) && Monty(v, x, p) && Monty(w, y, p)
    ensures Monty(ModpMontyMul(v, w, p, p0i), x * y, p)
  {
    hide *;
    MontyElim(v, x, p);
    MontyBy(v, w, y, p, p0i);
    var r := ModpMontyMul(v, w, p, p0i);
    CongScale(y, v, 0x8000_0000 * x, p);
    MulAssoc(0x8000_0000, x, y);
    assert y * (0x8000_0000 * x) == 0x8000_0000 * (x * y) && y * v == v * y;
    CongTrans(r, v * y, 0x8000_0000 * (x * y), p);
    MontyIntro(r, x * y, p);
  }

  lemma MontyOne(p: U31)
    requires Modulus(p)
    ensures Monty(ModpR(p), 1, p)
  {}

  /** 2^62 modulo p. */
  function ModpR2(p: U31, p0i: U31): U32
    requires p > 0
  {
    var z := ModpAdd(ModpR(p), ModpR(p), p);
    var z1 := ModpMontyMul(z, z, p, p0i);
    var z2 := ModpMontyMul(z1, z1, p, p0i);
    var z3 := ModpMontyMul(z2, z2, p, p0i);
    var z4 := ModpMontyMul(z3, z3, p, p0i);
    var z5 := ModpMontyMul(z4, z4, p, p0i);
    Wrap32(z5 + Masked(p, z5 % 2)) / 2
  }

  /** The result is the radix 2^31 in Montgomery representation. */
  lemma R2Meaning(p: U31, p0i: U31)
    requires Reducer(p, p0i)
    ensures Monty(ModpR2(p, p0i), 0x8000_0000, p)
  {
    hide ModpMontyMul, Cong, Reducer;
    ReducerMeaning(p, p0i);
    MontyOne(p);
    var z := ModpAdd(ModpR(p), ModpR(p), p);
    CongMod(ModpR(p) + ModpR(p), p);
    CongAdd(ModpR(p), 0x8000_0000, ModpR(p), 0x8000_0000, p);
    CongTrans(z, ModpR(p) + ModpR(p), 0x8000_0000 * 2, p);
    MontyIntro(z, 2, p);
    hide ModpAdd, Monty;
    var z1 := ModpMontyMul(z, z, p, p0i);
    MontyProduct(z, 2, z, 2, p, p0i);
    var z2 := ModpMontyMul(z1, z1, p, p0i);
    MontyProduct(z1, 4, z1, 4, p, p0i);
    var z3 := ModpMontyMul(z2, z2, p, p0i);
    MontyProduct(z2, 16, z2, 16, p, p0i);
    var z4 := ModpMontyMul(z3, z3, p, p0i);
    MontyProduct(z3, 256, z3, 256, p, p0i);
    var z5 := ModpMontyMul(z4, z4, p, p0i);
    MontyProduct(z4, 0x1_0000, z4, 0x1_0000, p, p0i);
    HalveRadix(z5, p, p0i);
  }

  lemma HalveRadix(z: U32, p: U31, p0i: U31)
    requires Reducer(p, p0i) && Monty(z, 0x1_0000_0000, p)
    ensures Monty(Wrap32(z + Masked(p, z % 2)) / 2, 0x8000_0000, p)
  {
    hide *;
    ReducerMeaning(p, p0i);
    MontyElim(z, 0x1_0000_0000, p);
    var h, r := HalveWord(z, p);
    CongIntro(2 * r, z, z % 2, p);
    CongTrans(2 * r, z, 0x8000_0000 * 0x1_0000_0000, p);
    CongIntro(2 * h, 1, 1, p);
    assert 2 * (0x8000_0000 * 0x8000_0000) == 0x8000_0000 * 0x1_0000_0000;
    CongCancel(2, h, r, 0x8000_0000 * 0x8000_0000, p);
    MontyIntro(r, 0x8000_0000, p);
  }

  lemma HalveWord(z: U32, p: U31) returns (h: nat, r: nat)
    requires Modulus(p) && z < p
    ensures p == 2 * h - 1 && r < p && 2 * r == z + (z % 2) * p
    ensures r == Wrap32(z + Masked(p, z % 2)) / 2
  {
    h, r := (p + 1) / 2, Wrap32(z + Masked(p, z % 2)) / 2;
  }

  lemma MontyElim(v: nat, x: int, p: U31)
    requires Monty(v, x, p)
    ensures p > 0 && v < p && Cong(v, 0x8000_0000 * x, p)
  {}
}
