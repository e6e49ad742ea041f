/** Big integers in two's complement modulo a small prime, as in crypto/keygen.c. */
module SignedResidues {
  import opened Words
  import opened Residues
  import opened Modp
  import opened BigNum
  import opened Crt

  lemma {:induction false} BaseAdd(a: nat, b: nat)
    ensures Base(a + b) == Base(a) * Base(b)
  {
    if a > 0 {
      BaseAdd(a - 1, b);
      MulAssoc(0x8000_0000, Base(a - 1), Base(b));
    }
  }

  lemma BaseNext(e: nat)
    ensures Base(e + 1) == 0x8000_0000 * Base(e) && Base(1) == 0x8000_0000 && Base(0) == 1
  {
    assert Base(1) == 0x8000_0000 * Base(0);
  }

  /** The low i + 1 bits of e are its low i bits and bit i. */
  lemma NextLowBit(e: nat, i: nat)
    ensures Pow2(i + 1) == Pow2(i) + Pow2(i)
    ensures e % Pow2(i + 1) == e % Pow2(i) + (if (e / Pow2(i)) % 2 == 1 then Pow2(i) else 0)
  {
    var m := Pow2(i);
    assert Pow2(i + 1) == 2 * Pow2(i);
    hide Pow2;
    NextLowBitScalar(e, m, e / m, e % m);
  }

  lemma NextLowBitScalar(e: nat, m: nat, q: nat, r: nat)
    requires m > 0 && e == q * m + r && r < m
    ensures e % (2 * m) == r + (if q % 2 == 1 then m else 0)
  {
    var h, b := q / 2, q % 2;
    MulAdd(m, 2 * h, b);
    MulAssoc(2, h, m);
    assert q * m == h * (2 * m) + b * m;
    RemainderUnique(e, h, b * m + r, 2 * m);
  }

  /** 2^(31 * x) modulo p, by binary exponentiation. */
  method ModpRx(x: nat, p: U31, p0i: U31, r2: U32) returns (z: U32)
    requires 1 <= x < 0x8000_0000 && Reducer(p, p0i) && p > 0 && r2 == ModpR2(p, p0i)
    ensures z < p && Cong(z, Base(x), p)
  {
    hide *;
    ReducerMeaning(p, p0i);
    R2Meaning(p, p0i);
    MontyOne(p);
    BaseNext(0);
    Pow2Values();
    var e: nat := x - 1;
    var r, i := r2, 0;
    z := ModpR(p);
    UnitPower(e);
    while Pow2(i) <= e
      invariant i <= 31 && Monty(z, Base(e % Pow2(i)), p) && Monty(r, Base(Pow2(i)), p)
      decreases 31 - i
    {
      NextLowBit(e, i);
      assert i < 31;
      BaseAdd(e % Pow2(i), Pow2(i));
      BaseAdd(Pow2(i), Pow2(i));
      if (e / Pow2(i)) % 2 == 1 {
        MontyProduct(z, Base(e % Pow2(i)), r, Base(Pow2(i)), p, p0i);
        z := ModpMontyMul(z, r, p, p0i);
      }
      MontyProduct(r, Base(Pow2(i)), r, Base(Pow2(i)), p, p0i);
      r := ModpMontyMul(r, r, p, p0i);
      i := i + 1;
    }
    RemainderUnique(e, 0, e, Pow2(i));
    BaseNext(e);
    MontyElim(z, Base(e), p);
  }

  lemma UnitPower(e: nat)
    ensures Pow2(0) == 1 && e % Pow2(0) == 0
  {}

  /** The top bit of the top word is the sign in two's complement. */
  lemma SignBit(d: seq<int>)
    requires |d| > 0 && Limbs(d)
    ensures SignedNum(d) == Num(d) - (if d[|d| - 1] / 0x4000_0000 == 1 then Base(|d|) else 0)
    ensures 0 <= d[|d| - 1] / 0x4000_0000 <= 1
  {
    var k := |d| - 1;
    var low, top, b := Num(d[..k]), d[k], Base(k);
    assert Limbs(d[..k]);
    NumBound(d[..k]);
    assert Num(d) == low + top * b && Base(|d|) == 0x8000_0000 * b;
    hide *;
    SignedMeaning(d);
    if top >= 0x4000_0000 {
      MulLe(b, 0x4000_0000, top);
    } else {
      MulLe(b, top, 0x3FFF_FFFF);
    }
    LimbAt(d, k);
  }

  lemma SignedMeaning(d: seq<int>)
    ensures SignedNum(d) == if 2 * Num(d) >= Base(|d|) then Num(d) - Base(|d|) else Num(d)
  {}

  /** A big integer in two's complement modulo p; rx is 2^31 to the number of words. */
  method ZintModSmallSigned(d: seq<U32>, p: U31, p0i: U31, r2: U32, rx: U32) returns (z: U32)
    requires Reducer(p, p0i) && p > 0 && r2 == ModpR2(p, p0i) && Limbs(d)
    requires |d| > 0 ==> rx < p && Cong(rx, Base(|d|), p)
    ensures z == SignedNum(d) % p
  {
    hide *;
    if |d| == 0 {
      NumEmpty(d);
      SignedMeaning(d);
      BaseNext(0);
      assert d == [];
      RemainderUnique(0, 0, 0, p);
      return 0;
    }
    z := ZintModSmallUnsigned(d, p, p0i, r2);
    SignBit(d);
    MaskedMeaning(rx, d[|d| - 1] / 0x4000_0000);
    var s: U32 := Masked(rx, d[|d| - 1] / 0x4000_0000);
    ghost var n, w := Num(d), if d[|d| - 1] / 0x4000_0000 == 1 then Base(|d|) else 0;
    CongRefl(0, p);
    CongSub(z, n, s, w, p);
    AddSubMeaning(z, s, p);
    CongMeaning(z - s, n - w, p);
    z := ModpSub(z, s, p);
  }

  lemma MaskedMeaning(v: nat, bit: nat)
    ensures Masked(v, bit) == if bit == 1 then v else 0
  {}
}
