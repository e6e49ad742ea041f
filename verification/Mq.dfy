/** Arithmetic modulo q = 12289 on 32-bit words, as in crypto/vrfy.c. */
module Mq {
  import opened Words
  import opened Residues

  const Q: nat := 12289
  const Q0I: nat := 12287
  const R: nat := 4091
  const R2: nat := 10952

  /** 1/R modulo q: Montgomery multiplication by x multiplies by x * RINV. */
  const RINV: nat := 2304

  type Zq = x: nat | x < 12289

  /** Conditional addition of q, driven by the top bit of the word. */
  function AddQIfNegative(d: U32): U32 {
    Wrap32(d + Masked(Q, Top32(d)))
  }

  /** The residue of a small signed integer. */
  function MqConvSmall(x: I8): (r: U32)
    ensures r == x % Q
  {
    AddQIfNegative(Wrap32(x))
  }

  function MqAdd(x: U32, y: U32): (r: U32)
    ensures x < Q && y < Q ==> r == (x + y) % Q
  {
    AddQIfNegative(Wrap32(x + y - Q))
  }

  function MqSub(x: U32, y: U32): (r: U32)
    ensures x < Q && y < Q ==> r == (x - y) % Q
  {
    AddQIfNegative(Wrap32(x - y))
  }

  /** Halving modulo q. */
  function MqRshift1(x: U32): (r: U32)
    ensures x < Q ==> r < Q && (2 * r) % Q == x
  {
    Wrap32(x + Masked(Q, x % 2)) / 2
  }

  /** Montgomery multiplication x * y / 2^16 modulo q. */
  function MqMontyMul(x: U32, y: U32): U32 {
    MqMontyReduce(Wrap32(x * y))
  }

  /** The reduction part of a Montgomery multiplication: z / 2^16 modulo q. */
  function MqMontyReduce(z: U32): U32 {
    var w := Wrap32((Wrap32(z * Q0I) % 0x1_0000) * Q);
    AddQIfNegative(Wrap32(Wrap32(z + w) / 0x1_0000 - Q))
  }

  function MqMontySqr(x: U32): U32 { MqMontyMul(x, x) }

  lemma LowBits16(x: nat)
    ensures Wrap32(x) % 0x1_0000 == x % 0x1_0000
  {
    var a := x / 0x1_0000_0000;
    assert x == 0x1_0000 * (0x1_0000 * a) + Wrap32(x);
  }

  /** The word added to z is the multiple of q that clears its 16 low bits. */
  lemma ReductionStep(z: nat)
    requires z <= 12288 * 12288
    ensures var k := Wrap32(z * Q0I) % 0x1_0000;
      var v := (z + k * Q) / 0x1_0000;
      && z + k * Q == 0x1_0000 * v
      && 0 <= v < 2 * Q && z + k * Q < 0x1_0000_0000
  {
    LowBits16(z * Q0I);
    var c := (z * Q0I) / 0x1_0000;
    assert z + (z * Q0I - 0x1_0000 * c) * Q == 0x1_0000 * (2304 * z - Q * c);
  }

  lemma ProductBound(x: nat, y: nat)
    requires x <= 12288 && y <= 12288
    ensures 0 <= x * y <= 12288 * 12288
  {
    MulLe(x, y, 12288);
  }

  lemma SubtractQOnce(v: nat)
    requires v < 2 * Q
    ensures AddQIfNegative(Wrap32(v - Q)) == if v < Q then v else v - Q
  {}

  lemma MontyReduceMeaning(z: nat)
    requires z <= 12288 * 12288
    ensures MqMontyReduce(z) < Q && Cong(0x1_0000 * MqMontyReduce(z), z, Q)
  {
    var k := Wrap32(z * Q0I) % 0x1_0000;
    var v := (z + k * Q) / 0x1_0000;
    ReductionStep(z);
    assert MqMontyReduce(z) == AddQIfNegative(Wrap32(v - Q)) by {
      hide AddQIfNegative;
      WrapSmall(k * Q);
      WrapSmall(z + k * Q);
      hide Wrap32;
    }
    SubtractQOnce(v);
    hide *;
    CongIntro(0x1_0000 * MqMontyReduce(z), z, if v < Q then k else k - 0x1_0000, Q);
  }

  /** What Montgomery multiplication computes on reduced operands. */
  lemma MontyMulMeaning(x: nat, y: nat)
    requires x < Q && y < Q
    ensures MqMontyMul(x, y) == (x * y * RINV) % Q
    ensures Cong(0x1_0000 * MqMontyMul(x, y), x * y, Q)
  {
    hide MqMontyReduce, Cong;
    ProductBound(x, y);
    MontyReduceMeaning(x * y);
    UndoMonty(MqMontyMul(x, y), x * y);
  }

  /** 2^16 * RINV is 1 modulo q. */
  lemma UndoMonty(r: int, z: int)
    requires Cong(0x1_0000 * r, z, Q) && 0 <= r < Q
    ensures r == (z * RINV) % Q
  {
    CongScale(RINV, 0x1_0000 * r, z, Q);
    CongIntro(RINV * (0x1_0000 * r), r, 12287 * r, Q);
    assert RINV * z == z * RINV;
  }
}
