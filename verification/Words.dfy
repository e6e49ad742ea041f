/** Fixed-width machine words as mathematical integers, with the wrap-around written out. */
module Words {
  type U8 = x: nat | x < 0x100
  type U16 = x: nat | x < 0x1_0000
  type U31 = x: nat | x < 0x8000_0000
  type U32 = x: nat | x < 0x1_0000_0000
  type U64 = x: nat | x < 0x1_0000_0000_0000_0000
  type I8 = x: int | -0x80 <= x < 0x80
  type I16 = x: int | -0x8000 <= x < 0x8000

  /** Conversion of any integer to an unsigned 32-bit word. */
  function Wrap32(x: int): U32 { x % 0x1_0000_0000 }

  lemma WrapSmall(x: nat)
    requires x < 0x1_0000_0000
    ensures Wrap32(x) == x
  {}

  /** Conversion of any integer to an unsigned 64-bit word. */
  function Wrap64(x: int): U64 { x % 0x1_0000_0000_0000_0000 }

  /** Conversion of any integer to an unsigned 16-bit word. */
  function Wrap16(x: int): U16 { x % 0x1_0000 }

  /** Conversion to a signed 16-bit word, two's complement. */
  function Signed16(x: int): I16 { (x + 0x8000) % 0x1_0000 - 0x8000 }

  /** Conversion to a signed 32-bit word, two's complement. */
  function Signed32(x: int): int { (x + 0x8000_0000) % 0x1_0000_0000 - 0x8000_0000 }

  /** Conversion to a signed 64-bit word, two's complement. */
  function Signed64(x: int): int { (x + 0x8000_0000_0000_0000) % 0x1_0000_0000_0000_0000 - 0x8000_0000_0000_0000 }

  function Abs(x: int): nat { if x < 0 then -x else x }

  /** The word v & -bit, for a bit that is 0 or 1. */
  function Masked(v: nat, bit: nat): nat { if bit == 1 then v else 0 }

  /** The top bit of a 32-bit word. */
  function Top32(x: U32): nat { x / 0x8000_0000 }

  function Pow2(k: nat): (r: nat)
    ensures r >= 1
  {
    if k == 0 then 1 else 2 * Pow2(k - 1)
  }

  lemma DoubleProduct(x: int, y: int)
    ensures (2 * x) * y == 2 * (x * y)
  {}

  lemma {:induction false} Pow2Add(a: nat, b: nat)
    ensures Pow2(a + b) == Pow2(a) * Pow2(b)
  {
    if a == 0 {
    } else {
      Pow2Add(a - 1, b);
      DoubleProduct(Pow2(a - 1), Pow2(b));
    }
  }

  lemma {:induction false} Pow2Monotone(a: nat, b: nat)
    requires a <= b
    ensures Pow2(a) <= Pow2(b)
    decreases b
  {
    if a < b {
      Pow2Monotone(a, b - 1);
    }
  }

  /** The powers of two that the word sizes use. */
  lemma Pow2Values()
    ensures Pow2(1) == 2 && Pow2(2) == 4 && Pow2(3) == 8 && Pow2(4) == 16 && Pow2(5) == 32
    ensures Pow2(6) == 64 && Pow2(7) == 128 && Pow2(8) == 256 && Pow2(9) == 512 && Pow2(10) == 1024
    ensures Pow2(14) == 0x4000 && Pow2(16) == 0x1_0000 && Pow2(31) == 0x8000_0000
    ensures Pow2(32) == 0x1_0000_0000
  {
    assert Pow2(5) == 32;
    assert Pow2(10) == 1024 by { Pow2Add(5, 5); }
    Pow2Add(4, 10);
    Pow2Add(6, 10);
    Pow2Add(15, 16);
    Pow2Add(5, 10);
    Pow2Add(16, 16);
  }

  /** v shifted right by k bits. */
  function Shr(v: nat, k: nat): nat { if k == 0 then v else Shr(v / 2, k - 1) }

  lemma {:induction false} ShrNext(v: nat, k: nat)
    ensures Shr(v, k + 1) == Shr(v, k) / 2
  {
    if k > 0 { ShrNext(v / 2, k - 1); }
  }

  lemma {:induction false} ShrAdd(v: nat, j: nat, k: nat)
    ensures Shr(v, j + k) == Shr(Shr(v, j), k)
    decreases j
  {
    if j > 0 { ShrAdd(v / 2, j - 1, k); }
  }

  lemma {:induction false} ShrBound(v: nat, i: nat, k: nat)
    requires i <= k && v < Pow2(k)
    ensures Shr(v, i) < Pow2(k - i)
    decreases i
  {
    if i > 0 { ShrBound(v / 2, i - 1, k - 1); }
  }
}
