/**
 Rounding to the nearest binary64 value, ties to even (section 4.3.1 of IEEE 754-2019), by a
 sticky bit, as in crypto/fpr.h. An exact result is a number v times a power of two; v is known
 by comparing it with integers.
 */
module Rounding {
  import opened Words
  import opened Residues

  /** A quotient of integers, or the square root of one. */
  datatype Exact = Ratio(n: nat, d: nat) | Root(a: nat) {
    predicate Positive() { (Ratio? ==> d > 0) && (Root? ==> a > 0) }

    /** Positive, zero or negative as the number is above, equal to or below k. */
    function Excess(k: nat): int {
      if Ratio? then n - k * d else a - k * k
    }
  }

  lemma ExcessFalls(v: Exact, k: nat, l: nat)
    requires v.Positive() && k < l
    ensures v.Excess(k) > v.Excess(l)
  {
    if v.Ratio? {
      MulLe(v.d, k + 1, l);
      MulAdd(v.d, k, 1);
      assert k * v.d < l * v.d;
    } else {
      MulLe(k, k, l);
      MulLe(l, k + 1, l);
      MulAdd(l, k, 1);
      assert k * k < l * l;
    }
  }

  /** m is v, if even; if odd, v is strictly between its neighbours. */
  ghost predicate Sticky(m: nat, v: Exact) {
    v.Positive() && if m % 2 == 0 then v.Excess(m) == 0 else v.Excess(m - 1) > 0 > v.Excess(m + 1)
  }

  lemma ExactIsSticky(m: nat, v: Exact)
    requires v.Positive() && v.Excess(m) == 0
    ensures Sticky(m, v)
  {
    if m % 2 == 1 {
      ExcessFalls(v, m - 1, m);
      ExcessFalls(v, m, m + 1);
    }
  }

  /** M is v/4 rounded to the nearest integer, ties to even. */
  ghost predicate Nearest(v: Exact, M: nat) {
    && v.Excess(4 * M + 2) <= 0 && (v.Excess(4 * M + 2) == 0 ==> M % 2 == 0)
    && (M > 0 ==> v.Excess(4 * M - 2) >= 0 && (v.Excess(4 * M - 2) == 0 ==> M % 2 == 0))
  }

  /** Rounding determines the result. */
  lemma NearestUnique(v: Exact, M: nat, N: nat)
    requires v.Positive() && Nearest(v, M) && Nearest(v, N)
    ensures M == N
  {
    if M < N {
      OneBelow(v, M, N);
    } else if N < M {
      OneBelow(v, N, M);
    }
  }

  lemma OneBelow(v: Exact, M: nat, N: nat)
    requires v.Positive() && Nearest(v, M) && M < N
    ensures !Nearest(v, N)
  {
    if M + 1 < N { ExcessFalls(v, 4 * M + 2, 4 * N - 2); }
  }

  /** v/4 lies in the range of normalised significands. */
  ghost predicate Binade(v: Exact) {
    v.Excess(0x40_0000_0000_0000) >= 0 > v.Excess(0x80_0000_0000_0000)
  }

  /** The increment that the low three bits call for. */
  function Increment(m: nat): nat {
    var f := m % 8;
    if f == 3 || f == 6 || f == 7 then 1 else 0
  }

  /** The increment leaves an error of at most 2, and 2 only before an even result. */
  lemma IncrementCases(m: nat)
    ensures var M := m / 4 + Increment(m);
      && -2 <= m - 4 * M <= 2 && (m - 4 * M == 2 || m - 4 * M == -2 ==> M % 2 == 0)
      && (m >= 0x40_0000_0000_0000 ==> M >= 0x10_0000_0000_0000)
      && (m < 0x80_0000_0000_0000 ==> M <= 0x20_0000_0000_0000)
  {
    var q, f := m / 8, m % 8;
    assert m == 8 * q + f;
    assert m / 4 == 2 * q + f / 4;
  }

  /** Dropping two bits of a sticky number with that increment rounds correctly. */
  lemma RoundSticky(m: nat, v: Exact)
    requires 0x40_0000_0000_0000 <= m < 0x80_0000_0000_0000 && Sticky(m, v)
    ensures Nearest(v, m / 4 + Increment(m)) && Binade(v)
    ensures 0x10_0000_0000_0000 <= m / 4 + Increment(m) <= 0x20_0000_0000_0000
  {
    hide Exact.Excess, Increment, Sticky;
    IncrementCases(m);
    var M := m / 4 + Increment(m);
    StickySide(m, v, 4 * M - 2);
    StickySide(m, v, 4 * M + 2);
    StickySide(m, v, 0x40_0000_0000_0000);
    StickySide(m, v, 0x80_0000_0000_0000);
  }

  /** How a sticky number compares with an even integer. */
  lemma StickySide(m: nat, v: Exact, k: nat)
    requires Sticky(m, v) && k % 2 == 0
    ensures k < m ==> v.Excess(k) > 0
    ensures k > m ==> v.Excess(k) < 0
    ensures k == m ==> v.Excess(k) == 0
  {
    hide Exact.Excess;
    if k < m {
      if m % 2 == 0 { ExcessFalls(v, k, m); } else if k < m - 1 { ExcessFalls(v, k, m - 1); }
    } else if k > m {
      if m % 2 == 0 { ExcessFalls(v, m, k); } else if k > m + 1 { ExcessFalls(v, m + 1, k); }
    }
  }

  // ---- Packing ----

  /** The word with sign s, significand M in 2^52..2^53 and value M * 2^E. */
  function Encode(s: nat, M: nat, E: int): int {
    s * 0x8000_0000_0000_0000 + (E + 1074) * 0x10_0000_0000_0000 + M
  }

  /** The packing function: sign, exponent and a sticky number in 2^54..2^55-1, or zero. */
  function FPR(s: nat, e: int, m: U64): U64 {
    var e1 := e + 1076;
    var m1 := if e1 < 0 then 0 else m;
    var e2 := if m1 / 0x40_0000_0000_0000 == 1 then e1 else 0;
    Wrap64(s * 0x8000_0000_0000_0000 + m1 / 4 + e2 * 0x10_0000_0000_0000 + Increment(m1))
  }

  /** The result r is (-1)^s * v * 2^(E-2), correctly rounded. */
  ghost predicate Rounded(r: U64, s: nat, v: Exact, E: int) {
    Binade(v) && exists M: nat :: Nearest(v, M) && r == Encode(s, M, E)
  }

  /** Exponents for which the result is a normal number. */
  predicate NormalExponent(E: int) { 1 <= E + 1075 <= 2046 }

  lemma PackMeaning(s: nat, e: int, m: U64)
    requires s <= 1 && 0x40_0000_0000_0000 <= m < 0x80_0000_0000_0000 && NormalExponent(e + 2)
    ensures FPR(s, e, m) == Encode(s, m / 4 + Increment(m), e + 2)
  {}

  /** Packing a sticky number rounds the exact value correctly. */
  lemma PackRounds(s: nat, e: int, m: U64, v: Exact)
    requires s <= 1 && 0x40_0000_0000_0000 <= m < 0x80_0000_0000_0000 && Sticky(m, v) && NormalExponent(e + 2)
    ensures Rounded(FPR(s, e, m), s, v, e + 2)
  {
    hide Exact.Excess, FPR, Encode;
    RoundSticky(m, v);
    PackMeaning(s, e, m);
  }

  /** A zero significand, or an exponent below the normal range, packs to a zero with the given sign. */
  lemma PackZero(s: nat, e: int, m: U64)
    requires s <= 1 && (m == 0 || e < -1076)
    ensures FPR(s, e, m) == s * 0x8000_0000_0000_0000
  {}

  // ---- Operands ----

  function SignOf(x: U64): nat { x / 0x8000_0000_0000_0000 }

  lemma SignRange(x: U64)
    ensures SignOf(x) <= 1
  {}

  function ExponentOf(x: U64): nat { x / 0x10_0000_0000_0000 % 0x800 }

  /** The significand of a normal number, with its leading one. */
  function SignificandOf(x: U64): (m: nat)
    ensures 0x10_0000_0000_0000 <= m < 0x20_0000_0000_0000
  {
    x % 0x10_0000_0000_0000 + 0x10_0000_0000_0000
  }

  predicate Normal(x: U64) { 1 <= ExponentOf(x) <= 2046 }

  predicate IsZero(x: U64) { x % 0x8000_0000_0000_0000 == 0 }

  /** The power of two that goes with the significand. */
  function PowerOf(x: U64): int { ExponentOf(x) - 1075 }

  /** A normal number is the encoding of its sign, significand and power. */
  lemma DecodeNormal(x: U64)
    requires Normal(x)
    ensures x == Encode(SignOf(x), SignificandOf(x), PowerOf(x)) && SignOf(x) <= 1
  {}

  /** The significand with its sign, zero for a zero: x stands for this integer times 2^PowerOf(x). */
  function SignedSignificand(x: U64): int {
    if IsZero(x) then 0 else if SignOf(x) == 1 then -(SignificandOf(x) as int) else SignificandOf(x)
  }

  /** The sign bit of an exact result. */
  function NegativeBit(v: int): nat { if v < 0 then 1 else 0 }

  /** The sign of a product or quotient: the exclusive or of the two signs. */
  function SignXor(x: U64, y: U64): nat { if SignOf(x) == SignOf(y) then 0 else 1 }

  /** That is the sign of the product of the signed significands. */
  lemma SignXorMeaning(x: U64, y: U64)
    ensures SignXor(x, y) == (SignOf(x) + SignOf(y)) % 2
    ensures Normal(x) && Normal(y) ==> SignXor(x, y) == NegativeBit(SignedSignificand(x) * SignedSignificand(y))
  {
    SignRange(x);
    SignRange(y);
    if Normal(x) && Normal(y) {
      NormalNotZero(x);
      NormalNotZero(y);
      SignOfProduct(SignificandOf(x), SignificandOf(y));
    }
  }

  lemma NormalNotZero(x: U64)
    requires Normal(x)
    ensures !IsZero(x)
  {}

  lemma SignOfProduct(a: int, b: int)
    requires a > 0 && b > 0
    ensures a * b > 0 && -a * b < 0 && a * -b < 0 && -a * -b > 0
  {}

  // ---- Shifts that keep a sticky bit ----

  /** The last bit set if the flag is. */
  function OrBit(m: nat, bit: bool): nat { if bit && m % 2 == 0 then m + 1 else m }

  /** Right shift by one bit; the last bit also remembers the dropped one. */
  function Halve(m: nat): nat { OrBit(m / 2, m % 2 == 1) }

  /** Halving a sticky number, and with it the exact one. */
  lemma StickyHalf(m: nat, n: nat, d: nat)
    requires Sticky(m, Ratio(n, d))
    ensures Sticky(Halve(m), Ratio(n, 2 * d))
  {
    var v, h := Ratio(n, d), Halve(m);
    DoubledExcess(n, d, h);
    if m % 2 == 1 || h % 2 == 1 {
      DoubledExcess(n, d, h - 1);
      DoubledExcess(n, d, h + 1);
      hide Exact.Excess;
      StickySide(m, v, 2 * (h - 1));
      StickySide(m, v, 2 * (h + 1));
    }
  }

  lemma DoubledExcess(n: nat, d: nat, k: nat)
    ensures Ratio(n, 2 * d).Excess(k) == Ratio(n, d).Excess(2 * k)
  {
    assert k * (2 * d) == (2 * k) * d;
  }
}
