/** Multiplication, division and square root of emulated binary64 numbers, as in crypto/fpr.c. */
module FprProducts {
  import opened Words
  import opened Residues
  import opened Rounding

  lemma BetweenMultiples(n: nat, q: nat, d: nat, r: nat)
    requires d > 0 && n == q * d + r && 0 < r < d
    ensures Ratio(n, d).Excess(q) > 0 > Ratio(n, d).Excess(q + 1)
  {
    MulAdd(d, q, 1);
  }

  /** A quotient with a sticky bit for a nonzero remainder. */
  lemma StickyQuotient(n: nat, q: nat, d: nat, r: nat)
    requires d > 0 && n == q * d + r && r < d
    ensures Sticky(OrBit(q, r != 0), Ratio(n, d))
  {
    var v := Ratio(n, d);
    if r == 0 {
      ExactIsSticky(q, v);
    } else {
      BetweenMultiples(n, q, d, r);
      if q % 2 == 0 { ExcessFalls(v, q + 1, q + 2); } else { ExcessFalls(v, q - 1, q); }
    }
  }

  /** An even quotient whose remainder may reach twice the divisor. */
  lemma StickyEven(n: nat, q: nat, d: nat, r: nat)
    requires d > 0 && q % 2 == 0 && n == q * d + r && r < 2 * d
    ensures Sticky(OrBit(q, r != 0), Ratio(n, d))
  {
    var v := Ratio(n, d);
    if r == 0 {
      ExactIsSticky(q, v);
    } else {
      MulAdd(d, q, 2);
    }
  }

  /** The conditional shift that brings a sticky number of 55 or 56 bits to 55 bits. */
  function Shrunk(z: nat): nat {
    if z / 0x80_0000_0000_0000 == 0 then z else Halve(z)
  }

  lemma ShrunkSticky(z: nat, n: nat, d: nat)
    requires 0x40_0000_0000_0000 <= z < 0x100_0000_0000_0000 && Sticky(z, Ratio(n, d))
    ensures 0x40_0000_0000_0000 <= Shrunk(z) < 0x80_0000_0000_0000
    ensures Sticky(Shrunk(z), Ratio(n, if z < 0x80_0000_0000_0000 then d else 2 * d))
  {
    if z >= 0x80_0000_0000_0000 { StickyHalf(z, n, d); }
  }

  // ---- Multiplication ----

  /** The product of two 53-bit numbers over 2^50, by limbs of 25 bits, with a sticky bit. */
  function LimbProduct(xu: nat, yu: nat): nat {
    var x0, x1, y0, y1 := xu % 0x200_0000, xu / 0x200_0000, yu % 0x200_0000, yu / 0x200_0000;
    var w00, w01, w10 := x0 * y0, x0 * y1, x1 * y0;
    var z1 := w00 / 0x200_0000 + w01 % 0x200_0000 + w10 % 0x200_0000;
    var z2 := w01 / 0x200_0000 + w10 / 0x200_0000 + z1 / 0x200_0000;
    var z0 := w00 % 0x200_0000;
    OrBit(x1 * y1 + z2, z0 != 0 || z1 % 0x200_0000 != 0)
  }

  lemma LimbIdentity(x0: nat, x1: nat, y0: nat, y1: nat)
    ensures (x0 + 0x200_0000 * x1) * (y0 + 0x200_0000 * y1)
         == x0 * y0 + 0x200_0000 * (x0 * y1 + x1 * y0) + 0x4_0000_0000_0000 * (x1 * y1)
  {
    MulAdd(x0 + 0x200_0000 * x1, y0, 0x200_0000 * y1);
    MulAdd(y0, x0, 0x200_0000 * x1);
    MulAdd(0x200_0000 * y1, x0, 0x200_0000 * x1);
    MulAssoc(0x200_0000, x1, y0);
    MulAssoc(x0, 0x200_0000, y1);
    MulAssoc(0x200_0000, x1, 0x200_0000 * y1);
    MulAssoc(x1, 0x200_0000, y1);
  }

  /** The limbs add up to the product, and the upper part is its quotient by 2^50. */
  lemma LimbProductSticky(xu: nat, yu: nat)
    ensures Sticky(LimbProduct(xu, yu), Ratio(xu * yu, 0x4_0000_0000_0000))
  {
    var x0, x1, y0, y1 := xu % 0x200_0000, xu / 0x200_0000, yu % 0x200_0000, yu / 0x200_0000;
    assert xu == x0 + 0x200_0000 * x1 && yu == y0 + 0x200_0000 * y1;
    LimbIdentity(x0, x1, y0, y1);
    var w00, w01, w10, w11 := x0 * y0, x0 * y1, x1 * y0, x1 * y1;
    var z0, z1 := w00 % 0x200_0000, w00 / 0x200_0000 + w01 % 0x200_0000 + w10 % 0x200_0000;
    var z2 := w01 / 0x200_0000 + w10 / 0x200_0000 + z1 / 0x200_0000;
    LimbSum(w00, w01, w10, w11, xu * yu, z0, z1, z2);
    StickyQuotient(xu * yu, w11 + z2, 0x4_0000_0000_0000, z0 + 0x200_0000 * (z1 % 0x200_0000));
  }

  lemma LimbSum(w00: nat, w01: nat, w10: nat, w11: nat, p: nat, z0: nat, z1: nat, z2: nat)
    requires p == w00 + 0x200_0000 * (w01 + w10) + 0x4_0000_0000_0000 * w11
    requires z0 == w00 % 0x200_0000 && z1 == w00 / 0x200_0000 + w01 % 0x200_0000 + w10 % 0x200_0000
    requires z2 == w01 / 0x200_0000 + w10 / 0x200_0000 + z1 / 0x200_0000
    ensures p == (w11 + z2) * 0x4_0000_0000_0000 + (z0 + 0x200_0000 * (z1 % 0x200_0000))
    ensures z0 + 0x200_0000 * (z1 % 0x200_0000) < 0x4_0000_0000_0000
  {}

  /** Every intermediate of the limb product fits its word. */
  lemma LimbProductFits(xu: nat, yu: nat)
    requires xu < 0x20_0000_0000_0000 && yu < 0x20_0000_0000_0000
    ensures var x0, x1, y0, y1 := xu % 0x200_0000, xu / 0x200_0000, yu % 0x200_0000, yu / 0x200_0000;
      && 0 <= x0 * y0 < 0x1_0000_0000_0000_0000 && 0 <= x0 * y1 < 0x1_0000_0000_0000_0000
      && 0 <= x1 * y0 < 0x1_0000_0000_0000_0000 && 0 <= x1 * y1 < 0x100_0000_0000_0000
      && x0 * y0 / 0x200_0000 + x0 * y1 % 0x200_0000 + x1 * y0 % 0x200_0000 < 0x1_0000_0000
      && x0 * y1 / 0x200_0000 + x1 * y0 / 0x200_0000 < 0x8000_0000
  {
    var x0, x1, y0, y1 := xu % 0x200_0000, xu / 0x200_0000, yu % 0x200_0000, yu / 0x200_0000;
    LimbBound(x0, y0, 0x1FF_FFFF, 0x1FF_FFFF);
    LimbBound(x0, y1, 0x1FF_FFFF, 0xFFF_FFFF);
    LimbBound(x1, y0, 0xFFF_FFFF, 0x1FF_FFFF);
    LimbBound(x1, y1, 0xFFF_FFFF, 0xFFF_FFFF);
  }

  lemma LimbBound(x: nat, y: nat, m: nat, n: nat)
    requires x <= m && y <= n
    ensures 0 <= x * y <= m * n
  {
    MulLe(x, y, n);
    MulLe(n, x, m);
  }

  function FprMul(x: U64, y: U64): U64 {
    var z := LimbProduct(SignificandOf(x), SignificandOf(y));
    var w := if z / 0x80_0000_0000_0000 == 0 then 0 else 1;
    var ex, ey := ExponentOf(x), ExponentOf(y);
    var zu := if ex == 0 || ey == 0 then 0 else Shrunk(z);
    FPR(SignXor(x, y), ex + ey - 2100 + w, zu % 0x1_0000_0000_0000_0000)
  }

  lemma ProductRange(a: nat, b: nat)
    requires 0x10_0000_0000_0000 <= a < 0x20_0000_0000_0000 && 0x10_0000_0000_0000 <= b < 0x20_0000_0000_0000
    ensures 0x10_0000_0000_0000 * 0x10_0000_0000_0000 <= a * b < 0x20_0000_0000_0000 * 0x20_0000_0000_0000
  {
    MulLe(0x10_0000_0000_0000, 0x10_0000_0000_0000, b);
    MulLe(b, 0x10_0000_0000_0000, a);
    MulLe(a, b, 0x1F_FFFF_FFFF_FFFF);
    MulLe(0x1F_FFFF_FFFF_FFFF, a, 0x1F_FFFF_FFFF_FFFF);
  }

  /** A sticky quotient keeps the range of the exact one. */
  lemma StickyRange(z: nat, n: nat, d: nat)
    requires Sticky(z, Ratio(n, d)) && 0x40_0000_0000_0000 * d <= n < 0x100_0000_0000_0000 * d
    ensures 0x40_0000_0000_0000 <= z < 0x100_0000_0000_0000
  {
    var v := Ratio(n, d);
    assert v.Excess(0x40_0000_0000_0000) >= 0 > v.Excess(0x100_0000_0000_0000);
    hide Exact.Excess;
    StickySide(z, v, 0x40_0000_0000_0000);
    StickySide(z, v, 0x100_0000_0000_0000);
  }

  /** What multiplication returns: the product of the significands over 2^k, at the matching power, with the sign of the exact product. */
  ghost predicate RoundedProduct(r: U64, x: U64, y: U64, k: nat) {
    Rounded(r, NegativeBit(SignedSignificand(x) * SignedSignificand(y)), Ratio(SignificandOf(x) * SignificandOf(y), Pow2(k)), PowerOf(x) + PowerOf(y) + k + 2)
  }

  lemma PowersOfFifty()
    ensures Pow2(50) == 0x4_0000_0000_0000 && Pow2(51) == 0x8_0000_0000_0000
  {
    Pow2Values();
    Pow2Add(32, 16);
    assert Pow2(50) == 2 * (2 * Pow2(48));
  }

  lemma MulParts(x: U64, y: U64)
    requires Normal(x) && Normal(y)
    ensures var z := LimbProduct(SignificandOf(x), SignificandOf(y));
      Shrunk(z) < 0x1_0000_0000_0000_0000 ==>
      FprMul(x, y) == FPR(SignXor(x, y), PowerOf(x) + PowerOf(y) + 50 + (if z < 0x80_0000_0000_0000 then 0 else 1), Shrunk(z))
  {
    hide LimbProduct, Shrunk, FPR, SignificandOf, SignXor;
  }

  lemma ProductMeaning(r: U64, x: U64, y: U64, k: nat)
    ensures RoundedProduct(r, x, y, k) <==>
      Rounded(r, NegativeBit(SignedSignificand(x) * SignedSignificand(y)), Ratio(SignificandOf(x) * SignificandOf(y), Pow2(k)), PowerOf(x) + PowerOf(y) + k + 2)
  {}

  lemma SignXorRange(x: U64, y: U64)
    ensures SignXor(x, y) <= 1
  {}

  lemma SignificandRange(x: U64)
    ensures 0x10_0000_0000_0000 <= SignificandOf(x) < 0x20_0000_0000_0000
  {}

  /** The product of normal numbers is correctly rounded, when the result is in the normal range. */
  lemma MulCorrect(x: U64, y: U64) returns (k: nat)
    requires Normal(x) && Normal(y)
    ensures 50 <= k <= 51 && Binade(Ratio(SignificandOf(x) * SignificandOf(y), Pow2(k)))
    ensures NormalExponent(PowerOf(x) + PowerOf(y) + k + 2) ==> RoundedProduct(FprMul(x, y), x, y, k)
  {
    hide *;
    var a, b := SignificandOf(x), SignificandOf(y);
    SignificandRange(x);
    SignificandRange(y);
    var z := LimbProduct(a, b);
    LimbProductSticky(a, b);
    ProductRange(a, b);
    StickyRange(z, a * b, 0x4_0000_0000_0000);
    ShrunkSticky(z, a * b, 0x4_0000_0000_0000);
    PowersOfFifty();
    k := if z < 0x80_0000_0000_0000 then 50 else 51;
    RoundSticky(Shrunk(z), Ratio(a * b, Pow2(k)));
    MulParts(x, y);
    SignXorRange(x, y);
    SignXorMeaning(x, y);
    ProductMeaning(FprMul(x, y), x, y, k);
    if NormalExponent(PowerOf(x) + PowerOf(y) + k + 2) {
      PackRounds(SignXor(x, y), PowerOf(x) + PowerOf(y) + k, Shrunk(z), Ratio(a * b, Pow2(k)));
    }
  }

  /** A zero factor gives a zero with the sign of the product. */
  lemma MulZero(x: U64, y: U64)
    requires IsZero(x) || IsZero(y)
    ensures FprMul(x, y) == (SignOf(x) + SignOf(y)) % 2 * 0x8000_0000_0000_0000
  {
    SignXorMeaning(x, y);
    hide LimbProduct, Shrunk, FPR, SignXor, SignOf;
    SignXorRange(x, y);
    PackZero(SignXor(x, y), ExponentOf(x) + ExponentOf(y) - 2100 + (if LimbProduct(SignificandOf(x), SignificandOf(y)) / 0x80_0000_0000_0000 == 0 then 0 else 1), 0);
  }

  // ---- Division ----

  /** Bit-by-bit division: 55 quotient bits, then a zero; the remainder is doubled along. */
  method DivideBits(xu0: nat, yu: nat) returns (q: nat, xu: nat)
    requires xu0 < 0x20_0000_0000_0000 && 0x10_0000_0000_0000 <= yu < 0x20_0000_0000_0000
    ensures q == 2 * QuotientBits(xu0, yu, 55).0 && xu == QuotientBits(xu0, yu, 55).1
  {
    hide *;
    q, xu := 0, xu0;
    QuotientStart(xu0, yu);
    for i := 0 to 55
      invariant (q / 2, xu) == QuotientBits(xu0, yu, i) && q % 2 == 0 && xu < 2 * yu
    {
      QuotientStep(xu0, yu, i);
      QuotientInvariant(xu0, yu, i);
      QuotientInvariant(xu0, yu, i + 1);
      SignOfDifference(xu, yu);
      var b := Wrap64(xu - yu) < 0x8000_0000_0000_0000;
      if b { xu := xu - yu; q := q + 1; }
      xu := 2 * xu;
      q := 2 * q;
    }
  }

  /** The quotient bits and the doubled remainder after i rounds. */
  function QuotientBits(x: nat, y: nat, i: nat): (nat, nat) {
    if i == 0 then (0, x)
    else
      var (q, r) := QuotientBits(x, y, i - 1);
      if r >= y then (2 * q + 1, 2 * (r - y)) else (2 * q, 2 * r)
  }

  lemma QuotientStart(x: nat, y: nat)
    ensures QuotientBits(x, y, 0) == (0, x)
  {}

  lemma QuotientStep(x: nat, y: nat, i: nat)
    ensures var (q, r) := QuotientBits(x, y, i);
      QuotientBits(x, y, i + 1) == if r >= y then (2 * q + 1, 2 * (r - y)) else (2 * q, 2 * r)
  {}

  /** x * 2^i is twice the quotient times y, plus the remainder. */
  lemma {:induction false} QuotientInvariant(x: nat, y: nat, i: nat)
    requires x < 2 * y
    ensures var (q, r) := QuotientBits(x, y, i); x * Pow2(i) == (2 * q) * y + r && r < 2 * y
  {
    if i > 0 {
      QuotientInvariant(x, y, i - 1);
      var (q, r) := QuotientBits(x, y, i - 1);
      QuotientScalar(x, y, Pow2(i - 1), q, r);
    }
  }

  lemma QuotientScalar(x: nat, y: nat, w: nat, q: nat, r: nat)
    requires x * w == (2 * q) * y + r
    ensures x * (2 * w) == (2 * (2 * q)) * y + 2 * r == (2 * (2 * q + 1)) * y + 2 * (r - y)
  {
    assert x * (2 * w) == 2 * (x * w);
    MulAdd(y, 2 * (2 * q), 2);
    assert (2 * (2 * q)) * y == 2 * ((2 * q) * y);
  }

  /** The quotient of two normal numbers; a zero dividend gives zero. */
  function FprDiv(x: U64, y: U64): U64 {
    var (q0, r) := QuotientBits(SignificandOf(x), SignificandOf(y), 55);
    var q := OrBit(2 * q0, r != 0);
    var w := if q / 0x80_0000_0000_0000 == 0 then 0 else 1;
    if ExponentOf(x) == 0 then FPR(0, 0, 0)
    else FPR(SignXor(x, y), ExponentOf(x) - ExponentOf(y) - 55 + w, Shrunk(q) % 0x1_0000_0000_0000_0000)
  }

  method ComputeDiv(x: U64, y: U64) returns (r: U64)
    ensures r == FprDiv(x, y)
  {
    var q, xu := DivideBits(SignificandOf(x), SignificandOf(y));
    q := OrBit(q, xu != 0);
    var w := if q / 0x80_0000_0000_0000 == 0 then 0 else 1;
    var zu := Shrunk(q);
    var s, e := SignXor(x, y), ExponentOf(x) - ExponentOf(y) - 55 + w;
    if ExponentOf(x) == 0 { s, e, zu := 0, 0, 0; }
    r := FPR(s, e, zu % 0x1_0000_0000_0000_0000);
  }

  /** What division returns: the quotient of the significands times 2^k, at the matching power, with the sign of the exact quotient. */
  ghost predicate RoundedQuotient(r: U64, x: U64, y: U64, k: nat) {
    Rounded(r, NegativeBit(SignedSignificand(x) * SignedSignificand(y)), Ratio(SignificandOf(x) * Pow2(55), SignificandOf(y) * Pow2(k)), PowerOf(x) - PowerOf(y) + k - 53)
  }

  lemma DivParts(x: U64, y: U64)
    requires Normal(x) && Normal(y)
    ensures var (q0, r) := QuotientBits(SignificandOf(x), SignificandOf(y), 55);
      var q := OrBit(2 * q0, r != 0);
      Shrunk(q) < 0x1_0000_0000_0000_0000 ==>
      FprDiv(x, y) == FPR(SignXor(x, y), PowerOf(x) - PowerOf(y) - 55 + (if q < 0x80_0000_0000_0000 then 0 else 1), Shrunk(q))
  {
    hide QuotientBits, Shrunk, FPR, SignificandOf, SignXor, OrBit;
  }

  lemma QuotientMeaning(r: U64, x: U64, y: U64, k: nat)
    ensures RoundedQuotient(r, x, y, k) <==>
      Rounded(r, NegativeBit(SignedSignificand(x) * SignedSignificand(y)), Ratio(SignificandOf(x) * Pow2(55), SignificandOf(y) * Pow2(k)), PowerOf(x) - PowerOf(y) + k - 53)
  {}

  lemma QuotientRange(a: nat, b: nat)
    requires 0x10_0000_0000_0000 <= a < 0x20_0000_0000_0000 && 0x10_0000_0000_0000 <= b < 0x20_0000_0000_0000
    ensures 0x40_0000_0000_0000 * b <= a * Pow2(55) < 0x100_0000_0000_0000 * b
  {
    PowersOfFifty();
    assert Pow2(55) == 2 * (2 * (2 * (2 * Pow2(51))));
  }

  /** The quotient of normal numbers is correctly rounded, when the result is in the normal range. */
  lemma DivCorrect(x: U64, y: U64) returns (k: nat)
    requires Normal(x) && Normal(y)
    ensures k <= 1 && Binade(Ratio(SignificandOf(x) * Pow2(55), SignificandOf(y) * Pow2(k)))
    ensures NormalExponent(PowerOf(x) - PowerOf(y) + k - 53) ==> RoundedQuotient(FprDiv(x, y), x, y, k)
  {
    hide *;
    var a, b := SignificandOf(x), SignificandOf(y);
    SignificandRange(x);
    SignificandRange(y);
    var (q0, r) := QuotientBits(a, b, 55);
    QuotientInvariant(a, b, 55);
    var q := OrBit(2 * q0, r != 0);
    StickyEven(a * Pow2(55), 2 * q0, b, r);
    QuotientRange(a, b);
    StickyRange(q, a * Pow2(55), b);
    ShrunkSticky(q, a * Pow2(55), b);
    k := if q < 0x80_0000_0000_0000 then 0 else 1;
    SmallPowers(b);
    RoundSticky(Shrunk(q), Ratio(a * Pow2(55), b * Pow2(k)));
    DivParts(x, y);
    SignXorRange(x, y);
    SignXorMeaning(x, y);
    QuotientMeaning(FprDiv(x, y), x, y, k);
    if NormalExponent(PowerOf(x) - PowerOf(y) + k - 53) {
      PackRounds(SignXor(x, y), PowerOf(x) - PowerOf(y) - 55 + k, Shrunk(q), Ratio(a * Pow2(55), b * Pow2(k)));
    }
  }

  lemma SmallPowers(b: nat)
    ensures b * Pow2(0) == b && b * Pow2(1) == 2 * b
  {
    assert Pow2(0) == 1 && Pow2(1) == 2;
  }

  /** A zero dividend gives plus zero. */
  lemma DivZero(x: U64, y: U64)
    requires IsZero(x)
    ensures FprDiv(x, y) == 0
  {
    hide QuotientBits, FPR;
    PackZero(0, 0, 0);
  }

  // ---- Square root ----

  /** The state of the square root after i rounds: partial root and remaining operand. */
  function RootBits(x: nat, i: nat): (nat, nat)
    requires i <= 54
  {
    if i == 0 then (0, x)
    else
      var (q, u) := RootBits(x, i - 1);
      var r := Pow2(54 - i);
      if u >= 2 * q + r then (q + r, 2 * (u - (2 * q + r))) else (q, 2 * u)
  }

  /**
   After i rounds: the remainder is exactly accounted for, the root is not too large, and it
   misses less than one unit of the last place decided.
   */
  lemma {:induction false} RootInvariant(x: nat, i: nat)
    requires i <= 54 && x < 0x80_0000_0000_0000
    ensures var (q, u) := RootBits(x, i); var p := Pow2(54 - i);
      2 * (x * 0x20_0000_0000_0000) == 2 * (q * q) + u * p && x * 0x20_0000_0000_0000 < (q + p) * (q + p)
      && q + p <= 0x40_0000_0000_0000
  {
    if i == 0 {
      PowersOfFifty();
      assert Pow2(54) == 2 * (2 * (2 * Pow2(51)));
    } else {
      RootInvariant(x, i - 1);
      var (q, u) := RootBits(x, i - 1);
      RootScalar(x * 0x20_0000_0000_0000, q, u, Pow2(54 - i));
    }
  }

  lemma RootScalar(n: nat, q: nat, u: nat, r: nat)
    requires 2 * n == 2 * (q * q) + u * (2 * r) && n < (q + 2 * r) * (q + 2 * r)
    ensures u >= 2 * q + r ==> 2 * n == 2 * ((q + r) * (q + r)) + (2 * (u - (2 * q + r))) * r && n < (q + r + r) * (q + r + r)
    ensures u < 2 * q + r ==> 2 * n == 2 * (q * q) + (2 * u) * r && n < (q + r) * (q + r)
  {
    assert (q + r) * (q + r) == q * q + (2 * q + r) * r by {
      MulAdd(q + r, q, r);
      MulAdd(q, q, r);
      MulAdd(r, q, r);
      MulAdd(r, 2 * q, r);
      assert (2 * q) * r == 2 * (q * r) && r * q == q * r;
    }
    assert u * (2 * r) == 2 * (u * r) == (2 * u) * r;
    if u >= 2 * q + r {
      MulAdd(r, 2 * u, 2 * (2 * q + r));
      assert (2 * (2 * q + r)) * r == 2 * ((2 * q + r) * r);
      assert 2 * (u - (2 * q + r)) == 2 * u - 2 * (2 * q + r);
    } else {
      MulLe(r, u, 2 * q + r);
      if r > 0 {
        MulLe(r, u + 1, 2 * q + r);
        MulAdd(r, u, 1);
      }
    }
  }

  /** The operand of the root loop: twice or four times the significand, by the parity of the exponent. */
  function RootOperand(x: U64): (n: nat)
    ensures 0x20_0000_0000_0000 <= n < 0x80_0000_0000_0000
  {
    if (ExponentOf(x) - 1023) % 2 == 1 then 4 * SignificandOf(x) else 2 * SignificandOf(x)
  }

  /** The square root of a nonnegative number. */
  function FprSqrt(x: U64): U64 {
    var (q, u) := RootBits(RootOperand(x), 54);
    var m := if ExponentOf(x) == 0 then 0 else OrBit(2 * q, u != 0);
    FPR(0, (ExponentOf(x) - 1023) / 2 - 54, m % 0x1_0000_0000_0000_0000)
  }

  lemma RootStep(x: nat, i: nat)
    requires 0 < i <= 54
    ensures var (q, u) := RootBits(x, i - 1); var r := Pow2(54 - i);
      RootBits(x, i) == if u >= 2 * q + r then (q + r, 2 * (u - (2 * q + r))) else (q, 2 * u)
    ensures RootBits(x, 0) == (0, x)
  {}

  /** The words of the loop stay below 2^63, so that the sign of a difference shows in its top bit. */
  lemma RootFits(x: nat, i: nat)
    requires i <= 54 && x < 0x80_0000_0000_0000
    ensures var (q, u) := RootBits(x, i); q < 0x40_0000_0000_0000 && u <= 4 * q + 2 * Pow2(54 - i) < 0x4000_0000_0000_0000
  {
    hide RootBits, Pow2;
    RootInvariant(x, i);
    var (q, u) := RootBits(x, i);
    var p := Pow2(54 - i);
    RemainderFits(x * 0x20_0000_0000_0000, q, u, p);
  }

  lemma RemainderFits(n: nat, q: nat, u: nat, p: nat)
    requires 2 * n == 2 * (q * q) + u * p && n < (q + p) * (q + p) && p >= 1
    ensures u <= 4 * q + 2 * p
  {
    MulAdd(q + p, q, p);
    MulAdd(q, q, p);
    MulAdd(p, q, p);
    assert p * q == q * p;
    MulAdd(p, 4 * q, 2 * p);
    assert (4 * q) * p == 4 * (q * p) && (2 * p) * p == 2 * (p * p);
    if u > 4 * q + 2 * p { MulLe(p, 4 * q + 2 * p, u); }
  }

  /** The loop: one bit of the root per round. */
  method RootLoop(n: nat) returns (q: nat, xu: nat)
    requires n < 0x80_0000_0000_0000
    ensures (q, xu) == RootBits(n, 54)
  {
    hide *;
    var s: nat, r: nat := 0, 0x20_0000_0000_0000;
    q, xu := 0, n;
    RootStep(n, 1);
    HighPower();
    for i := 0 to 54
      invariant (q, xu) == RootBits(n, i) && s == 2 * q && r == Pow2(54 - i) / 2
    {
      RootFits(n, i);
      RootStep(n, i + 1);
      HalfOfPower(54 - i);
      var t := s + r;
      SignOfDifference(xu, t);
      if Wrap64(xu - t) < 0x8000_0000_0000_0000 {
        s := s + 2 * r;
        xu := xu - t;
        q := q + r;
      }
      xu := 2 * xu;
      r := r / 2;
    }
  }

  /** The top bit of a difference of words below 2^63 is its sign. */
  lemma SignOfDifference(x: nat, t: nat)
    requires x < 0x4000_0000_0000_0000 && t < 0x4000_0000_0000_0000
    ensures Wrap64(x - t) < 0x8000_0000_0000_0000 <==> x >= t
  {}

  method ComputeSqrt(x: U64) returns (res: U64)
    ensures res == FprSqrt(x)
  {
    hide RootBits, RootOperand, FPR;
    var xu: nat := SignificandOf(x);
    var e := ExponentOf(x) - 1023;
    if e % 2 == 1 { xu := xu + xu; }
    e := e / 2;
    xu := 2 * xu;
    OperandMeaning(x);
    var q;
    q, xu := RootLoop(xu);
    var m := OrBit(2 * q, xu != 0);
    if ExponentOf(x) == 0 { m := 0; }
    res := FPR(0, e - 54, m % 0x1_0000_0000_0000_0000);
  }

  lemma OperandMeaning(x: U64)
    ensures RootOperand(x) == 2 * (if (ExponentOf(x) - 1023) % 2 == 1 then SignificandOf(x) + SignificandOf(x) else SignificandOf(x))
  {}

  lemma HighPower()
    ensures Pow2(54) == 0x40_0000_0000_0000
  {
    PowersOfFifty();
    assert Pow2(54) == 2 * (2 * (2 * Pow2(51)));
  }

  lemma HalfOfPower(k: nat)
    requires k > 0
    ensures Pow2(k) / 2 == Pow2(k - 1)
  {}

  /** The root with its sticky bit stands for the square root of the operand times 2^55. */
  lemma RootSticky(n: nat)
    requires 0x20_0000_0000_0000 <= n < 0x80_0000_0000_0000
    ensures var (q, u) := RootBits(n, 54);
      Sticky(OrBit(2 * q, u != 0), Root(n * 0x80_0000_0000_0000))
  {
    hide RootBits;
    RootInvariant(n, 54);
    var (q, u) := RootBits(n, 54);
    assert Pow2(0) == 1;
    var a := n * 0x80_0000_0000_0000;
    assert a == 4 * (n * 0x20_0000_0000_0000);
    RootExcess(a, q, u);
  }

  lemma RootExcess(a: nat, q: nat, u: nat)
    requires a > 0 && a == 4 * (q * q) + 2 * u && a < 4 * ((q + 1) * (q + 1))
    ensures Sticky(OrBit(2 * q, u != 0), Root(a))
  {
    var p := q + 1;
    MulAssoc(2, q, 2 * q);
    MulAssoc(2, p, 2 * p);
    assert q * (2 * q) == 2 * (q * q) && p * (2 * p) == 2 * (p * p);
    assert 2 * q + 2 == 2 * p;
    assert Root(a).Excess(2 * q) == 2 * u && Root(a).Excess(2 * q + 2) < 0;
  }

  lemma RootRange(m: nat, n: nat)
    requires 0x20_0000_0000_0000 <= n < 0x80_0000_0000_0000 && Sticky(m, Root(n * 0x80_0000_0000_0000))
    ensures 0x40_0000_0000_0000 <= m < 0x80_0000_0000_0000
  {
    var v := Root(n * 0x80_0000_0000_0000);
    assert v.Excess(0x40_0000_0000_0000) >= 0 > v.Excess(0x80_0000_0000_0000);
    hide Exact.Excess;
    StickySide(m, v, 0x40_0000_0000_0000);
    StickySide(m, v, 0x80_0000_0000_0000);
  }

  /**
   The square root of a normal positive number is correctly rounded, always in the normal range:
   it is the root of the significand times 2^j, at half the remaining power.
   */
  lemma SqrtCorrect(x: U64) returns (j: nat, E: int)
    requires Normal(x) && SignOf(x) == 0
    ensures 56 <= j <= 57 && j + 2 * (E - 2) == PowerOf(x)
    ensures Rounded(FprSqrt(x), 0, Root(SignificandOf(x) * Pow2(j)), E)
  {
    hide *;
    var n := RootOperand(x);
    var (q, u) := RootBits(n, 54);
    var m := OrBit(2 * q, u != 0);
    OperandRange(x);
    RootSticky(n);
    RootRange(m, n);
    RootPowers(SignificandOf(x));
    j, E := SqrtParts(x);
    PackRounds(0, E - 2, m, Root(n * 0x80_0000_0000_0000));
  }

  lemma OperandRange(x: U64)
    ensures 0x20_0000_0000_0000 <= RootOperand(x) < 0x80_0000_0000_0000
  {}

  lemma SqrtParts(x: U64) returns (j: nat, E: int)
    requires Normal(x)
    ensures 56 <= j <= 57 && j + 2 * (E - 2) == PowerOf(x) && NormalExponent(E)
    ensures RootOperand(x) == if j == 57 then 4 * SignificandOf(x) else 2 * SignificandOf(x)
    ensures var (q, u) := RootBits(RootOperand(x), 54);
      OrBit(2 * q, u != 0) < 0x1_0000_0000_0000_0000 ==> FprSqrt(x) == FPR(0, E - 2, OrBit(2 * q, u != 0))
  {
    hide RootBits, FPR, SignificandOf, OrBit;
    E := (ExponentOf(x) - 1023) / 2 - 52;
    j := if (ExponentOf(x) - 1023) % 2 == 1 then 57 else 56;
  }

  lemma RootPowers(a: nat)
    ensures (2 * a) * 0x80_0000_0000_0000 == a * Pow2(56) && (4 * a) * 0x80_0000_0000_0000 == a * Pow2(57)
  {
    HighPower();
    assert Pow2(56) == 2 * (2 * Pow2(54)) && Pow2(57) == 2 * Pow2(56);
  }

  /** The square root of zero is plus zero. */
  lemma SqrtZero(x: U64)
    requires IsZero(x)
    ensures FprSqrt(x) == 0
  {
    hide RootBits, FPR, RootOperand;
    PackZero(0, (ExponentOf(x) - 1023) / 2 - 54, 0);
  }
}
