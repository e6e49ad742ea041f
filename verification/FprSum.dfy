/** Addition of emulated binary64 numbers, as in crypto/fpr.c. */
module FprSum {
  import opened Words
  import opened Residues
  import opened BitStrings
  import opened Rounding

  // ---- Shifts by several bits ----

  /** Right shift by k bits; the last bit is set if any dropped bit was. */
  function StickyShift(m: nat, k: nat): nat {
    OrBit(Shr(m, k), m % Pow2(k) != 0)
  }

  lemma RemainderHalves(m: nat, w: nat)
    requires w > 0
    ensures m % (2 * w) == 0 <==> m % 2 == 0 && m / 2 % w == 0
  {
    var q, r := m / 2 / w, m / 2 % w;
    assert m / 2 == w * q + r;
    assert m == q * (2 * w) + (2 * r + m % 2) by { assert q * (2 * w) == 2 * (w * q); }
    RemainderUnique(m, q, 2 * r + m % 2, 2 * w);
  }

  /** One bit at a time. */
  lemma {:induction false} StickyShiftStep(m: nat, k: nat)
    ensures StickyShift(m, 0) == m && StickyShift(m, k + 1) == StickyShift(Halve(m), k)
    decreases k
  {
    var h := m / 2;
    assert Pow2(k + 1) == 2 * Pow2(k);
    RemainderHalves(m, Pow2(k));
    OddQuotient(h, k);
    assert Shr(m, k + 1) == Shr(h, k);
    if k == 0 {
      assert Pow2(0) == 1 && Shr(h, 0) == h && StickyShift(Halve(m), 0) == Halve(m);
    }
  }

  /** Setting the last bit of an even number. */
  lemma OddQuotient(h: nat, k: nat)
    ensures k > 0 && h % 2 == 0 ==> Shr(h + 1, k) == Shr(h, k) && (h + 1) % Pow2(k) != 0
    ensures k > 0 && h % 2 == 1 ==> h % Pow2(k) != 0
  {
    if k > 0 {
      assert Pow2(k) == 2 * Pow2(k - 1);
      RemainderHalves(h, Pow2(k - 1));
      assert h % 2 == 0 ==> (h + 1) / 2 == h / 2;
      RemainderHalves(h + 1, Pow2(k - 1));
    }
  }

  /** Shifting a sticky number divides the exact one. */
  lemma {:induction false} ShiftSticky(m: nat, n: nat, d: nat, k: nat)
    requires Sticky(m, Ratio(n, d))
    ensures d * Pow2(k) >= 0 && Sticky(StickyShift(m, k), Ratio(n, d * Pow2(k)))
    decreases k
  {
    hide Sticky, StickyShift;
    StickyShiftStep(m, if k > 0 then k - 1 else 0);
    if k > 0 {
      StickyHalf(m, n, d);
      ShiftSticky(Halve(m), n, 2 * d, k - 1);
      assert (2 * d) * Pow2(k - 1) == d * (2 * Pow2(k - 1));
    } else {
      assert d * Pow2(0) == d;
    }
  }

  lemma {:induction false} StickyShiftDoubled(m: nat, j: nat, k: nat)
    ensures m * Pow2(j) >= 0
    ensures j <= k ==> StickyShift(m * Pow2(j), k) == StickyShift(m, k - j)
    ensures j >= k ==> m * Pow2(j - k) >= 0 && StickyShift(m * Pow2(j), k) == m * Pow2(j - k)
    decreases k
  {
    hide StickyShift;
    StickyShiftStep(m * Pow2(j), if k > 0 then k - 1 else 0);
    if j == 0 {
      assert m * Pow2(0) == m;
      StickyShiftStep(m, 0);
    } else if k > 0 {
      DoubleProduct(Pow2(j - 1), m);
      assert m * Pow2(j) == 2 * (m * Pow2(j - 1));
      StickyShiftDoubled(m, j - 1, k - 1);
    }
  }

  // ---- Normalisation ----

  /** One step: multiply by fac = 2^k if the number is below lim, or else adjust the exponent. */
  function NormStep(m: nat, e: int, k: nat, lim: nat, fac: nat): (nat, int) {
    if m < lim then (m * fac, e) else (m, e + k)
  }

  /** Scales a number to 2^63..2^64-1; zero stays zero. */
  function Norm64(m: nat, e: int): (nat, int) {
    var (m1, e1) := NormStep(m, e - 63, 32, 0x1_0000_0000, 0x1_0000_0000);
    var (m2, e2) := NormStep(m1, e1, 16, 0x1_0000_0000_0000, 0x1_0000);
    var (m3, e3) := NormStep(m2, e2, 8, 0x100_0000_0000_0000, 0x100);
    var (m4, e4) := NormStep(m3, e3, 4, 0x1000_0000_0000_0000, 0x10);
    var (m5, e5) := NormStep(m4, e4, 2, 0x4000_0000_0000_0000, 4);
    NormStep(m5, e5, 1, 0x8000_0000_0000_0000, 2)
  }

  /** m is m0 * 2^j, and of the s exponent steps so far, those that did not shift were added. */
  ghost predicate Norming(m0: nat, e0: int, m: nat, e: int, j: nat, s: nat) {
    m == m0 * Pow2(j) && e == e0 - 63 + s - j
  }

  lemma NormStepMeaning(m0: nat, e0: int, m: nat, e: int, j: nat, s: nat, k: nat, lim: nat, fac: nat) returns (j': nat)
    requires Norming(m0, e0, m, e, j, s) && fac == Pow2(k)
    ensures var (m', e') := NormStep(m, e, k, lim, fac); Norming(m0, e0, m', e', j', s + k)
    ensures j' == if m < lim then j + k else j
  {
    j' := if m < lim then j + k else j;
    if m < lim {
      Pow2Add(j, k);
      MulAssoc(m0, Pow2(j), fac);
    }
  }

  /** The result is m0 * 2^j in the full range, with the exponent lowered by j. */
  lemma NormMeaning(m0: nat, e0: int) returns (j: nat)
    requires 0 < m0 < 0x1_0000_0000_0000_0000
    ensures var (m, e) := Norm64(m0, e0); m == m0 * Pow2(j) && e == e0 - j && 0x8000_0000_0000_0000 <= m < 0x1_0000_0000_0000_0000
  {
    Pow2Values();
    hide Pow2;
    assert Norming(m0, e0, m0, e0 - 63, 0, 0) by { TimesOne(m0); }
    var (m1, e1) := NormStep(m0, e0 - 63, 32, 0x1_0000_0000, 0x1_0000_0000);
    var j1 := NormStepMeaning(m0, e0, m0, e0 - 63, 0, 0, 32, 0x1_0000_0000, 0x1_0000_0000);
    var (m2, e2) := NormStep(m1, e1, 16, 0x1_0000_0000_0000, 0x1_0000);
    var j2 := NormStepMeaning(m0, e0, m1, e1, j1, 32, 16, 0x1_0000_0000_0000, 0x1_0000);
    var (m3, e3) := NormStep(m2, e2, 8, 0x100_0000_0000_0000, 0x100);
    var j3 := NormStepMeaning(m0, e0, m2, e2, j2, 48, 8, 0x100_0000_0000_0000, 0x100);
    var (m4, e4) := NormStep(m3, e3, 4, 0x1000_0000_0000_0000, 0x10);
    var j4 := NormStepMeaning(m0, e0, m3, e3, j3, 56, 4, 0x1000_0000_0000_0000, 0x10);
    var (m5, e5) := NormStep(m4, e4, 2, 0x4000_0000_0000_0000, 4);
    var j5 := NormStepMeaning(m0, e0, m4, e4, j4, 60, 2, 0x4000_0000_0000_0000, 4);
    j := NormStepMeaning(m0, e0, m5, e5, j5, 62, 1, 0x8000_0000_0000_0000, 2);
  }

  lemma TimesOne(m: nat)
    ensures m * Pow2(0) == m
  {}

  // ---- Addition ----

  /** The significand, or zero for a zero. */
  function Mantissa(x: U64): nat { if ExponentOf(x) == 0 then x % 0x10_0000_0000_0000 else SignificandOf(x) }

  function Magnitude(x: U64): nat { x % 0x8000_0000_0000_0000 }

  /** The operands are exchanged so that the first has the larger magnitude, and is positive if they are opposite. */
  predicate Swapped(x: U64, y: U64) {
    Magnitude(x) < Magnitude(y) || (Magnitude(x) == Magnitude(y) && SignOf(x) == 1)
  }

  /** The aligned second operand: shifted by the difference of the exponents, or dropped. */
  function AlignedOperand(y: U64, cc: nat): nat {
    if cc < 60 then StickyShift(8 * Mantissa(y), cc % 64) else StickyShift(0, cc % 64)
  }

  /** The sum of ordered operands. */
  function AddOrdered(x: U64, y: U64): U64
    requires ExponentOf(x) >= ExponentOf(y)
  {
    var xu := 8 * Mantissa(x);
    var yu := AlignedOperand(y, ExponentOf(x) - ExponentOf(y));
    var z := if SignOf(x) == SignOf(y) then xu + yu else Wrap64(xu - yu);
    var (m, e) := Norm64(z, ExponentOf(x) - 1078);
    FPR(SignOf(x), e + 9, StickyShift(m, 9) % 0x1_0000_0000_0000_0000)
  }

  lemma OrderedExponents(x: U64, y: U64)
    requires Magnitude(x) >= Magnitude(y)
    ensures ExponentOf(x) >= ExponentOf(y)
    ensures ExponentOf(x) == ExponentOf(y) ==> Mantissa(x) >= Mantissa(y)
  {
    MagnitudeParts(x);
    MagnitudeParts(y);
    hide ExponentOf, Magnitude;
  }

  lemma MagnitudeParts(x: U64)
    ensures Magnitude(x) == ExponentOf(x) * 0x10_0000_0000_0000 + x % 0x10_0000_0000_0000
  {}

  function FprAdd(x: U64, y: U64): U64 {
    var (a, b) := if Swapped(x, y) then (y, x) else (x, y);
    OrderedExponents(a, b);
    AddOrdered(a, b)
  }

  predicate Operand(x: U64) { Normal(x) || IsZero(x) }

  /** The exact sum of ordered operands, in units of the last place of the smaller one. */
  ghost function ExactSum(x: U64, y: U64): int
    requires ExponentOf(x) >= ExponentOf(y)
  {
    var scaled := Mantissa(x) * Pow2(ExponentOf(x) - ExponentOf(y));
    if SignOf(x) == SignOf(y) then scaled + Mantissa(y) else scaled - Mantissa(y)
  }

  /** r is the correctly rounded value (-1)^s * n * 2^p. */
  ghost predicate RoundedInteger(r: U64, s: nat, n: nat, p: int, i: nat, j: nat) {
    Rounded(r, s, Ratio(n * Pow2(i), Pow2(j)), p + 2 - i + j)
  }

  /** A sticky number added to an even one. */
  lemma StickyPlus(xu: nat, m: nat, n: nat, d: nat)
    requires xu % 2 == 0 && Sticky(m, Ratio(n, d))
    ensures Sticky(xu + m, Ratio(xu * d + n, d))
  {
    MulAdd(d, xu, m);
    if m % 2 == 1 {
      MulAdd(d, xu, m - 1);
      MulAdd(d, xu, m + 1);
    }
  }

  /** A sticky number subtracted from an even one. */
  lemma StickyMinus(xu: nat, m: nat, n: nat, d: nat)
    requires xu % 2 == 0 && Sticky(m, Ratio(n, d)) && m <= xu && n <= xu * d
    ensures Sticky(xu - m, Ratio(xu * d - n, d))
  {
    MulAdd(d, xu, m);
    if m % 2 == 1 {
      MulAdd(d, xu, m - 1);
      MulAdd(d, xu, m + 1);
    }
  }

  lemma MantissaRange(x: U64)
    requires Operand(x)
    ensures Mantissa(x) < 0x20_0000_0000_0000
    ensures ExponentOf(x) > 0 ==> Mantissa(x) >= 0x10_0000_0000_0000
    ensures ExponentOf(x) == 0 ==> Mantissa(x) == 0
  {}

  /** Before normalisation the sum is a sticky form of the exact one. */
  lemma AlignedSticky(X: nat, Y: nat, cc: nat, plus: bool, n: nat)
    requires n == (if plus then X * Pow2(cc) + Y else X * Pow2(cc) - Y)
    ensures var m := StickyShift(8 * Y, cc);
      (plus || m <= 8 * X) && Sticky(if plus then 8 * X + m else 8 * X - m, Ratio(8 * n, Pow2(cc)))
  {
    hide *;
    var w, m := Pow2(cc), StickyShift(8 * Y, cc);
    WholeNumber(8 * Y);
    ShiftSticky(8 * Y, 8 * Y, 1, cc);
    assert 1 * w == w;
    AlignedScalar(X, Y, w, m, plus, n);
  }

  lemma WholeNumber(m: nat)
    ensures Sticky(m, Ratio(m, 1))
  {
    ExactIsSticky(m, Ratio(m, 1));
  }

  lemma AlignedScalar(X: nat, Y: nat, w: nat, m: nat, plus: bool, n: nat)
    requires n == (if plus then X * w + Y else X * w - Y) && Sticky(m, Ratio(8 * Y, w))
    ensures (plus || m <= 8 * X) && Sticky(if plus then 8 * X + m else 8 * X - m, Ratio(8 * n, w))
  {
    hide Sticky;
    MulAssoc(8, X, w);
    if plus {
      StickyPlus(8 * X, m, 8 * Y, w);
    } else {
      StickySide(m, Ratio(8 * Y, w), 8 * X);
      StickyMinus(8 * X, m, 8 * Y, w);
    }
  }

  /** After the shift by 9, the word is in the range that packing needs. */
  lemma ShiftedRange(m: nat)
    requires 0x8000_0000_0000_0000 <= m < 0x1_0000_0000_0000_0000
    ensures 0x40_0000_0000_0000 <= StickyShift(m, 9) < 0x80_0000_0000_0000
  {
    hide Shr;
    Pow2Values();
    ShrValue(m, 9);
  }

  /** A number that needs more than nine shifts is below 2^54. */
  lemma ManyShifts(z: nat, j: nat)
    requires z * Pow2(j) < 0x1_0000_0000_0000_0000 && j > 9
    ensures z < 0x40_0000_0000_0000
  {
    Pow2Monotone(10, j);
    Pow2Values();
    MulLe(z, 1024, Pow2(j));
  }

  /** Below 2^54 nothing was shifted out: the exponents differ by at most one. */
  lemma SmallIsExact(X: nat, Y: nat, cc: nat, plus: bool)
    requires 0x10_0000_0000_0000 <= X && Y < 0x20_0000_0000_0000
    requires var m := StickyShift(8 * Y, cc);
      (plus || m <= 8 * X) && (if plus then 8 * X + m else 8 * X - m) < 0x40_0000_0000_0000
    ensures cc <= 1 && StickyShift(8 * Y, cc) * Pow2(cc) == 8 * Y
  {
    StickyShiftStep(8 * Y, 0);
    if cc >= 2 {
      hide Shr;
      ShrValue(8 * Y, cc);
      Pow2Monotone(2, cc);
      Pow2Values();
      MulLe(Shr(8 * Y, cc), 4, Pow2(cc));
    }
  }

  /** The last steps on a sticky sum: normalise, drop nine bits, pack. */
  lemma FinishSticky(z: nat, n8: nat, cc: nat, ex: int, s: nat) returns (i: nat, j: nat)
    requires 0 < z < 0x1_0000_0000_0000_0000 && n8 > 0 && s <= 1 && Sticky(z, Ratio(n8, Pow2(cc)))
    requires z < 0x40_0000_0000_0000 ==> z * Pow2(cc) == n8
    ensures var (m, e) := Norm64(z, ex); var E := ex + 2 - i + j - cc;
      && StickyShift(m, 9) < 0x80_0000_0000_0000 && Binade(Ratio(n8 * Pow2(i), Pow2(j)))
      && (NormalExponent(E) ==> Rounded(FPR(s, e + 9, StickyShift(m, 9)), s, Ratio(n8 * Pow2(i), Pow2(j)), E))
  {
    hide StickyShift, Norm64, Sticky, FPR, Exact.Excess, Rounded, Binade;
    var J := NormMeaning(z, ex);
    var (m, e) := Norm64(z, ex);
    ShiftedRange(m);
    StickyShiftDoubled(z, J, 9);
    if J <= 9 {
      i, j := 0, cc + (9 - J);
      ShiftSticky(z, n8, Pow2(cc), 9 - J);
      Pow2Add(cc, 9 - J);
      TimesOne(n8);
    } else {
      i, j := J - 9, cc;
      ManyShifts(z, J);
      ScaledExact(z, Pow2(cc), n8, Pow2(i));
    }
    RoundSticky(StickyShift(m, 9), Ratio(n8 * Pow2(i), Pow2(j)));
    if NormalExponent(e + 11) { PackRounds(s, e + 9, StickyShift(m, 9), Ratio(n8 * Pow2(i), Pow2(j))); }
  }

  lemma ScaledExact(z: nat, d: nat, n: nat, f: nat)
    requires z * d == n && d > 0
    ensures z * f >= 0 && n * f >= 0 && Sticky(z * f, Ratio(n * f, d))
  {
    MulAssoc(z, f, d);
    MulAssoc(z, d, f);
    assert (z * f) * d == (z * d) * f;
    ExactIsSticky(z * f, Ratio(n * f, d));
  }

  /** An operand at least 2^60 times the other is the rounded result, unless it is a power of two that is diminished. */
  lemma DominantOperand(X: nat, Y: nat, w: nat, plus: bool, n: nat)
    requires 0x10_0000_0000_0000 <= X < 0x20_0000_0000_0000 && Y < 0x20_0000_0000_0000 && w >= 0x1000_0000_0000_0000
    requires n == (if plus then X * w + Y else X * w - Y)
    ensures plus || X > 0x10_0000_0000_0000 || Y == 0 ==>
      Nearest(Ratio(8 * n, 2 * w), X) && Binade(Ratio(8 * n, 2 * w))
    ensures !plus && X == 0x10_0000_0000_0000 && Y > 0 ==>
      Nearest(Ratio(8 * n, w), 0x20_0000_0000_0000) && Binade(Ratio(8 * n, w))
  {
    assert (4 * X + 2) * (2 * w) == 8 * (X * w) + 4 * w;
    assert (4 * X - 2) * (2 * w) == 8 * (X * w) - 4 * w;
    if X > 0x10_0000_0000_0000 { MulLe(w, 0x10_0000_0000_0001, X); } else { assert X * w == 0x10_0000_0000_0000 * w; }
    MulLe(w, X, 0x1F_FFFF_FFFF_FFFF);
  }

  /** The exact sum is a number of units of the last place of the smaller operand: 2^p. */
  function UnitOf(y: U64): int { ExponentOf(y) - 1075 }

  lemma SumParts(x: U64, y: U64)
    requires Operand(x) && Operand(y) && Magnitude(x) >= Magnitude(y)
    ensures ExponentOf(x) >= ExponentOf(y)
    ensures var cc := ExponentOf(x) - ExponentOf(y); var plus := SignOf(x) == SignOf(y); var X, Y := Mantissa(x), Mantissa(y);
      ExactSum(x, y) == if plus then X * Pow2(cc) + Y else X * Pow2(cc) - Y
  {
    OrderedExponents(x, y);
  }

  /** The exact sum of ordered operands is not negative. */
  lemma SumNonnegative(x: U64, y: U64)
    requires Operand(x) && Operand(y) && Magnitude(x) >= Magnitude(y)
    ensures ExponentOf(x) >= ExponentOf(y) && ExactSum(x, y) >= 0
    ensures ExactSum(x, y) == 0 <==> Mantissa(x) == 0 || (SignOf(x) != SignOf(y) && Magnitude(x) == Magnitude(y))
  {
    SumParts(x, y);
    MantissaRange(x);
    MantissaRange(y);
    OrderedExponents(x, y);
    MagnitudeParts(x);
    MagnitudeParts(y);
    var cc := ExponentOf(x) - ExponentOf(y);
    hide *;
    if cc == 0 {
      TimesOne(Mantissa(x));
    } else {
      Pow2Monotone(1, cc);
      Pow2Values();
      MulLe(Mantissa(x), 2, Pow2(cc));
    }
  }

  lemma AddParts(x: U64, y: U64, z: nat)
    requires ExponentOf(x) >= ExponentOf(y) && z < 0x1_0000_0000_0000_0000
    requires var yu := AlignedOperand(y, ExponentOf(x) - ExponentOf(y));
      z == if SignOf(x) == SignOf(y) then 8 * Mantissa(x) + yu else 8 * Mantissa(x) - yu
    ensures var (m, e) := Norm64(z, ExponentOf(x) - 1078);
      StickyShift(m, 9) < 0x80_0000_0000_0000 ==> AddOrdered(x, y) == FPR(SignOf(x), e + 9, StickyShift(m, 9))
  {
    hide Norm64, StickyShift, FPR, Mantissa, ExponentOf, AlignedOperand;
  }

  lemma ScaleEight(n: nat, i: nat)
    ensures (8 * n) * Pow2(i) == n * Pow2(i + 3)
  {
    Pow2Add(i, 3);
    Pow2Values();
    MulAssoc(n, Pow2(i), 8);
    assert (8 * n) * Pow2(i) == 8 * (n * Pow2(i));
  }

  /** The aligned operands differ by less than 60 places. */
  lemma AddNear(x: U64, y: U64, n: nat) returns (i: nat, j: nat)
    requires Operand(x) && Operand(y) && Magnitude(x) >= Magnitude(y) && ExponentOf(x) >= ExponentOf(y)
    requires n == ExactSum(x, y) && n > 0 && ExponentOf(x) - ExponentOf(y) < 60
    ensures Binade(Ratio(n * Pow2(i), Pow2(j)))
    ensures NormalExponent(UnitOf(y) + 2 - i + j) ==> RoundedInteger(AddOrdered(x, y), SignOf(x), n, UnitOf(y), i, j)
  {
    hide *;
    var cc, plus := ExponentOf(x) - ExponentOf(y), SignOf(x) == SignOf(y);
    var X, Y := Mantissa(x), Mantissa(y);
    SumParts(x, y);
    MantissaRange(x);
    MantissaRange(y);
    AlignedSticky(X, Y, cc, plus, n);
    var m0 := StickyShift(8 * Y, cc);
    var z := if plus then 8 * X + m0 else 8 * X - m0;
    AlignedMeaning(y, cc);
    AlignedFits(Y, cc);
    PositiveSum(x, y);
    NonzeroSticky(z, 8 * n, Pow2(cc));
    if z < 0x40_0000_0000_0000 {
      SmallIsExact(X, Y, cc, plus);
      ExactSmall(X, Y, Pow2(cc), m0, plus, n, z);
    }
    SignRange(x);
    var i0;
    i0, j := FinishSticky(z, 8 * n, cc, ExponentOf(x) - 1078, SignOf(x));
    i := i0 + 3;
    ScaleEight(n, i0);
    AddParts(x, y, z);
    RoundedMeaning(AddOrdered(x, y), SignOf(x), n, UnitOf(y), i, j);
    UnitMeaning(y);
  }

  lemma UnitMeaning(y: U64)
    ensures UnitOf(y) == ExponentOf(y) - 1075
  {}

  lemma RoundedMeaning(r: U64, s: nat, n: nat, p: int, i: nat, j: nat)
    ensures RoundedInteger(r, s, n, p, i, j) <==> Rounded(r, s, Ratio(n * Pow2(i), Pow2(j)), p + 2 - i + j)
  {}

  lemma AlignedMeaning(y: U64, cc: nat)
    ensures cc < 60 ==> AlignedOperand(y, cc) == StickyShift(8 * Mantissa(y), cc)
    ensures cc >= 60 ==> AlignedOperand(y, cc) == 0
  {
    if cc >= 60 {
      ShrValue(0, cc % 64);
      assert Shr(0, cc % 64) * Pow2(cc % 64) == 0;
      MulLe(Pow2(cc % 64), 0, Shr(0, cc % 64));
      if Shr(0, cc % 64) > 0 { MulLe(Pow2(cc % 64), 1, Shr(0, cc % 64)); }
    }
  }

  lemma AlignedFits(Y: nat, cc: nat)
    requires Y < 0x20_0000_0000_0000
    ensures StickyShift(8 * Y, cc) <= 0x100_0000_0000_0000
  {
    hide Shr;
    ShrValue(8 * Y, cc);
    MulLe(Shr(8 * Y, cc), 1, Pow2(cc));
  }

  /** A positive sum has a normal first operand. */
  lemma PositiveSum(x: U64, y: U64)
    requires Operand(x) && Operand(y) && Magnitude(x) >= Magnitude(y) && ExponentOf(x) >= ExponentOf(y) && ExactSum(x, y) > 0
    ensures 0x10_0000_0000_0000 <= Mantissa(x) < 0x20_0000_0000_0000
  {
    SumNonnegative(x, y);
    MantissaRange(x);
    hide *;
  }

  lemma NonzeroSticky(z: nat, n: nat, d: nat)
    requires n > 0 && Sticky(z, Ratio(n, d))
    ensures z > 0
  {
    assert z == 0 ==> Ratio(n, d).Excess(z) == n;
  }

  lemma ExactSmall(X: nat, Y: nat, w: nat, m: nat, plus: bool, n: nat, z: nat)
    requires n == (if plus then X * w + Y else X * w - Y) && m * w == 8 * Y
    requires (plus || m <= 8 * X) && z == (if plus then 8 * X + m else 8 * X - m)
    ensures z * w == 8 * n
  {
    MulAdd(w, 8 * X, m);
    MulAssoc(8, X, w);
  }

  /** The operands differ by 60 places or more: the first one is the result. */
  lemma AddFar(x: U64, y: U64, n: nat) returns (i: nat, j: nat)
    requires Operand(x) && Operand(y) && Magnitude(x) >= Magnitude(y) && ExponentOf(x) >= ExponentOf(y)
    requires n == ExactSum(x, y) && n > 0 && ExponentOf(x) - ExponentOf(y) >= 60
    ensures Binade(Ratio(n * Pow2(i), Pow2(j)))
    ensures NormalExponent(UnitOf(y) + 2 - i + j) ==> RoundedInteger(AddOrdered(x, y), SignOf(x), n, UnitOf(y), i, j)
  {
    hide *;
    var cc, plus := ExponentOf(x) - ExponentOf(y), SignOf(x) == SignOf(y);
    var X, Y := Mantissa(x), Mantissa(y);
    SumParts(x, y);
    MantissaRange(y);
    PositiveSum(x, y);
    AlignedMeaning(y, cc);
    var (m, e) := Norm64(8 * X, ExponentOf(x) - 1078);
    NormDominant(X, ExponentOf(x) - 1078);
    AddParts(x, y, 8 * X);
    SignRange(x);
    ExponentRange(x);
    PackExact(SignOf(x), ExponentOf(x) - 1077, X);
    LargePower(cc);
    DominantOperand(X, Y, Pow2(cc), plus, n);
    ScaleEight(n, 0);
    TimesOne(8 * n);
    UnitMeaning(y);
    i := 3;
    if plus || X > 0x10_0000_0000_0000 || Y == 0 {
      j := cc + 1;
      RoundedIntro(AddOrdered(x, y), SignOf(x), Ratio(8 * n, Pow2(j)), X, ExponentOf(x) - 1075);
    } else {
      j := cc;
      EncodeCarry(SignOf(x), ExponentOf(x) - 1076);
      RoundedIntro(AddOrdered(x, y), SignOf(x), Ratio(8 * n, Pow2(j)), 0x20_0000_0000_0000, ExponentOf(x) - 1076);
    }
    RoundedMeaning(AddOrdered(x, y), SignOf(x), n, UnitOf(y), i, j);
  }

  lemma NormDominant(X: nat, ex: int)
    requires 0x10_0000_0000_0000 <= X < 0x20_0000_0000_0000
    ensures Norm64(8 * X, ex) == (2048 * X, ex - 8) && StickyShift(2048 * X, 9) == 4 * X
  {
    Pow2Values();
    hide Shr;
    ShrValue(2048 * X, 9);
  }

  lemma ExponentRange(x: U64)
    ensures Operand(x) ==> ExponentOf(x) <= 2046
  {}

  lemma PackExact(s: nat, e: int, X: nat)
    requires s <= 1 && 0x10_0000_0000_0000 <= X < 0x20_0000_0000_0000 && NormalExponent(e + 2)
    ensures FPR(s, e, 4 * X) == Encode(s, X, e + 2)
  {}

  lemma LargePower(cc: nat)
    requires cc >= 60
    ensures Pow2(cc) >= 0x1000_0000_0000_0000 && Pow2(cc + 1) == 2 * Pow2(cc)
  {
    Pow2Monotone(60, cc);
    Pow2Values();
    Pow2Add(30, 30);
    assert Pow2(30) == 0x4000_0000 by { Pow2Add(14, 16); }
  }

  lemma RoundedIntro(r: U64, s: nat, v: Exact, M: nat, E: int)
    requires Binade(v) && Nearest(v, M) && r == Encode(s, M, E)
    ensures Rounded(r, s, v, E)
  {}

  /** A significand of 2^53 is one of 2^52 at the next exponent. */
  lemma EncodeCarry(s: nat, E: int)
    ensures Encode(s, 0x20_0000_0000_0000, E) == Encode(s, 0x10_0000_0000_0000, E + 1)
  {}

  /** The operands in the order in which they are added. */
  function Ordered(x: U64, y: U64): (r: (U64, U64))
    ensures Magnitude(r.0) >= Magnitude(r.1)
  {
    if Swapped(x, y) then (y, x) else (x, y)
  }

  /** Ordered operands: the exact sum is (-1)^s * n * 2^p with the sign s of the larger operand. */
  lemma AddInOrder(x: U64, y: U64) returns (i: nat, j: nat)
    requires Operand(x) && Operand(y)
    ensures var (a, b) := Ordered(x, y);
      && ExponentOf(a) >= ExponentOf(b) && ExactSum(a, b) >= 0
      && (ExactSum(a, b) > 0 ==>
          && Binade(Ratio(ExactSum(a, b) * Pow2(i), Pow2(j)))
          && (NormalExponent(UnitOf(b) + 2 - i + j) ==> RoundedInteger(FprAdd(x, y), SignOf(a), ExactSum(a, b), UnitOf(b), i, j)))
  {
    hide AddOrdered, ExactSum, Mantissa, RoundedInteger, Binade, ExponentOf, Magnitude, SignOf, Normal, IsZero, NormalExponent, Pow2;
    var (a, b) := Ordered(x, y);
    i, j := 0, 0;
    SumNonnegative(a, b);
    if ExactSum(a, b) > 0 {
      if ExponentOf(a) - ExponentOf(b) < 60 { i, j := AddNear(a, b, ExactSum(a, b)); } else { i, j := AddFar(a, b, ExactSum(a, b)); }
    }
  }

  /** The sum of the two values, in units of 2^SumPower: integers with their signs. */
  ghost function ValueSum(x: U64, y: U64): int {
    var ex, ey := ExponentOf(x), ExponentOf(y);
    if ex >= ey then SignedSignificand(x) * Pow2(ex - ey) + SignedSignificand(y)
    else SignedSignificand(y) * Pow2(ey - ex) + SignedSignificand(x)
  }

  /** The power of the operand with the smaller exponent. */
  ghost function SumPower(x: U64, y: U64): int { if ExponentOf(x) >= ExponentOf(y) then PowerOf(y) else PowerOf(x) }

  /** The exact sum of ordered operands has the sign of the first one. */
  lemma OrderedValue(a: U64, b: U64)
    requires Operand(a) && Operand(b) && ExponentOf(a) >= ExponentOf(b)
    ensures ValueSum(a, b) == (if SignOf(a) == 1 then -ExactSum(a, b) else ExactSum(a, b)) && SumPower(a, b) == UnitOf(b)
  {
    MantissaSigned(a);
    MantissaSigned(b);
    SignRange(a);
    SignRange(b);
    var w := Pow2(ExponentOf(a) - ExponentOf(b));
    hide Mantissa, SignedSignificand, Pow2, SignOf, ExponentOf, Normal, IsZero;
    var M: int := Mantissa(a);
    assert -M * w == -(M * w);
  }

  lemma MantissaSigned(x: U64)
    requires Operand(x)
    ensures SignedSignificand(x) == if SignOf(x) == 1 then -(Mantissa(x) as int) else Mantissa(x)
  {}

  lemma ValueSumSwaps(x: U64, y: U64)
    ensures ValueSum(x, y) == ValueSum(y, x) && SumPower(x, y) == SumPower(y, x)
  {
    hide SignedSignificand, ExponentOf;
    assert Pow2(0) == 1;
  }

  /**
   The sum of zero or normal numbers is correctly rounded, when it is not zero and in the normal
   range: the result is the exact sum of the two signed values, with its sign.
   */
  lemma AddCorrect(x: U64, y: U64) returns (i: nat, j: nat)
    requires Operand(x) && Operand(y)
    ensures var n, p := ValueSum(x, y), SumPower(x, y);
      n != 0 ==>
        && Binade(Ratio(Abs(n) * Pow2(i), Pow2(j)))
        && (NormalExponent(p + 2 - i + j) ==> RoundedInteger(FprAdd(x, y), NegativeBit(n), Abs(n), p, i, j))
  {
    hide ExactSum, ValueSum, SumPower, RoundedInteger, Binade, ExponentOf, Magnitude, SignOf, Normal, IsZero, NormalExponent, Pow2, FprAdd, UnitOf;
    i, j := AddInOrder(x, y);
    var (a, b) := Ordered(x, y);
    OrderedValue(a, b);
    ValueSumSwaps(x, y);
    SignRange(a);
  }

  /** A sum that is zero is plus zero, except for two minus zeros. */
  lemma AddZero(x: U64, y: U64)
    requires Operand(x) && Operand(y) && ValueSum(x, y) == 0
    ensures FprAdd(x, y) == if SignOf(x) == 1 && SignOf(y) == 1 then 0x8000_0000_0000_0000 else 0
  {
    var (a, b) := Ordered(x, y);
    OrderedExponents(a, b);
    OrderedValue(a, b);
    ValueSumSwaps(x, y);
    ZeroSum(a, b);
    ZeroSign(x, y);
  }

  lemma ZeroSum(x: U64, y: U64)
    requires Operand(x) && Operand(y) && Magnitude(x) >= Magnitude(y) && ExponentOf(x) >= ExponentOf(y) && ExactSum(x, y) == 0
    ensures Magnitude(x) == Magnitude(y) && AddOrdered(x, y) == SignOf(x) * 0x8000_0000_0000_0000
    ensures Mantissa(x) == 0 || SignOf(x) != SignOf(y)
  {
    hide ExactSum, Norm64, StickyShift, FPR;
    SumNonnegative(x, y);
    ZeroMagnitude(x, y);
    SignRange(x);
    AlignedZero(x, y);
    NormZero(ExponentOf(x) - 1078);
    AddParts(x, y, 0);
    PackZero(SignOf(x), ExponentOf(x) - 1078 - 63 + 9, 0);
  }

  lemma ZeroMagnitude(x: U64, y: U64)
    requires Operand(x) && Operand(y) && Magnitude(x) >= Magnitude(y)
    requires Mantissa(x) == 0 || (SignOf(x) != SignOf(y) && Magnitude(x) == Magnitude(y))
    ensures Magnitude(x) == Magnitude(y) && ExponentOf(x) == ExponentOf(y) && Mantissa(x) == Mantissa(y)
  {
    MantissaRange(x);
    MagnitudeParts(x);
    MagnitudeParts(y);
  }

  lemma AlignedZero(x: U64, y: U64)
    requires ExponentOf(x) == ExponentOf(y) && Mantissa(x) == Mantissa(y)
    ensures AlignedOperand(y, ExponentOf(x) - ExponentOf(y)) == 8 * Mantissa(x)
  {
    AlignedMeaning(y, 0);
    StickyShiftStep(8 * Mantissa(y), 0);
  }

  lemma NormZero(e: int)
    ensures Norm64(0, e) == (0, e - 63) && StickyShift(0, 9) == 0
  {
    hide Shr;
    Pow2Values();
    ShrValue(0, 9);
  }

  lemma ZeroSign(x: U64, y: U64)
    requires var (a, b) := Ordered(x, y); Magnitude(a) == Magnitude(b) && (Mantissa(a) == 0 || SignOf(a) != SignOf(b))
    ensures SignOf(Ordered(x, y).0) == if SignOf(x) == 1 && SignOf(y) == 1 then 1 else 0
  {
    SignRange(x);
    SignRange(y);
    hide Magnitude, Mantissa, SignOf;
  }
}
