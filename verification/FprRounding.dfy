/** Conversion of emulated binary64 numbers to integers, as in crypto/fpr.h. */
module FprRounding {
  import opened Words
  import opened Residues
  import opened BitStrings
  import opened Rounding
  import opened FprSum

  /** The significand scaled to 2^62..2^63-1. */
  function Widened(x: U64): nat { SignificandOf(x) * 0x400 }

  /** The dropped bits and the lowest kept one, as three bits of which the last is sticky. */
  function DroppedBits(m: nat, e: nat): nat
    requires e <= 63
  {
    var d := Wrap64(m * Pow2(63 - e));
    OrBit(d / 0x2000_0000_0000_0000, d % 0x2000_0000_0000_0000 != 0)
  }

  /** The nearest integer, for numbers below 2^63 in magnitude. */
  function FprRint(x: U64): int {
    var e := 1085 - ExponentOf(x);
    var m := if e < 64 then Widened(x) else 0;
    var k := e % 64;
    var r := Shr(m, k) + Increment(DroppedBits(m, k));
    if SignOf(x) == 1 then -r else r
  }

  /** m over 2^e, in terms of quotient and remainder. */
  lemma DroppedParts(m: nat, e: nat, q: nat, r: nat)
    requires e <= 63 && m < 0x8000_0000_0000_0000 && m == q * Pow2(e) + r && r < Pow2(e)
    ensures Pow2(63 - e) * Pow2(e) == 0x8000_0000_0000_0000
    ensures Wrap64(m * Pow2(63 - e)) == (q % 2) * 0x8000_0000_0000_0000 + r * Pow2(63 - e)
    ensures 0 <= r * Pow2(63 - e) < 0x8000_0000_0000_0000
  {
    hide *;
    var u, w := Pow2(63 - e), Pow2(e);
    PowerSixtyThree();
    Pow2Add(63 - e, e);
    MulAdd(u, q * w, r);
    MulAssoc(q, w, u);
    assert w * u == u * w;
    assert m * u == q * 0x8000_0000_0000_0000 + r * u;
    MulLe(u, r, w - 1);
    MulAdd(u, w, 1);
    assert r * u <= (w - 1) * u;
    WrapQuotient(q, r * u);
  }

  lemma PowerSixtyThree()
    ensures Pow2(63) == 0x8000_0000_0000_0000
  {
    Pow2Values();
    Pow2Add(31, 32);
  }

  lemma WrapQuotient(q: nat, s: nat)
    requires s < 0x8000_0000_0000_0000
    ensures Wrap64(q * 0x8000_0000_0000_0000 + s) == (q % 2) * 0x8000_0000_0000_0000 + s
  {
    var h := q / 2;
    assert q == 2 * h + q % 2;
  }

  /** The rounding bits are those of a sticky shift of 4 * m. */
  lemma DroppedIsSticky(m: nat, e: nat)
    requires e <= 63 && m < 0x8000_0000_0000_0000
    ensures var z := StickyShift(4 * m, e); Shr(m, e) + Increment(DroppedBits(m, e)) == z / 4 + Increment(z)
  {
    hide *;
    var c, t := SplitFour(m, e);
    DroppedField(m, e, c, t);
    ShiftMeaning(4 * m, e);
    RoundingBits(Shr(m, e), c, t != 0);
  }

  /** Quotient and remainder of 4 * m, from those of m. */
  lemma SplitFour(m: nat, e: nat) returns (c: nat, t: nat)
    ensures c <= 3 && t < Pow2(e) && 4 * (m % Pow2(e)) == c * Pow2(e) + t
    ensures Shr(4 * m, e) == 4 * Shr(m, e) + c && 4 * m % Pow2(e) == t
  {
    hide *;
    var w := Pow2(e);
    ShrValue(m, e);
    RemainderBound(m, w);
    ShrValue(4 * m, e);
    RemainderBound(4 * m, w);
    t := 4 * m % w;
    SmallQuotient(Shr(4 * m, e), t, Shr(m, e), m % w, w);
    c := Shr(4 * m, e) - 4 * Shr(m, e);
  }

  lemma DroppedField(m: nat, e: nat, c: nat, t: nat)
    requires e <= 63 && m < 0x8000_0000_0000_0000 && c <= 3 && t < Pow2(e) && 4 * (m % Pow2(e)) == c * Pow2(e) + t
    ensures DroppedBits(m, e) == OrBit(4 * (Shr(m, e) % 2) + c, t != 0)
  {
    hide *;
    var q, r, w, u := Shr(m, e), m % Pow2(e), Pow2(e), Pow2(63 - e);
    ShrValue(m, e);
    RemainderBound(m, w);
    DroppedParts(m, e, q, r);
    ScaleRemainder(c, t, r, w, u);
    DroppedMeaning(m, e, q, c, r * u);
  }

  lemma ShiftMeaning(m: nat, k: nat)
    ensures StickyShift(m, k) == OrBit(Shr(m, k), m % Pow2(k) != 0)
  {}

  lemma DroppedMeaning(m: nat, e: nat, q: nat, c: nat, s: nat)
    requires e <= 63 && c <= 3 && Wrap64(m * Pow2(63 - e)) == (q % 2) * 0x8000_0000_0000_0000 + s
    requires 0 <= s - c * 0x2000_0000_0000_0000 < 0x2000_0000_0000_0000
    ensures DroppedBits(m, e) == OrBit(4 * (q % 2) + c, s - c * 0x2000_0000_0000_0000 != 0)
  {
    hide OrBit, Wrap64, Pow2;
    var d: int := Wrap64(m * Pow2(63 - e));
    RemainderUnique(d, 4 * (q % 2) + c, s - c * 0x2000_0000_0000_0000, 0x2000_0000_0000_0000);
  }

  /** 4 * r over w is one of 0..3, with remainder t. */
  lemma SmallQuotient(p: nat, t: nat, q: nat, r: nat, w: nat)
    requires w > 0 && p * w + t == 4 * (q * w + r) && t < w && r < w
    ensures 0 <= p - 4 * q <= 3 && 4 * r == (p - 4 * q) * w + t
  {
    var c := p - 4 * q;
    MulAdd(w, p, 4 * q);
    MulAssoc(4, q, w);
    if c <= -1 { MulOrder(c, -1, w); }
    if c >= 4 { MulOrder(4, c, w); }
  }

  /** The same quotient after scaling to 64 bits. */
  lemma ScaleRemainder(c: nat, t: nat, r: nat, w: nat, u: nat)
    requires u * w == 0x8000_0000_0000_0000 && 4 * r == c * w + t && t < w && c <= 3 && u >= 1
    ensures r * u == c * 0x2000_0000_0000_0000 + (r * u - c * 0x2000_0000_0000_0000)
    ensures 0 <= r * u - c * 0x2000_0000_0000_0000 < 0x2000_0000_0000_0000
    ensures r * u - c * 0x2000_0000_0000_0000 == 0 <==> t == 0
  {
    MulAdd(u, c * w, t);
    MulAssoc(c, w, u);
    assert w * u == u * w;
    assert 4 * (r * u) == (4 * r) * u;
    assert 4 * (r * u) == c * 0x8000_0000_0000_0000 + t * u;
    MulLe(u, t, w - 1);
    MulAdd(u, w, 1);
    assert t * u <= (w - 1) * u && (w - 1) * u == w * u - u;
    if t > 0 { MulLe(u, 1, t); } else { assert t * u == 0; }
  }

  lemma RoundingBits(q: nat, c: nat, sticky: bool)
    requires c <= 3
    ensures var z := OrBit(4 * q + c, sticky);
      q + Increment(OrBit(4 * (q % 2) + c, sticky)) == z / 4 + Increment(z)
  {
    hide *;
    var d := OrBit(c, sticky);
    LowBits(q, c, sticky);
    LowBits(q % 2, c, sticky);
    ThreeBits(q, d);
  }

  lemma LowBits(q: nat, c: nat, sticky: bool)
    requires c <= 3
    ensures OrBit(4 * q + c, sticky) == 4 * q + OrBit(c, sticky) && OrBit(c, sticky) <= 3
  {
    assert (4 * q + c) % 2 == c % 2;
  }

  lemma ThreeBits(q: nat, d: nat)
    requires d <= 3
    ensures (4 * q + d) / 4 == q && Increment(4 * q + d) == Increment(4 * (q % 2) + d)
  {
    assert q == 2 * (q / 2) + q % 2;
    assert 4 * q + d == 8 * (q / 2) + (4 * (q % 2) + d);
  }

  /** A number in the magnitude range of 64-bit integers. */
  predicate FitsInteger(x: U64) { ExponentOf(x) <= 1085 }

  /** |x| * 4 as a fraction. */
  ghost function FourTimes(x: U64): Exact
    requires Normal(x) && FitsInteger(x)
  {
    Ratio(4 * Widened(x), Pow2(1085 - ExponentOf(x)))
  }

  /** The magnitude, as a 63-bit integer over a power of two, is rounded to the nearest integer, ties to even. */
  lemma RintWide(x: U64) returns (r: nat)
    requires Normal(x) && FitsInteger(x)
    ensures Nearest(FourTimes(x), r) && FprRint(x) == if SignOf(x) == 1 then -(r as int) else r
  {
    hide *;
    WidenedRange(x);
    var e: nat := 1085 - ExponentOf(x);
    RintParts(x);
    if e < 64 {
      DroppedIsSticky(Widened(x), e);
      var z := StickyShift(4 * Widened(x), e);
      r := z / 4 + Increment(z);
      WholeSticky(4 * Widened(x), e);
      StickyRounds(z, FourTimes(x));
    } else {
      r := 0;
      BelowHalf(x, e);
    }
  }

  lemma WidenedRange(x: U64)
    ensures Widened(x) < 0x8000_0000_0000_0000
    ensures Normal(x) && FitsInteger(x) ==> ExponentOf(x) <= 1085 && FourTimes(x) == Ratio(4 * Widened(x), Pow2(1085 - ExponentOf(x)))
  {}

  lemma RintParts(x: U64)
    requires ExponentOf(x) <= 1085
    ensures var e := 1085 - ExponentOf(x);
      FprRint(x) == var r := if e < 64 then Shr(Widened(x), e) + Increment(DroppedBits(Widened(x), e)) else 0;
        if SignOf(x) == 1 then -(r as int) else r
  {
    hide Shr, DroppedBits, ExponentOf, Widened;
    NothingLeft((1085 - ExponentOf(x)) % 64);
  }

  lemma WholeSticky(m: nat, e: nat)
    ensures Sticky(StickyShift(m, e), Ratio(m, Pow2(e)))
  {
    hide StickyShift, Sticky;
    WholeNumber(m);
    ShiftSticky(m, m, 1, e);
    assert 1 * Pow2(e) == Pow2(e);
  }

  /** Rounding a sticky number of any size. */
  lemma StickyRounds(z: nat, v: Exact)
    requires Sticky(z, v)
    ensures Nearest(v, z / 4 + Increment(z))
  {
    hide *;
    IncrementCases(z);
    StickyRoundsTo(z, v, z / 4 + Increment(z));
  }

  lemma StickyRoundsTo(z: nat, v: Exact, M: nat)
    requires Sticky(z, v) && -2 <= z - 4 * M <= 2 && (z - 4 * M == 2 || z - 4 * M == -2 ==> M % 2 == 0)
    ensures Nearest(v, M)
  {
    hide Exact.Excess, Sticky;
    var M4 := 4 * M;
    StickySide(z, v, M4 + 2);
    if M > 0 { StickySide(z, v, M4 - 2); }
  }

  /** Below one half, the nearest integer is zero. */
  lemma BelowHalf(x: U64, e: nat)
    requires e >= 64
    ensures Nearest(Ratio(4 * Widened(x), Pow2(e)), 0)
  {
    Pow2Monotone(64, e);
    PowerSixtyThree();
  }

  lemma NothingLeft(k: nat)
    requires k <= 63
    ensures Shr(0, k) == 0 && DroppedBits(0, k) == 0
  {
    ShrZero(k);
    assert 0 * Pow2(63 - k) == 0;
  }

  lemma {:induction false} ShrZero(k: nat)
    ensures Shr(0, k) == 0
  {
    if k > 0 { ShrZero(k - 1); }
  }

  /** Zero stays zero. */
  lemma RintZero(x: U64)
    requires IsZero(x)
    ensures FprRint(x) == 0
  {
    hide Shr, DroppedBits;
    NothingLeft(1085 % 64);
  }

  // ---- Truncation and floor ----

  /** The integer part, toward zero, for numbers below 2^63 in magnitude. */
  function FprTrunc(x: U64): int {
    var cc := 1085 - ExponentOf(x);
    var xu := if cc < 64 then Shr(Widened(x), cc % 64) else 0;
    if SignOf(x) == 1 then -xu else xu
  }

  /** The largest integer not above x, for numbers below 2^63 in magnitude. */
  function FprFloor(x: U64): int {
    var cc := 1085 - ExponentOf(x);
    var xi := SignedWide(x) / Pow2(cc % 64);
    if 63 - cc < 0 then -(SignOf(x) as int) else xi
  }

  /** x times 2^(1085 - e), where e is its exponent. */
  function SignedWide(x: U64): int { if SignOf(x) == 1 then -(Widened(x) as int) else Widened(x) }

  /** Truncation drops the fraction of the magnitude and keeps the sign. */
  lemma TruncWide(x: U64) returns (r: nat)
    requires Normal(x) && FitsInteger(x)
    ensures var w := Pow2(1085 - ExponentOf(x)); r * w <= Widened(x) < (r + 1) * w
    ensures FprTrunc(x) == if SignOf(x) == 1 then -(r as int) else r
  {
    hide *;
    WidenedRange(x);
    TruncParts(x);
    var e: nat := 1085 - ExponentOf(x);
    r := if e < 64 then Shr(Widened(x), e) else 0;
    if e < 64 {
      ShrValue(Widened(x), e);
      RemainderBound(Widened(x), Pow2(e));
      MulAdd(Pow2(e), r, 1);
    } else {
      HugePower(e);
    }
  }

  lemma TruncParts(x: U64)
    requires ExponentOf(x) <= 1085
    ensures var e := 1085 - ExponentOf(x);
      FprTrunc(x) == var r := if e < 64 then Shr(Widened(x), e) else 0; if SignOf(x) == 1 then -(r as int) else r
  {
    hide Shr, Widened, ExponentOf;
  }

  /** The floor of the signed 63-bit integer over that power of two. */
  lemma FloorWide(x: U64)
    requires Normal(x) && FitsInteger(x)
    ensures var w := Pow2(1085 - ExponentOf(x)); FprFloor(x) * w <= SignedWide(x) < (FprFloor(x) + 1) * w
  {
    hide *;
    WidenedRange(x);
    FloorParts(x);
    var e: nat := 1085 - ExponentOf(x);
    if e < 64 {
      QuotientBounds(SignedWide(x), Pow2(e));
    } else {
      HugePower(e);
      WidenedPositive(x);
    }
  }

  lemma FloorParts(x: U64)
    requires ExponentOf(x) <= 1085
    ensures var e := 1085 - ExponentOf(x); FprFloor(x) == if e < 64 then SignedWide(x) / Pow2(e) else if SignOf(x) == 1 then -1 else 0
    ensures SignedWide(x) == if SignOf(x) == 1 then -(Widened(x) as int) else Widened(x)
  {
    SignRange(x);
    hide Pow2, Widened, ExponentOf, SignOf;
  }

  lemma QuotientBounds(n: int, w: nat)
    requires w > 0
    ensures (n / w) * w <= n < (n / w + 1) * w
  {
    MulAdd(w, n / w, 1);
  }

  lemma HugePower(e: nat)
    requires e >= 64
    ensures Pow2(e) >= 0x8000_0000_0000_0000
  {
    Pow2Monotone(63, e);
    PowerSixtyThree();
  }

  lemma WidenedPositive(x: U64)
    ensures Widened(x) > 0
  {}

  /** Zero is truncated to zero; minus zero has floor -1. */
  lemma ZeroParts(x: U64)
    requires IsZero(x)
    ensures FprTrunc(x) == 0 && FprFloor(x) == -(SignOf(x) as int)
  {
    ZeroExponent(x);
    hide Pow2, Widened, ExponentOf, SignOf, Shr, SignedWide;
  }

  lemma ZeroExponent(x: U64)
    requires IsZero(x)
    ensures ExponentOf(x) == 0
  {}

  // ---- The three conversions over the decoded value ----

  /** r is the value of x, which is an integer. */
  ghost predicate IsValue(r: int, x: U64)
    requires PowerOf(x) >= 0
  {
    r == SignedSignificand(x) * Pow2(PowerOf(x))
  }

  /** r is the integer nearest to the value of x, ties to even. */
  ghost predicate NearestInteger(r: int, x: U64) {
    if PowerOf(x) >= 0 then IsValue(r, x) else
      var w: int := Pow2(-PowerOf(x));
      var d := 2 * (r * w - SignedSignificand(x));
      -w <= d <= w && (d == w || d == -w ==> r % 2 == 0)
  }

  /** r is the value of x without its fraction. */
  ghost predicate TowardZero(r: int, x: U64) {
    if PowerOf(x) >= 0 then IsValue(r, x) else
      var w, s := Pow2(-PowerOf(x)), SignedSignificand(x);
      if s >= 0 then r * w <= s < (r + 1) * w else (r - 1) * w < s <= r * w
  }

  /** r is the largest integer that is not above the value of x. */
  ghost predicate FloorOf(r: int, x: U64) {
    if PowerOf(x) >= 0 then IsValue(r, x) else
      var w := Pow2(-PowerOf(x));
      r * w <= SignedSignificand(x) < (r + 1) * w
  }

  /** The widened significand over 2^(1085 - e) is the significand times its power of two. */
  lemma WidenedValue(x: U64)
    requires Normal(x) && FitsInteger(x)
    ensures ExponentOf(x) <= 1085 && PowerOf(x) <= 10 && Widened(x) > 0
    ensures SignedSignificand(x) == if SignOf(x) == 1 then -(SignificandOf(x) as int) else SignificandOf(x)
    ensures PowerOf(x) >= 0 ==> Widened(x) == (SignificandOf(x) * Pow2(PowerOf(x))) * Pow2(1085 - ExponentOf(x))
    ensures PowerOf(x) < 0 ==> Widened(x) == 1024 * SignificandOf(x) && Pow2(1085 - ExponentOf(x)) == 1024 * Pow2(-PowerOf(x))
  {
    NormalNotZero(x);
    Pow2Values();
    var p := PowerOf(x);
    assert 1085 - ExponentOf(x) == 10 - p;
    hide Pow2;
    if p >= 0 {
      Pow2Add(p, 10 - p);
      MulAssoc(SignificandOf(x), Pow2(p), Pow2(10 - p));
    } else {
      Pow2Add(10, -p);
    }
  }

  /** Conversion rounds to the nearest integer, ties to even. */
  lemma RintCorrect(x: U64)
    requires Normal(x) && FitsInteger(x)
    ensures NearestInteger(FprRint(x), x)
  {
    hide FprRint, Nearest, Pow2, Widened, SignificandOf, SignOf, ExponentOf, FourTimes;
    WidenedValue(x);
    var r := RintWide(x);
    WidenedRange(x);
    SignRange(x);
    var w := Pow2(1085 - ExponentOf(x));
    if PowerOf(x) >= 0 {
      NearestWhole(SignificandOf(x) * Pow2(PowerOf(x)), r, w);
      SignedProduct(SignificandOf(x), Pow2(PowerOf(x)));
    } else {
      NearestFraction(SignificandOf(x), r, Pow2(-PowerOf(x)));
      SignedProduct(r, Pow2(-PowerOf(x)));
    }
  }

  lemma SignedProduct(a: int, w: int)
    ensures -a * w == -(a * w)
  {}

  lemma NearestWhole(n: nat, r: nat, w: nat)
    requires w > 0 && Nearest(Ratio(4 * (n * w), w), r)
    ensures r == n
  {
    assert 4 * (n * w) == (4 * n) * w by { MulAssoc(4, n, w); }
    CompareMultiples(4 * n, 4 * r + 2, w);
    if r > 0 { CompareMultiples(4 * r - 2, 4 * n, w); }
  }

  lemma CompareMultiples(x: int, y: int, w: int)
    requires w > 0
    ensures x * w <= y * w ==> x <= y
  {
    if x > y { MulOrder(y + 1, x, w); MulAdd(w, y, 1); }
  }

  lemma NearestFraction(s: nat, r: nat, w: int)
    requires s > 0 && w > 0 && Nearest(Ratio(4 * (1024 * s), 1024 * w), r)
    ensures var d := 2 * (r * w - s); -w <= d <= w && (d == w || d == -w ==> r % 2 == 0)
  {
    var m := r * w;
    assert (4 * r + 2) * (1024 * w) == 4096 * m + 2048 * w;
    assert (4 * r - 2) * (1024 * w) == 4096 * m - 2048 * w;
  }

  /** Truncation drops the fraction. */
  lemma TruncCorrect(x: U64)
    requires Normal(x) && FitsInteger(x)
    ensures TowardZero(FprTrunc(x), x)
  {
    hide FprTrunc, Pow2, Widened, SignificandOf, SignOf, ExponentOf;
    WidenedValue(x);
    var r := TruncWide(x);
    SignRange(x);
    SignificandPositive(x);
    var w := Pow2(1085 - ExponentOf(x));
    if PowerOf(x) >= 0 {
      WholeQuotient(SignificandOf(x) * Pow2(PowerOf(x)), r, w);
      SignedProduct(SignificandOf(x), Pow2(PowerOf(x)));
    } else {
      SmallerUnits(SignificandOf(x), r, Pow2(-PowerOf(x)));
      SignedProduct(r, Pow2(-PowerOf(x)));
      SignedProduct(r + 1, Pow2(-PowerOf(x)));
    }
  }

  lemma SignificandPositive(x: U64)
    ensures SignificandOf(x) > 0
  {}

  lemma WholeQuotient(n: int, r: int, w: int)
    requires w > 0 && r * w <= n * w < (r + 1) * w
    ensures r == n
  {
    CompareMultiples(r, n, w);
    CompareMultiples(r + 1, n, w);
  }

  lemma SmallerUnits(s: int, r: int, w: int)
    requires w > 0 && r * (1024 * w) <= 1024 * s < (r + 1) * (1024 * w)
    ensures r * w <= s < (r + 1) * w
  {
    var m := r * w;
    assert r * (1024 * w) == 1024 * m && (r + 1) * (1024 * w) == 1024 * m + 1024 * w && (r + 1) * w == m + w;
  }

  /** The floor of the value, for either sign. */
  lemma FloorCorrect(x: U64)
    requires Normal(x) && FitsInteger(x)
    ensures FloorOf(FprFloor(x), x)
  {
    hide FprFloor, Pow2, Widened, SignificandOf, SignOf, ExponentOf;
    WidenedValue(x);
    FloorWide(x);
    SignRange(x);
    var w, r := Pow2(1085 - ExponentOf(x)), FprFloor(x);
    if PowerOf(x) >= 0 {
      var n := SignificandOf(x) * Pow2(PowerOf(x));
      SignedProduct(SignificandOf(x), Pow2(PowerOf(x)));
      SignedProduct(n, w);
      WholeQuotient(if SignOf(x) == 1 then -n else n, r, w);
    } else {
      SmallerUnits(SignedSignificand(x), r, Pow2(-PowerOf(x)));
    }
  }

  // ---- From integers ----

  /** The number nearest to i * 2^sc. */
  function FprScaled(i: int, sc: int): U64 {
    var s := if i < 0 then 1 else 0;
    var (m, e) := Norm64(Abs(i), 9 + sc);
    var t := i != 0;
    FPR(s, if t then e else 0, if t then StickyShift(m, 9) % 0x1_0000_0000_0000_0000 else 0)
  }

  lemma NormShifted(m: nat, e: int, k: int)
    ensures var (m1, e1) := Norm64(m, e); Norm64(m, e + k) == (m1, e1 + k)
  {}

  /** Every nonzero scaled integer is correctly rounded in the normal range. */
  lemma ScaledCorrect(i: int, sc: int) returns (a: nat, b: nat)
    requires -0x8000_0000_0000_0000 < i < 0x8000_0000_0000_0000 && i != 0
    ensures Binade(Ratio(Abs(i) * Pow2(a), Pow2(b)))
    ensures NormalExponent(sc + 2 - a + b) ==> RoundedInteger(FprScaled(i, sc), if i < 0 then 1 else 0, Abs(i), sc, a, b)
  {
    hide *;
    var n, s := Abs(i), if i < 0 then 1 else 0;
    AbsMeaning(i);
    WholeNumber(n);
    PowerOfZero(n);
    a, b := FinishSticky(n, n, 0, sc, s);
    ScaledParts(i, sc, n, s);
    RoundedMeaning(FprScaled(i, sc), s, n, sc, a, b);
  }

  lemma AbsMeaning(i: int)
    ensures Abs(i) == if i < 0 then -i else i
  {}

  lemma PowerOfZero(n: nat)
    ensures Pow2(0) == 1 && n * Pow2(0) == n
  {}

  lemma ScaledParts(i: int, sc: int, n: nat, s: nat)
    requires i != 0 && n == Abs(i) && s == if i < 0 then 1 else 0
    requires StickyShift(Norm64(n, sc).0, 9) < 0x80_0000_0000_0000
    ensures FprScaled(i, sc) == var (m, e) := Norm64(n, sc); FPR(s, e + 9, StickyShift(m, 9))
  {
    NormShifted(n, sc, 9);
    hide Norm64, StickyShift, FPR;
  }

  lemma ScaledZero(sc: int)
    ensures FprScaled(0, sc) == 0
  {}

  /** The fields of an encoded normal number. */
  lemma FieldsOfEncoding(s: nat, X: nat, E: int, x: U64)
    requires s <= 1 && 0x10_0000_0000_0000 <= X < 0x20_0000_0000_0000 && NormalExponent(E) && x == Encode(s, X, E)
    ensures Normal(x) && SignOf(x) == s && SignificandOf(x) == X && PowerOf(x) == E
  {}

  /** An integer of at most 53 bits is represented exactly. */
  lemma ScaledExactly(i: int) returns (X: nat, j: nat)
    requires -0x20_0000_0000_0000 < i < 0x20_0000_0000_0000 && i != 0
    ensures j <= 52 && X == Abs(i) * Pow2(j) && 0x10_0000_0000_0000 <= X < 0x20_0000_0000_0000
    ensures FprScaled(i, 0) == Encode(if i < 0 then 1 else 0, X, -(j as int))
  {
    hide *;
    AbsMeaning(i);
    var n, s := Abs(i), if i < 0 then 1 else 0;
    var k := NormMeaning(n, 0);
    j := ShiftRange(n, k);
    X := n * Pow2(j);
    ShiftedExactly(n, k, j);
    ScaledParts(i, 0, n, s);
    PackExact(s, 9 - (k as int), X);
  }

  lemma ShiftRange(n: nat, k: nat) returns (j: nat)
    requires 0 < n < 0x20_0000_0000_0000 && 0x8000_0000_0000_0000 <= n * Pow2(k) < 0x1_0000_0000_0000_0000
    ensures 11 <= k <= 63 && j == k - 11 && n * Pow2(k) == 2048 * (n * Pow2(j))
    ensures 0x10_0000_0000_0000 <= n * Pow2(j) < 0x20_0000_0000_0000 && NormalExponent(11 - k)
  {
    Pow2Values();
    PowerSixtyThree();
    if k < 11 {
      Pow2Monotone(k, 10);
      MulLe(n, Pow2(k), 1024);
    } else if k > 63 {
      Pow2Monotone(64, k);
      MulLe(Pow2(k), 1, n);
    }
    j := k - 11;
    Pow2Add(11, j);
    assert Pow2(11) == 2 * Pow2(10);
    MulAssoc(n, 2048, Pow2(j));
    MulAssoc(2048, n, Pow2(j));
    assert n * Pow2(k) == 2048 * (n * Pow2(j));
  }

  lemma ShiftedExactly(n: nat, k: nat, j: nat)
    requires n * Pow2(k) == 2048 * (n * Pow2(j)) && n * Pow2(j) < 0x20_0000_0000_0000
    ensures n * Pow2(j) >= 0 && StickyShift(n * Pow2(k), 9) == 4 * (n * Pow2(j))
  {
    hide *;
    var X := n * Pow2(j);
    assert X >= 0 by { MulLe(n, 0, Pow2(j)); }
    Pow2Values();
    ShrValue(2048 * X, 9);
    ShiftMeaning(2048 * X, 9);
    ShiftIsEven(X, Shr(2048 * X, 9));
  }

  lemma ShiftIsEven(X: nat, q: nat)
    requires 2048 * X == q * 512 + 2048 * X % 512
    ensures q == 4 * X && 2048 * X % 512 == 0 && OrBit(q, false) == q
  {
    assert 2048 * X == 512 * (4 * X);
  }

  /** Converting an integer of at most 53 bits to a number and back gives it back. */
  lemma RintScaled(i: int)
    requires -0x20_0000_0000_0000 < i < 0x20_0000_0000_0000
    ensures FprRint(FprScaled(i, 0)) == i
  {
    hide *;
    if i == 0 {
      ScaledZero(0);
      ZeroWord();
      RintZero(0);
    } else {
      var X, j := ScaledExactly(i);
      AbsMeaning(i);
      RintOfEncoding(if i < 0 then 1 else 0, X, j, FprScaled(i, 0), i);
    }
  }

  lemma ZeroWord()
    ensures IsZero(0)
  {}

  lemma RintOfEncoding(s: nat, X: nat, j: nat, x: U64, i: int)
    requires j <= 52 && 0x10_0000_0000_0000 <= X < 0x20_0000_0000_0000 && x == Encode(s, X, -(j as int))
    requires i != 0 && s == (if i < 0 then 1 else 0) && X == (if i < 0 then -i else i) * Pow2(j)
    ensures FprRint(x) == i
  {
    hide *;
    PowerInRange(j);
    FieldsOfEncoding(s, X, -(j as int), x);
    FieldsFit(x);
    RintCorrect(x);
    WidenedValue(x);
    SignedProduct(i, Pow2(j));
    NearestToWhole(x, i, j);
  }

  lemma PowerInRange(j: nat)
    requires j <= 52
    ensures NormalExponent(-(j as int))
  {}

  lemma FieldsFit(x: U64)
    requires PowerOf(x) <= 0
    ensures FitsInteger(x)
  {}

  lemma NearestToWhole(x: U64, i: int, j: nat)
    requires PowerOf(x) == -(j as int) && SignedSignificand(x) == i * Pow2(j) && NearestInteger(FprRint(x), x)
    ensures FprRint(x) == i
  {
    var r, w := FprRint(x), Pow2(j);
    hide FprRint, SignedSignificand, Pow2, PowerOf;
    if j == 0 {
      NoShift(r, i, x);
    } else {
      MulAdd(w, r, i);
      var d := r - i;
      if d >= 1 { MulOrder(1, d, w); }
      if d <= -1 { MulOrder(d, -1, w); }
    }
  }

  lemma NoShift(r: int, i: int, x: U64)
    requires PowerOf(x) == 0 && r == SignedSignificand(x) * Pow2(PowerOf(x)) && SignedSignificand(x) == i * Pow2(0)
    ensures r == i
  {
    assert Pow2(0) == 1;
  }
}
