/** The deepest level of the NTRU solver, with its odd/even extension, as in crypto/keygen.c. */
module Deepest {
  import opened Words
  import opened Arrays
  import opened Residues
  import opened BigNum
  import opened LimbArithmetic
  import opened GcdSteps
  import opened GcdRounds
  import opened Bezout
  import opened Polynomials
  import opened FieldNorm
  import opened Crt
  import opened MakeFg
  import opened NtruCheck
  import opened SmallDegrees

  /** The second operand of the GCD: it must be more than 1 for the identity to hold. */
  function SecondOperand(x: int, y: int): int { if x % 2 == 1 && y % 2 == 0 then x + y else y }

  lemma ZeroPlace(k: nat)
    ensures Place(0, k) == 0
  {}

  /** The identity for (x, x + y) becomes one for (x, y). */
  lemma OddEvenIdentity(x: int, y: int, u: int, v: int)
    ensures x * (u + y - v) - y * (v + x) == x * u - (y + x) * v
  {
    MulAdd(x, u + y, v);
    MulAdd(x, u, y);
    MulAdd(y, v, x);
    MulAdd(v, y, x);
    assert x * v == v * x && y * v == v * y && y * x == x * y;
  }

  /** The identity for (x + y, y) becomes one for (x, y). */
  lemma EvenOddIdentity(x: int, y: int, u: int, v: int)
    ensures x * (u + y) - y * (v + x - u) == (x + y) * u - y * v
  {
    MulAdd(x, u, y);
    MulAdd(y, v + x, u);
    MulAdd(y, v, x);
    MulAdd(u, x, y);
    assert x * u == u * x && y * u == u * y && y * x == x * y;
  }

  /** The first operand of the GCD. */
  function FirstOperand(x: int, y: int): int { if x % 2 == 0 && y % 2 == 1 then x + y else x }

  /** What the GCD of x and y gives: coefficients in range, and the identity unless y is 1. */
  ghost predicate GcdGives(x: nat, y: nat, u: int, v: int) {
    0 <= u < y && 0 <= v < x && (x * u - y * v == 1 <==> y > 1)
  }

  /** A number with a carry out is at least 2^31 to the number of words. */
  lemma CarryMeans(n: int, s: seq<int>, cc: int)
    requires Limbs(s) && cc >= 0 && Num(s) + Place(cc, |s|) == n
    ensures cc == 0 <==> n < Base(|s|)
  {
    hide Num, Limbs, Base;
    NumBound(s);
    if cc > 0 { MulLe(Base(|s|), 1, cc); }
  }

  /** The subtraction in the odd/even case never borrows. */
  lemma OddEvenNoBorrow(x: int, y: int, u: int, v: int)
    requires x > 0 && y >= 0 && GcdGives(x, x + y, u, v)
    ensures u + y >= v
  {
    if x + y > 1 {
      MulAdd(v, x, y);
      MulLe(v, 0, y);
      MulAdd(x, u, v);
      if u < v { MulOrder(u, v, x); }
    }
  }

  /** Nor does the one in the even/odd case. */
  lemma EvenOddNoBorrow(x: int, y: int, u: int, v: int)
    requires x >= 0 && y > 0 && GcdGives(x + y, y, u, v)
    ensures v + x >= u
  {
    if y > 1 {
      MulAdd(u, x, y);
      MulLe(u, 0, x);
      if v < u {
        MulOrder(v + 1, u, y);
        MulAdd(y, v, 1);
      }
    }
  }

  /**
   The first operand is odd and the second even. It succeeds exactly if the GCD of the adjusted pair
   does and all sums fit the words; the ghost results are the coefficients that the GCD gave.
   */
  method OddEven(Gp: array<U32>, Fp: array<U32>, fp: array<U32>, gp: array<U32>) returns (ok: bool, ghost u: int, ghost v: int)
    requires Gp != Fp && Gp != fp && Gp != gp && Fp != fp && Fp != gp
    requires Gp.Length == Fp.Length == fp.Length == gp.Length >= 1 && Limbs(fp[..]) && Limbs(gp[..])
    requires Num(fp[..]) % 2 == 1 && Num(gp[..]) % 2 == 0
    modifies Gp, Fp
    ensures Num(fp[..]) >= 0 && Num(gp[..]) >= 0
    ensures var x, y, B := Num(fp[..]), Num(gp[..]), Base(fp.Length);
      && (x + y < B && GcdIsOne(x, x + y, fp.Length) ==> GcdGives(x, x + y, u, v))
      && (ok <==> x + y < B && GcdIsOne(x, x + y, fp.Length) && u + y < B && v + x < B)
      && (ok ==> Limbs(Gp[..]) && Limbs(Fp[..]) && Num(Gp[..]) == u + y - v && Num(Fp[..]) == v + x)
  {
    hide *;
    var len := Gp.Length;
    ZeroPlace(len);
    NumBound(fp[..]);
    NumBound(gp[..]);
    u, v := 0, 0;
    ghost var x, y := Num(fp[..]), Num(gp[..]);
    var yp := new U32[len];
    var carry := Z31Add(yp, gp, fp);
    CarryMeans(x + y, yp[..], carry);
    if carry != 0 { return false, u, v; }
    ok := ZintBezout(Gp, Fp, fp[..], yp[..]);
    if !ok { return; }
    u, v := Num(Gp[..]), Num(Fp[..]);
    GivesIntro(x, x + y, u, v);
    OddEvenNoBorrow(x, y, u, v);
    carry := Z31Add(yp, Gp, gp);
    CarryMeans(u + y, yp[..], carry);
    if carry != 0 { return false, u, v; }
    carry := Z31Sub(yp, yp, Fp);
    if carry != 0 { return false, u, v; }
    carry := Z31Add(Fp, Fp, fp);
    CarryMeans(v + x, Fp[..], carry);
    if carry != 0 { return false, u, v; }
    CopyFrom(Gp, yp[..]);
  }

  lemma GivesIntro(x: nat, y: nat, u: int, v: int)
    requires 0 <= u < y && 0 <= v < x && (x * u - y * v == 1 <==> y > 1)
    ensures GcdGives(x, y, u, v)
  {}

  /** The first operand is even and the second odd, likewise. */
  method EvenOdd(Gp: array<U32>, Fp: array<U32>, fp: array<U32>, gp: array<U32>) returns (ok: bool, ghost u: int, ghost v: int)
    requires Gp != Fp && Gp != fp && Gp != gp && Fp != fp && Fp != gp
    requires Gp.Length == Fp.Length == fp.Length == gp.Length >= 1 && Limbs(fp[..]) && Limbs(gp[..])
    requires Num(fp[..]) % 2 == 0 && Num(gp[..]) % 2 == 1
    modifies Gp, Fp
    ensures Num(fp[..]) >= 0 && Num(gp[..]) >= 0
    ensures var x, y, B := Num(fp[..]), Num(gp[..]), Base(fp.Length);
      && (x + y < B && GcdIsOne(x + y, y, fp.Length) ==> GcdGives(x + y, y, u, v))
      && (ok <==> x + y < B && GcdIsOne(x + y, y, fp.Length) && u + y < B && v + x < B)
      && (ok ==> Limbs(Gp[..]) && Limbs(Fp[..]) && Num(Gp[..]) == u + y && Num(Fp[..]) == v + x - u)
  {
    hide *;
    var len := Gp.Length;
    ZeroPlace(len);
    NumBound(fp[..]);
    NumBound(gp[..]);
    u, v := 0, 0;
    ghost var x, y := Num(fp[..]), Num(gp[..]);
    var xp := new U32[len];
    var carry := Z31Add(xp, fp, gp);
    CarryMeans(x + y, xp[..], carry);
    if carry != 0 { return false, u, v; }
    ok := ZintBezout(Gp, Fp, xp[..], gp[..]);
    if !ok { return; }
    u, v := Num(Gp[..]), Num(Fp[..]);
    GivesIntro(x + y, y, u, v);
    EvenOddNoBorrow(x, y, u, v);
    CopyFrom(xp, Gp[..]);
    carry := Z31Add(Gp, Gp, gp);
    CarryMeans(u + y, Gp[..], carry);
    if carry != 0 { return false, u, v; }
    carry := Z31Add(Fp, Fp, fp);
    CarryMeans(v + x, Fp[..], carry);
    if carry != 0 { return false, u, v; }
    carry := Z31Sub(Fp, Fp, xp);
    if carry != 0 { return false, u, v; }
  }

  /** The first half of the solution for (x, y), from the coefficients for the adjusted pair. */
  function SolvedG(x: int, y: int, u: int, v: int): int {
    if x % 2 == 1 && y % 2 == 0 then u + y - v else if x % 2 == 0 && y % 2 == 1 then u + y else u
  }

  /** The second half. */
  function SolvedF(x: int, y: int, u: int, v: int): int {
    if x % 2 == 1 && y % 2 == 0 then v + x else if x % 2 == 0 && y % 2 == 1 then v + x - u else v
  }

  /** The adjusted operands fit the words, and their GCD succeeds. */
  ghost predicate Adjusted(x: nat, y: nat, len: nat) {
    && FirstOperand(x, y) < Base(len) && SecondOperand(x, y) < Base(len)
    && GcdIsOne(FirstOperand(x, y), SecondOperand(x, y), len)
  }

  /** So do the sums of the mixed parities. */
  ghost predicate Unscaled(x: nat, y: nat, len: nat, u: int, v: int) {
    Adjusted(x, y, len) && (x % 2 != y % 2 ==> u + y < Base(len) && v + x < Base(len))
  }

  /** The GCD of the adjusted operands succeeds, and everything fits the words. */
  ghost predicate Solvable(x: nat, y: nat, len: nat, u: int, v: int) {
    && Unscaled(x, y, len, u, v)
    && 12289 * SolvedG(x, y, u, v) < Base(len) && 12289 * SolvedF(x, y, u, v) < Base(len)
  }

  /** The solution satisfies the identity exactly if the second operand of the GCD is more than 1. */
  lemma SolvedIdentity(x: nat, y: nat, u: int, v: int)
    requires x % 2 == 1 || y % 2 == 1
    requires GcdGives(FirstOperand(x, y), SecondOperand(x, y), u, v)
    ensures x * SolvedG(x, y, u, v) - y * SolvedF(x, y, u, v) == 1 <==> SecondOperand(x, y) > 1
  {
    OddEvenIdentity(x, y, u, v);
    EvenOddIdentity(x, y, u, v);
    assert y + x == x + y;
  }

  /** The extended GCD by the parities of the operands, before the multiplication by q. */
  method SolveUnscaled(Gp: array<U32>, Fp: array<U32>, fp: array<U32>, gp: array<U32>) returns (ok: bool, ghost u: int, ghost v: int)
    requires Gp != Fp && Gp != fp && Gp != gp && Fp != fp && Fp != gp
    requires Gp.Length == Fp.Length == fp.Length == gp.Length >= 1 && Limbs(fp[..]) && Limbs(gp[..])
    modifies Gp, Fp
    ensures Num(fp[..]) >= 0 && Num(gp[..]) >= 0
    ensures var x, y := Num(fp[..]), Num(gp[..]);
      && (Adjusted(x, y, fp.Length) ==> GcdGives(FirstOperand(x, y), SecondOperand(x, y), u, v))
      && (ok <==> Unscaled(x, y, fp.Length, u, v))
      && (ok ==> Num(Gp[..]) == SolvedG(x, y, u, v) && Num(Fp[..]) == SolvedF(x, y, u, v))
    ensures ok ==> Limbs(Gp[..]) && Limbs(Fp[..]) && (Num(fp[..]) % 2 == 1 || Num(gp[..]) % 2 == 1)
  {
    hide Num, Place, Base, Limbs, GcdIsOne, GcdGives;
    NumBound(fp[..]);
    NumBound(gp[..]);
    u, v := 0, 0;
    ghost var x, y, len := Num(fp[..]), Num(gp[..]), fp.Length;
    ParityOfWords(fp[..]);
    ParityOfWords(gp[..]);
    var px, py := fp[0] % 2, gp[0] % 2;
    OddOperands(x, y, len);
    if px == 0 && py == 0 { return false, u, v; }
    if px == 1 && py == 1 {
      ok := ZintBezout(Gp, Fp, fp[..], gp[..]);
      u, v := Num(Gp[..]), Num(Fp[..]);
      if ok { GivesIntro(x, y, u, v); }
    } else if px == 1 {
      ok, u, v := OddEven(Gp, Fp, fp, gp);
    } else {
      ok, u, v := EvenOdd(Gp, Fp, fp, gp);
    }
  }

  /**
   Solves f * G - g * F = q over the integers for the rebuilt resultants fp and gp. It succeeds exactly
   if the GCD of the adjusted operands does and everything fits the words; then the equation holds
   exactly if the second operand of the GCD is more than 1.
   */
  method SolveDeepest(Gp: array<U32>, Fp: array<U32>, fp: array<U32>, gp: array<U32>) returns (ok: bool, ghost u: int, ghost v: int)
    requires Gp != Fp && Gp != fp && Gp != gp && Fp != fp && Fp != gp
    requires Gp.Length == Fp.Length == fp.Length == gp.Length >= 1 && Limbs(fp[..]) && Limbs(gp[..])
    modifies Gp, Fp
    ensures Num(fp[..]) >= 0 && Num(gp[..]) >= 0
    ensures var x, y, len := Num(fp[..]), Num(gp[..]), fp.Length;
      && (Adjusted(x, y, len) ==> GcdGives(FirstOperand(x, y), SecondOperand(x, y), u, v))
      && (ok <==> Solvable(x, y, len, u, v))
      && (ok ==> Num(Gp[..]) == 12289 * SolvedG(x, y, u, v) && Num(Fp[..]) == 12289 * SolvedF(x, y, u, v))
    ensures ok ==> Limbs(Gp[..]) && Limbs(Fp[..]) && (Num(fp[..]) % 2 == 1 || Num(gp[..]) % 2 == 1)
    ensures ok ==> (Num(fp[..]) * Num(Gp[..]) - Num(gp[..]) * Num(Fp[..]) == 12289
                    <==> SecondOperand(Num(fp[..]), Num(gp[..])) > 1)
  {
    hide *;
    NumBound(fp[..]);
    NumBound(gp[..]);
    ghost var x, y, len := Num(fp[..]), Num(gp[..]), fp.Length;
    ok, u, v := SolveUnscaled(Gp, Fp, fp, gp);
    SolvableParts(x, y, len, u, v);
    if !ok { return; }
    SolvedIdentity(x, y, u, v);
    ok := TimesQ(Fp);
    if !ok { return; }
    ok := TimesQ(Gp);
    if !ok { return; }
    TimesTarget(x, y, SolvedG(x, y, u, v), SolvedF(x, y, u, v));
  }

  lemma SolvableParts(x: nat, y: nat, len: nat, u: int, v: int)
    ensures Unscaled(x, y, len, u, v) ==> Adjusted(x, y, len)
    ensures Solvable(x, y, len, u, v) <==>
      Unscaled(x, y, len, u, v) && 12289 * SolvedG(x, y, u, v) < Base(len) && 12289 * SolvedF(x, y, u, v) < Base(len)
  {}

  lemma OddOperands(x: nat, y: nat, len: nat)
    ensures x % 2 == 0 && y % 2 == 0 ==> !GcdIsOne(FirstOperand(x, y), SecondOperand(x, y), len)
  {
    GcdMeaningOne(FirstOperand(x, y), SecondOperand(x, y), len);
  }

  /** The adjusted operands have the same common divisors. */
  lemma AdjustedCoprime(x: nat, y: nat)
    ensures Coprime(FirstOperand(x, y), SecondOperand(x, y)) <==> Coprime(x, y)
  {
    hide Divides;
    forall d: nat ensures Divides(d, x) && Divides(d, y) <==> Divides(d, FirstOperand(x, y)) && Divides(d, SecondOperand(x, y)) {
      DividesOther(d, x, y);
      DividesOther(d, y, x);
    }
  }

  lemma DividesOther(d: nat, x: nat, y: nat)
    ensures Divides(d, x) ==> (Divides(d, y) <==> Divides(d, x + y))
  {
    hide Divides;
    if Divides(d, x) && Divides(d, y) { DividesSum(d, x, y); }
    if Divides(d, x) && Divides(d, x + y) { DividesDifference(d, x + y, x); }
  }

  /** For operands that leave room in the words, the equation is solvable exactly if they are coprime. */
  lemma SolvableIffCoprime(x: nat, y: nat, len: nat, u: int, v: int, m: nat)
    requires 1 <= len && x <= m && y <= m && 36867 * m < Base(len) && m < 0x1000_0000_0000_0000
    requires Adjusted(x, y, len) ==> GcdGives(FirstOperand(x, y), SecondOperand(x, y), u, v)
    ensures Solvable(x, y, len, u, v) <==> Coprime(x, y)
  {
    hide Base, GcdIsOne, Coprime, Divides;
    var X, Y := FirstOperand(x, y), SecondOperand(x, y);
    AdjustedCoprime(x, y);
    OddOperands(x, y, len);
    if x % 2 == 0 && y % 2 == 0 {
      EvenNotCoprime(x, y);
    } else {
      OneWordBase(len);
      RoundsDecide(X, Y, len);
      if GcdIsOne(X, Y, len) { SolvedBelow(x, y, u, v, m); }
    }
  }

  lemma SolvedBelow(x: nat, y: nat, u: int, v: int, m: nat)
    requires x <= m && y <= m && 0 <= u < SecondOperand(x, y) && 0 <= v < FirstOperand(x, y)
    ensures u + y <= 3 * m && v + x <= 3 * m && SolvedG(x, y, u, v) <= 3 * m && SolvedF(x, y, u, v) <= 3 * m
  {}

  lemma EvenNotCoprime(x: nat, y: nat)
    requires x % 2 == 0 && y % 2 == 0
    ensures !Coprime(x, y)
  {
    assert Divides(2, x) && Divides(2, y);
  }

  lemma OneWordBase(len: nat)
    ensures len == 1 ==> Base(len) == 0x8000_0000
  {
    assert Base(1) == 0x8000_0000 * Base(0);
  }

  /**
   The deepest level from f and g themselves: whenever all field norms fit their words, success means
   Res(f) * G - Res(g) * F = q exactly, if the second operand of the GCD is more than 1. At small degrees
   they always fit.
   */
  method SolveNtruDeepest(f: seq<I8>, g: seq<I8>, primes: seq<SmallPrime>, logn: nat) returns (ok: bool, Gp: array<U32>, Fp: array<U32>)
    requires 1 <= logn <= 10 && |f| == |g| == Pow2(logn) && PrimeList(primes)
    ensures ok ==> Limbs(Gp[..]) && Limbs(Fp[..])
    ensures Small(f, logn) && Small(g, logn) ==> WellSized(f, primes, logn) && WellSized(g, primes, logn)
    ensures WellSized(f, primes, logn) && WellSized(g, primes, logn) ==>
      var x, y := Resultant(f, logn), Resultant(g, logn);
      && (x % 2 == 0 && y % 2 == 0 ==> !ok)
      && (ok ==> (x * Num(Gp[..]) - y * Num(Fp[..]) == 12289 <==> SecondOperand(x, y) > 1))
    ensures logn <= 2 ==> Resultant(f, logn) >= 0 && Resultant(g, logn) >= 0 && (ok <==> Coprime(Resultant(f, logn), Resultant(g, logn)))
  {
    hide *;
    SmallBounded(f);
    SmallBounded(g);
    if Small(f, logn) && Small(g, logn) {
      SmallIsWellSized(f, primes, logn);
      SmallIsWellSized(g, primes, logn);
    }
    var fp, gp := RebuildResultants(f, g, primes, logn);
    Gp, Fp := new U32[fp.Length], new U32[fp.Length];
    SomeWords(logn);
    ghost var u, v;
    ok, u, v := SolveDeepest(Gp, Fp, fp, gp);
    if logn <= 2 {
      SmallMeans(f, g, logn);
      ghost var m: nat := if logn == 1 then 0x8000 else 0x2_0000_0000;
      ResultantSmall(f, logn);
      ResultantSmall(g, logn);
      SmallRoom(logn, fp.Length, m);
      SolvableIffCoprime(Resultant(f, logn), Resultant(g, logn), fp.Length, u, v, m);
    }
  }

  lemma SmallMeans(f: Poly, g: Poly, logn: nat)
    requires logn <= 2
    ensures Small(f, logn) && Small(g, logn)
  {}

  lemma SmallRoom(logn: nat, len: nat, m: nat)
    requires 1 <= logn <= 2 && len == MaxBl(logn) && m == if logn == 1 then 0x8000 else 0x2_0000_0000
    ensures len >= 1 && 36867 * m < Base(len) && m < 0x1000_0000_0000_0000
  {
    assert Base(2) == 0x8000_0000 * Base(1) && Base(1) == 0x8000_0000 * Base(0);
  }

  /** Multiplication by the target value; fails when the product does not fit. */
  method TimesQ(a: array<U32>) returns (ok: bool)
    requires Limbs(a[..])
    modifies a
    ensures ok <==> 12289 * Num(old(a[..])) < Base(a.Length)
    ensures ok ==> Limbs(a[..]) && Num(a[..]) == 12289 * Num(old(a[..]))
  {
    hide *;
    ghost var n := Num(a[..]);
    assert a[..a.Length] == a[..];
    var cc := ZintMulSmall(a, a.Length, 12289);
    assert a[..a.Length] == a[..];
    ZeroPlace(a.Length);
    CarryMeans(12289 * n, a[..], cc);
    ok := cc == 0;
  }

  lemma TimesTarget(x: int, y: int, u: int, v: int)
    ensures x * (12289 * u) - y * (12289 * v) == 12289 <==> x * u - y * v == 1
  {
    MulAssoc(12289, x, u);
    MulAssoc(12289, y, v);
    assert x * (12289 * u) == 12289 * (x * u) && y * (12289 * v) == 12289 * (y * v);
  }
}
