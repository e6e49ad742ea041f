/** Big integers as little-endian sequences of 31-bit words, as in crypto/keygen.c. */
module BigNum {
  import opened Residues

  /** (2^31)^k. */
  function Base(k: nat): (r: nat)
    ensures r >= 1
  {
    if k == 0 then 1 else 0x8000_0000 * Base(k - 1)
  }

  /** The contribution of the word w at place k. */
  function Place(w: int, k: nat): int { w * Base(k) }

  /** The value of a word sequence. */
  function Num(s: seq<int>): int {
    if |s| == 0 then 0 else Num(s[..|s| - 1]) + Place(s[|s| - 1], |s| - 1)
  }

  /** Every word fits 31 bits. */
  ghost predicate Limbs(s: seq<int>) {
    forall i :: 0 <= i < |s| ==> 0 <= s[i] < 0x8000_0000
  }

  /** The value of a word sequence in two's complement. */
  function SignedNum(s: seq<int>): int {
    if 2 * Num(s) >= Base(|s|) then Num(s) - Base(|s|) else Num(s)
  }

  lemma PlaceAdd(x: int, y: int, k: nat)
    ensures Place(x + y, k) == Place(x, k) + Place(y, k)
    ensures Place(x - y, k) == Place(x, k) - Place(y, k)
  {
    MulAdd(Base(k), x, y);
  }

  lemma PlaceMul(x: int, y: int, k: nat)
    ensures Place(x * y, k) == x * Place(y, k)
  {
    MulAssoc(x, y, Base(k));
  }

  /** 2^31 at place k is 1 at place k + 1. */
  lemma PlaceUp(c: int, k: nat)
    ensures Place(0x8000_0000 * c, k) == Place(c, k + 1)
    ensures 0x8000_0000 * Place(c, k) == Place(c, k + 1)
  {
    MulAssoc(c, 0x8000_0000, Base(k));
  }

  lemma PlaceUnit(c: int, k: nat)
    ensures Place(0, k) == 0 && Place(1, k) == Base(k) && Place(-1, k) + Base(k) == 0 && Place(c, 0) == c
    ensures Base(0) == 1 && Base(k + 1) == 0x8000_0000 * Base(k)
  {}

  lemma NumStep(s: seq<int>, u: nat)
    requires u < |s|
    ensures Num(s[..u + 1]) == Num(s[..u]) + Place(s[u], u)
  {
    assert s[..u + 1][..u] == s[..u];
  }

  lemma ScaledNext(a: seq<int>, x: int, u: nat)
    requires u < |a|
    ensures x * Num(a[..u + 1]) == x * Num(a[..u]) + Place(a[u] * x, u)
  {
    hide *;
    NumStep(a, u);
    PlaceMul(x, a[u], u);
    MulAdd(x, Num(a[..u]), Place(a[u], u));
    assert a[u] * x == x * a[u];
  }

  lemma NumEmpty(s: seq<int>)
    ensures Num(s[..0]) == 0 && Num([]) == 0
  {}

  lemma NumAll(s: seq<int>)
    ensures s[..|s|] == s
  {}

  lemma NumAppend(s: seq<int>, w: int)
    ensures Num(s + [w]) == Num(s) + Place(w, |s|)
  {
    assert (s + [w])[..|s|] == s;
  }

  lemma {:induction false} NumBound(s: seq<int>)
    requires Limbs(s)
    ensures 0 <= Num(s) < Base(|s|)
  {
    if |s| > 0 {
      var u := |s| - 1;
      NumBound(s[..u]);
      TopWordBound(Num(s[..u]), s[u], Base(u));
    }
  }

  lemma TopWordBound(n: int, w: nat, b: nat)
    requires 0 <= n < b && w < 0x8000_0000
    ensures 0 <= n + w * b < 0x8000_0000 * b
  {
    MulLe(b, w, 0x7FFF_FFFF);
  }

  /** The lowest word apart. */
  lemma {:induction false} NumCons(s: seq<int>)
    requires |s| > 0
    ensures Num(s) == s[0] + 0x8000_0000 * Num(s[1..])
  {
    hide Place, Base;
    var u := |s| - 1;
    if u == 0 {
      assert s[..0] == [] && s[1..] == [];
      PlaceUnit(s[0], 0);
    } else {
      NumCons(s[..u]);
      assert s[..u][1..] == s[1..][..u - 1] && s[1..][u - 1] == s[u];
      PlaceUp(s[u], u - 1);
    }
  }

  /** Words written so far and a pending carry stand for the value total. */
  ghost predicate Built(out: seq<int>, carry: int, total: int) {
    Limbs(out) && Num(out) + Place(carry, |out|) == total
  }

  lemma BuildStart(carry: int)
    ensures Built([], carry, carry)
  {
    PlaceUnit(carry, 0);
  }

  /** The next place receives x: its low 31 bits are written, the rest is carried. */
  lemma BuildStep(out: seq<int>, carry: int, total: int, x: int, low: int, carry': int)
    requires Built(out, carry, total) && 0 <= low < 0x8000_0000 && low + 0x8000_0000 * carry' == x + carry
    ensures Built(out + [low], carry', total + Place(x, |out|))
  {
    hide Num, Place, Base;
    NumAppend(out, low);
    PlaceAdd(low, 0x8000_0000 * carry', |out|);
    PlaceAdd(x, carry, |out|);
    PlaceUp(carry', |out|);
    assert Limbs(out + [low]);
  }

  lemma BuiltMeaning(out: seq<int>, carry: int, total: int)
    requires Built(out, carry, total)
    ensures Limbs(out) && Num(out) + Place(carry, |out|) == total
    ensures 0 <= Num(out) < Base(|out|)
  {
    NumBound(out);
  }

  lemma LimbAt(s: seq<int>, u: nat)
    requires Limbs(s) && u < |s|
    ensures 0 <= s[u] < 0x8000_0000
  {}

  lemma ParityOfWords(x: seq<int>)
    requires |x| >= 1 && Limbs(x)
    ensures Num(x) % 2 == x[0] % 2
  {
    hide *;
    NumCons(x);
    LowParity(Num(x), x[0], Num(x[1..]));
  }

  lemma LowParity(n: int, w: int, t: int)
    requires n == w + 0x8000_0000 * t
    ensures n % 2 == w % 2
  {
    RemainderUnique(n, w / 2 + 0x4000_0000 * t, w % 2, 2);
  }
}
