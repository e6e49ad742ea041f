/** The acceptance bound on the squared norm, as in crypto/common.c: 32-bit sums with saturation. */
module Norms {
  import opened Words
  import opened Residues

  /** Inclusive bound on the squared norm of a signature, by the logarithm of the degree. */
  function L2Bound(logn: nat): nat
    requires 1 <= logn <= 10
  {
    [0, 101498, 208714, 428865, 892039, 1852696, 3842630, 7959734, 16468416, 34034726, 70265242][logn]
  }

  /** The exact squared norm. */
  function SquaredNorm(a: seq<int>): (r: nat)
  {
    if |a| == 0 then 0
    else
      SquareNonnegative(a[|a| - 1]);
      SquaredNorm(a[..|a| - 1]) + a[|a| - 1] * a[|a| - 1]
  }

  lemma SquareNonnegative(x: int)
    ensures x * x >= 0
  {}

  lemma SquareBound(x: int)
    requires -0x8000 <= x <= 0x8000
    ensures 0 <= x * x <= 0x4000_0000
  {
    var y: nat := if x >= 0 then x else -x;
    assert x * x == y * y;
    MulLe(y, y, 0x8000);
    MulLe(0x8000, y, 0x8000);
  }

  lemma SquaredNormStep(a: seq<int>, u: nat)
    requires u < |a|
    ensures SquaredNorm(a[..u + 1]) == SquaredNorm(a[..u]) + a[u] * a[u]
  {
    assert a[..u + 1][..u] == a[..u];
  }

  /** s represents the exact sum total: equal to it below 2^31, otherwise at least 2^31. */
  ghost predicate Saturates(s: U32, total: nat) {
    if total < 0x8000_0000 then s == total else s >= 0x8000_0000
  }

  /** The running word and overflow flag: the word is exact until the flag is set. */
  ghost predicate RunningSum(s: U32, ng: bool, total: nat) {
    if ng then total >= 0x8000_0000 else s == total && total < 0x8000_0000
  }

  /** One addition of a square cannot skip over bit 31. */
  lemma AddSquare(s: U32, ng: bool, total: nat, z: int)
    requires -0x8000 <= z <= 0x8000 && RunningSum(s, ng, total)
    ensures z * z >= 0
    ensures var s' := Wrap32(s + z * z); RunningSum(s', ng || s' >= 0x8000_0000, total + z * z)
  {
    SquareBound(z);
  }

  /** The sum with every bit set if the flag is raised. */
  function Saturated(s: U32, ng: bool): U32 {
    if ng then 0xFFFF_FFFF else s
  }

  /**
   Decides the bound for a vector in two halves. The flag ng stands for bit 31 of the
   disjunction of all partial sums.
   */
  method IsShort(s1: seq<I16>, s2: seq<I16>, logn: nat) returns (short: bool)
    requires 1 <= logn <= 10 && |s1| == |s2| == Pow2(logn)
    ensures short <==> SquaredNorm(s1) + SquaredNorm(s2) <= L2Bound(logn)
  {
    var n := Pow2(logn);
    var s: U32, ng := 0, false;
    var u := 0;
    while u < n
      invariant u <= n
      invariant RunningSum(s, ng, SquaredNorm(s1[..u]) + SquaredNorm(s2[..u]))
    {
      SquaredNormStep(s1, u);
      SquaredNormStep(s2, u);
      var z: int := s1[u];
      AddSquare(s, ng, SquaredNorm(s1[..u]) + SquaredNorm(s2[..u]), z);
      s := Wrap32(s + z * z);
      ng := ng || s >= 0x8000_0000;
      z := s2[u];
      AddSquare(s, ng, SquaredNorm(s1[..u + 1]) + SquaredNorm(s2[..u]), z);
      s := Wrap32(s + z * z);
      ng := ng || s >= 0x8000_0000;
      u := u + 1;
    }
    assert s1[..u] == s1 && s2[..u] == s2;
    s := Saturated(s, ng);
    short := s <= L2Bound(logn);
  }

  /** Decides the bound from the saturated norm of the first half and the second half. */
  method IsShortHalf(sqn: U32, s2: seq<I16>, logn: nat, ghost total: nat) returns (short: bool)
    requires 1 <= logn <= 10 && |s2| == Pow2(logn) && Saturates(sqn, total)
    ensures short <==> total + SquaredNorm(s2) <= L2Bound(logn)
  {
    var n := Pow2(logn);
    var s: U32, ng := sqn, sqn >= 0x8000_0000;
    var u := 0;
    while u < n
      invariant u <= n
      invariant RunningSum(s, ng, total + SquaredNorm(s2[..u]))
    {
      SquaredNormStep(s2, u);
      var z: int := s2[u];
      AddSquare(s, ng, total + SquaredNorm(s2[..u]), z);
      s := Wrap32(s + z * z);
      ng := ng || s >= 0x8000_0000;
      u := u + 1;
    }
    assert s2[..u] == s2;
    s := Saturated(s, ng);
    short := s <= L2Bound(logn);
  }

  /** A coordinate outside -bound..bound makes the vector too long. */
  lemma {:induction false} CoordinateBelowNorm(a: seq<int>, i: nat)
    requires i < |a|
    ensures a[i] * a[i] <= SquaredNorm(a)
    decreases |a|
  {
    var last := |a| - 1;
    SquareNonnegative(a[last]);
    if i < last { CoordinateBelowNorm(a[..last], i); }
  }

  lemma {:induction false} NormMonotone(a: seq<int>, b: seq<int>)
    requires |a| == |b|
    requires forall i :: 0 <= i < |a| ==> a[i] * a[i] <= b[i] * b[i]
    ensures SquaredNorm(a) <= SquaredNorm(b)
    decreases |a|
  {
    if |a| > 0 {
      var last := |a| - 1;
      assert forall i :: 0 <= i < last ==> a[..last][i] == a[i] && b[..last][i] == b[i];
      NormMonotone(a[..last], b[..last]);
    }
  }
}
