/**
 The iterative in-place loops compute the recursive transform. One pass of the forward
 loop applies a butterfly to each of the m blocks of the array; the passes together are
 the recursion of NttTree, read level by level.
 */
module NttStages {
  import opened Words
  import opened Polynomials
  import opened NttTree

  /** The length of cnt blocks of length 2^k. */
  function Span(k: nat, cnt: nat): (r: nat)
    decreases cnt
  {
    if cnt == 0 then 0 else Span(k, cnt - 1) + Pow2(k)
  }

  lemma {:induction false} SpanValue(k: nat, cnt: nat)
    ensures Span(k, cnt) == cnt * Pow2(k)
    decreases cnt
  {
    if cnt > 0 { SpanValue(k, cnt - 1); }
  }

  lemma SpanEmpty(k: nat)
    ensures Span(k, 0) == 0
  {}

  /** The next block still lies inside the array. */
  lemma SpanStep(k: nat, i: nat, m: nat)
    requires i < m && k > 0
    ensures Span(k, i + 1) == Span(k, i) + Pow2(k) <= Span(k, m) && Pow2(k) == 2 * Pow2(k - 1)
  {
    SpanMonotone(k, i + 1, m);
  }

  lemma {:induction false} SpanMonotone(k: nat, i: nat, m: nat)
    requires i <= m
    ensures Span(k, i) <= Span(k, m)
    decreases m
  {
    if i < m { SpanMonotone(k, i, m - 1); }
  }

  lemma {:induction false} SpanHalves(k: nat, cnt: nat)
    requires k > 0
    ensures Span(k - 1, 2 * cnt) == Span(k, cnt)
    decreases cnt
  {
    if cnt > 0 {
      SpanHalves(k, cnt - 1);
      assert Span(k - 1, 2 * cnt) == Span(k - 1, 2 * cnt - 1) + Pow2(k - 1);
      assert Span(k - 1, 2 * cnt - 1) == Span(k - 1, 2 * cnt - 2) + Pow2(k - 1);
    }
  }

  /** The transforms of the cnt blocks of length 2^k, the last one at node first + cnt - 1. */
  function NttBlocks(t: Tables, a: Poly, k: nat, first: nat, cnt: nat): (r: Poly)
    requires t.q > 0 && |a| == Span(k, cnt)
    ensures |r| == |a|
    decreases cnt
  {
    if cnt == 0 then []
    else
      var cut := Span(k, cnt - 1);
      NttBlocks(t, a[..cut], k, first, cnt - 1) + Ntt(t, a[cut..], k, first + cnt - 1)
  }

  function InttBlocks(t: Tables, a: Poly, k: nat, first: nat, cnt: nat): (r: Poly)
    requires t.q > 0 && |a| == Span(k, cnt)
    ensures |r| == |a|
    decreases cnt
  {
    if cnt == 0 then []
    else
      var cut := Span(k, cnt - 1);
      InttBlocks(t, a[..cut], k, first, cnt - 1) + Intt(t, a[cut..], k, first + cnt - 1)
  }

  /** One pass of the forward loop over cnt blocks. */
  function Stage(t: Tables, a: Poly, k: nat, first: nat, cnt: nat): (r: Poly)
    requires t.q > 0 && k > 0 && |a| == Span(k, cnt)
    ensures |r| == |a|
    decreases cnt
  {
    if cnt == 0 then []
    else
      var cut := Span(k, cnt - 1);
      Stage(t, a[..cut], k, first, cnt - 1) + Butterfly(a[cut..][..Pow2(k - 1)], a[cut..][Pow2(k - 1)..], t.S(first + cnt - 1), t.q)
  }

  /** One pass of the inverse loop over cnt blocks. */
  function InverseStage(t: Tables, a: Poly, k: nat, first: nat, cnt: nat): (r: Poly)
    requires t.q > 0 && k > 0 && |a| == Span(k, cnt)
    ensures |r| == |a|
    decreases cnt
  {
    if cnt == 0 then []
    else
      var cut := Span(k, cnt - 1);
      InverseStage(t, a[..cut], k, first, cnt - 1) + Unbutterfly(a[cut..][..Pow2(k - 1)], a[cut..][Pow2(k - 1)..], t.InvS(first + cnt - 1), t.q)
  }

  lemma AppendBlock(t: Tables, x: Poly, y: Poly, k: nat, first: nat, cnt: nat)
    requires t.q > 0 && |x| == Span(k, cnt) && |y| == Pow2(k)
    ensures NttBlocks(t, x + y, k, first, cnt + 1) == NttBlocks(t, x, k, first, cnt) + Ntt(t, y, k, first + cnt)
    ensures InttBlocks(t, x + y, k, first, cnt + 1) == InttBlocks(t, x, k, first, cnt) + Intt(t, y, k, first + cnt)
  {
    assert (x + y)[..|x|] == x && (x + y)[|x|..] == y;
  }

  lemma AppendStage(t: Tables, x: Poly, lo: Poly, hi: Poly, k: nat, first: nat, cnt: nat)
    requires t.q > 0 && k > 0 && |x| == Span(k, cnt) && |lo| == |hi| == Pow2(k - 1)
    ensures Stage(t, x + (lo + hi), k, first, cnt + 1) == Stage(t, x, k, first, cnt) + Butterfly(lo, hi, t.S(first + cnt), t.q)
    ensures InverseStage(t, x + (lo + hi), k, first, cnt + 1)
         == InverseStage(t, x, k, first, cnt) + Unbutterfly(lo, hi, t.InvS(first + cnt), t.q)
  {
    hide Butterfly, Unbutterfly;
    var a := x + (lo + hi);
    assert a[..|x|] == x && a[|x|..] == lo + hi;
    assert (lo + hi)[..|lo|] == lo && (lo + hi)[|lo|..] == hi;
  }

  lemma AppendAssoc(x: Poly, y: Poly, z: Poly)
    ensures (x + y) + z == x + (y + z)
  {}

  lemma AppendPair(t: Tables, x: Poly, y: Poly, z: Poly, k: nat, first: nat, cnt: nat)
    requires t.q > 0 && |x| == Span(k, cnt) && |y| == |z| == Pow2(k)
    ensures NttBlocks(t, x + (y + z), k, first, cnt + 2)
         == NttBlocks(t, x, k, first, cnt) + (Ntt(t, y, k, first + cnt) + Ntt(t, z, k, first + cnt + 1))
    ensures InttBlocks(t, x + (y + z), k, first, cnt + 2)
         == InttBlocks(t, x, k, first, cnt) + (Intt(t, y, k, first + cnt) + Intt(t, z, k, first + cnt + 1))
  {
    assert Span(k, cnt + 1) == |x + y|;
    hide *;
    AppendBlock(t, x, y, k, first, cnt);
    AppendBlock(t, x + y, z, k, first, cnt + 1);
    AppendAssoc(x, y, z);
    AppendAssoc(NttBlocks(t, x, k, first, cnt), Ntt(t, y, k, first + cnt), Ntt(t, z, k, first + cnt + 1));
    AppendAssoc(InttBlocks(t, x, k, first, cnt), Intt(t, y, k, first + cnt), Intt(t, z, k, first + cnt + 1));
  }

  lemma EmptyBlocks(t: Tables, a: Poly, k: nat, first: nat)
    requires t.q > 0 && k > 0 && |a| == Span(k, 0)
    ensures |a| == Span(k - 1, 0) && NttBlocks(t, a, k, first, 0) == NttBlocks(t, a, k - 1, 2 * first, 0) == a
    ensures InttBlocks(t, a, k, first, 0) == InttBlocks(t, a, k - 1, 2 * first, 0) == a
    ensures Stage(t, a, k, first, 0) == InverseStage(t, a, k, first, 0) == a
  {}

  lemma LastBlock(a: Poly, k: nat, cnt: nat) returns (x: Poly, lo: Poly, hi: Poly)
    requires cnt > 0 && k > 0 && |a| == Span(k, cnt)
    ensures a == x + (lo + hi) && |x| == Span(k, cnt - 1) == Span(k - 1, 2 * (cnt - 1))
    ensures |lo| == |hi| == Pow2(k - 1) && |lo + hi| == Pow2(k)
  {
    SpanHalves(k, cnt - 1);
    var y := a[Span(k, cnt - 1)..];
    x, lo, hi := a[..Span(k, cnt - 1)], y[..Pow2(k - 1)], y[Pow2(k - 1)..];
    assert y == lo + hi;
  }

  /** A pass of the forward loop descends one level of the tree in every block. */
  lemma {:induction false} StageRefines(t: Tables, a: Poly, k: nat, first: nat, cnt: nat)
    requires t.q > 0 && k > 0 && |a| == Span(k, cnt)
    ensures Span(k - 1, 2 * cnt) == |a|
    ensures NttBlocks(t, Stage(t, a, k, first, cnt), k - 1, 2 * first, 2 * cnt) == NttBlocks(t, a, k, first, cnt)
    decreases cnt, 0
  {
    hide *;
    SpanHalves(k, cnt);
    if cnt == 0 {
      EmptyBlocks(t, a, k, first);
    } else {
      var x, lo, hi := LastBlock(a, k, cnt);
      StageStep(t, x, lo, hi, k, first, cnt - 1);
    }
  }

  lemma {:induction false} StageStep(t: Tables, x: Poly, lo: Poly, hi: Poly, k: nat, first: nat, cnt: nat)
    requires t.q > 0 && k > 0 && |x| == Span(k, cnt) == Span(k - 1, 2 * cnt) && |lo| == |hi| == Pow2(k - 1)
    requires Span(k - 1, 2 * cnt + 2) == |x + (lo + hi)| == Span(k, cnt + 1) && |lo + hi| == Pow2(k)
    ensures var a := x + (lo + hi);
      NttBlocks(t, Stage(t, a, k, first, cnt + 1), k - 1, 2 * first, 2 * cnt + 2) == NttBlocks(t, a, k, first, cnt + 1)
    decreases cnt, 1
  {
    hide *;
    StageRefines(t, x, k, first, cnt);
    AppendStage(t, x, lo, hi, k, first, cnt);
    var s := t.S(first + cnt);
    ButterflyHalves(lo, hi, s, t.q);
    AppendPair(t, Stage(t, x, k, first, cnt), Fold(lo, hi, s, t.q), Fold(lo, hi, -s, t.q), k - 1, 2 * first, 2 * cnt);
    NttConcat(t, lo, hi, k, first + cnt);
    AppendBlock(t, x, lo + hi, k, first, cnt);
  }

  lemma ButterflyHalves(lo: Poly, hi: Poly, s: int, q: int)
    requires q > 0 && |lo| == |hi|
    ensures Butterfly(lo, hi, s, q) == Fold(lo, hi, s, q) + Fold(lo, hi, -s, q)
  {}

  /** A pass of the inverse loop merges pairs of blocks one level up. */
  lemma {:induction false} InverseStageRefines(t: Tables, a: Poly, k: nat, first: nat, cnt: nat)
    requires t.q > 0 && k > 0 && |a| == Span(k, cnt)
    ensures Span(k - 1, 2 * cnt) == |a|
    ensures InverseStage(t, InttBlocks(t, a, k - 1, 2 * first, 2 * cnt), k, first, cnt) == InttBlocks(t, a, k, first, cnt)
    decreases cnt, 0
  {
    hide *;
    SpanHalves(k, cnt);
    if cnt == 0 {
      EmptyBlocks(t, a, k, first);
    } else {
      var x, lo, hi := LastBlock(a, k, cnt);
      InverseStageStep(t, x, lo, hi, k, first, cnt - 1);
    }
  }

  lemma {:induction false} InverseStageStep(t: Tables, x: Poly, lo: Poly, hi: Poly, k: nat, first: nat, cnt: nat)
    requires t.q > 0 && k > 0 && |x| == Span(k, cnt) == Span(k - 1, 2 * cnt) && |lo| == |hi| == Pow2(k - 1)
    requires Span(k - 1, 2 * cnt + 2) == |x + (lo + hi)| == Span(k, cnt + 1) && |lo + hi| == Pow2(k)
    ensures var a := x + (lo + hi);
      InverseStage(t, InttBlocks(t, a, k - 1, 2 * first, 2 * cnt + 2), k, first, cnt + 1) == InttBlocks(t, a, k, first, cnt + 1)
    decreases cnt, 1
  {
    hide *;
    InverseStageRefines(t, x, k, first, cnt);
    AppendPair(t, x, lo, hi, k - 1, 2 * first, 2 * cnt);
    InttConcat(t, lo, hi, k, first + cnt);
    var u, v := Intt(t, lo, k - 1, 2 * (first + cnt)), Intt(t, hi, k - 1, 2 * (first + cnt) + 1);
    AppendStage(t, InttBlocks(t, x, k - 1, 2 * first, 2 * cnt), u, v, k, first, cnt);
    AppendBlock(t, x, lo + hi, k, first, cnt);
  }

  /** Once the blocks have length one, the array holds the transform. */
  lemma {:induction false} SingletonBlocks(t: Tables, a: Poly, first: nat, cnt: nat)
    requires t.q > 0 && |a| == cnt
    ensures Span(0, cnt) == cnt
    ensures NttBlocks(t, a, 0, first, cnt) == a && InttBlocks(t, a, 0, first, cnt) == a
    decreases cnt
  {
    if cnt > 0 {
      SingletonBlocks(t, a[..cnt - 1], first, cnt - 1);
      assert a[..cnt - 1] + a[cnt - 1..] == a;
    }
  }

  /** A single block is the whole transform. */
  lemma WholeBlock(t: Tables, a: Poly, k: nat, first: nat)
    requires t.q > 0 && |a| == Pow2(k)
    ensures Span(k, 1) == Pow2(k)
    ensures NttBlocks(t, a, k, first, 1) == Ntt(t, a, k, first) && InttBlocks(t, a, k, first, 1) == Intt(t, a, k, first)
  {
    assert Span(k, 1) == Span(k, 0) + Pow2(k);
    AppendBlock(t, [], a, k, first, 0);
    assert [] + a == a;
  }

  /**
   The state of a pass after its first i blocks: the array is done + todo, where done is
   the result of the pass on the blocks past, and todo is untouched.
   */
  ghost predicate Passing(t: Tables, a0: Poly, a: Poly, k: nat, first: nat, i: nat, past: Poly, todo: Poly) {
    && t.q > 0 && k > 0 && |past| == Span(k, i)
    && a0 == past + todo && a == Stage(t, past, k, first, i) + todo
  }

  ghost predicate PassingBack(t: Tables, a0: Poly, a: Poly, k: nat, first: nat, i: nat, past: Poly, todo: Poly) {
    && t.q > 0 && k > 0 && |past| == Span(k, i)
    && a0 == past + todo && a == InverseStage(t, past, k, first, i) + todo
  }

  lemma PassingMeaning(t: Tables, a0: Poly, a: Poly, k: nat, first: nat, i: nat, past: Poly, todo: Poly)
    ensures Passing(t, a0, a, k, first, i, past, todo) ==> t.q > 0 && k > 0 && |past| == Span(k, i) && a == Stage(t, past, k, first, i) + todo
    ensures PassingBack(t, a0, a, k, first, i, past, todo) ==> t.q > 0 && k > 0 && |past| == Span(k, i) && a == InverseStage(t, past, k, first, i) + todo
  {}

  lemma NextBlock(todo: Poly, k: nat) returns (lo: Poly, hi: Poly, rest: Poly)
    requires k > 0 && |todo| >= Pow2(k)
    ensures todo == (lo + hi) + rest && |lo| == |hi| == Pow2(k - 1)
  {
    var h := Pow2(k - 1);
    lo, hi, rest := todo[..h], todo[h..2 * h], todo[2 * h..];
  }

  lemma Pieces(done: Poly, lo: Poly, hi: Poly, rest: Poly)
    requires |lo| == |hi|
    ensures var a, j, h := done + ((lo + hi) + rest), |done|, |lo|;
      a[..j] == done && a[j..j + h] == lo && a[j + h..j + 2 * h] == hi && a[j + 2 * h..] == rest
  {}

  /** Processing the next block moves it from todo to past. */
  lemma BlockStep(t: Tables, a0: Poly, a: Poly, b: Poly, k: nat, first: nat, i: nat, past: Poly, lo: Poly, hi: Poly, rest: Poly)
    requires k > 0 && |lo| == |hi| == Pow2(k - 1)
    requires Passing(t, a0, a, k, first, i, past, (lo + hi) + rest)
    requires b == Stage(t, past, k, first, i) + Butterfly(lo, hi, t.S(first + i), t.q) + rest
    ensures Span(k, i + 1) == Span(k, i) + 2 * Pow2(k - 1)
    ensures Passing(t, a0, b, k, first, i + 1, past + (lo + hi), rest)
  {
    assert Span(k, i + 1) == |past + (lo + hi)|;
    hide Stage, Butterfly;
    AppendStage(t, past, lo, hi, k, first, i);
    AppendAssoc(past, lo + hi, rest);
  }

  lemma PassBackStep(t: Tables, a0: Poly, a: Poly, b: Poly, k: nat, first: nat, i: nat, past: Poly, lo: Poly, hi: Poly, rest: Poly)
    requires k > 0 && |lo| == |hi| == Pow2(k - 1)
    requires PassingBack(t, a0, a, k, first, i, past, (lo + hi) + rest)
    requires b == InverseStage(t, past, k, first, i) + Unbutterfly(lo, hi, t.InvS(first + i), t.q) + rest
    ensures Span(k, i + 1) == Span(k, i) + 2 * Pow2(k - 1)
    ensures PassingBack(t, a0, b, k, first, i + 1, past + (lo + hi), rest)
  {
    assert Span(k, i + 1) == |past + (lo + hi)|;
    hide InverseStage, Unbutterfly;
    AppendStage(t, past, lo, hi, k, first, i);
    AppendAssoc(past, lo + hi, rest);
  }

  /** The counters of the outer loops: m blocks of length len = 2^k fill an array of length 2^logn. */
  ghost predicate Level(k: nat, logn: nat, len: nat, m: nat) {
    k <= logn && len == Pow2(k) && m == Pow2(logn - k) && Span(k, m) == Pow2(logn)
  }

  lemma TopLevel(logn: nat)
    ensures Level(logn, logn, Pow2(logn), 1) && Level(0, logn, 1, Pow2(logn))
  {
    SpanValue(logn, 1);
    SpanValue(0, Pow2(logn));
  }

  lemma LevelShape(k: nat, logn: nat, len: nat, m: nat)
    requires Level(k, logn, len, m)
    ensures k <= logn && len == Pow2(k) && Span(k, m) == Pow2(logn)
    ensures 1 <= m <= Pow2(logn) && 1 <= len <= Pow2(logn)
    ensures m == Pow2(logn) <==> k == 0
    ensures m == 1 <==> k == logn
  {
    Pow2Monotone(k, logn);
    Pow2Monotone(logn - k, logn);
    if k > 0 { Pow2Monotone(logn - k + 1, logn); }
    if k < logn { Pow2Monotone(1, logn - k); }
  }

  lemma LevelDown(k: nat, logn: nat, len: nat, m: nat) returns (k1: nat)
    requires Level(k, logn, len, m) && k > 0
    ensures k1 == k - 1 && Level(k1, logn, len / 2, 2 * m) && len / 2 == Pow2(k1) && 2 * m <= Pow2(logn)
  {
    k1 := k - 1;
    SpanHalves(k, m);
    Pow2Monotone(logn - k + 1, logn);
  }

  lemma LevelUp(k: nat, logn: nat, len: nat, m: nat) returns (k1: nat)
    requires Level(k, logn, len, m) && k < logn
    ensures k1 == k + 1 && k1 - 1 == k && Level(k1, logn, 2 * len, m / 2)
    ensures len == Pow2(k1 - 1) && m == 2 * (m / 2) <= Pow2(logn) && Span(k1, m / 2) == Pow2(logn)
  {
    k1 := k + 1;
    Pow2Monotone(logn - k, logn);
    SpanHalves(k + 1, m / 2);
    Pow2Monotone(k + 1, logn);
  }

  lemma EmptyPass(t: Tables, a0: Poly, k: nat, first: nat)
    requires t.q > 0 && k > 0
    ensures Passing(t, a0, a0, k, first, 0, [], a0) && PassingBack(t, a0, a0, k, first, 0, [], a0)
  {
    assert [] + a0 == a0;
  }

  lemma FullPass(t: Tables, a0: Poly, a: Poly, k: nat, first: nat, i: nat, past: Poly, todo: Poly)
    requires todo == []
    ensures Passing(t, a0, a, k, first, i, past, todo) ==> a0 == past && a == Stage(t, a0, k, first, i)
    ensures PassingBack(t, a0, a, k, first, i, past, todo) ==> a0 == past && a == InverseStage(t, a0, k, first, i)
  {
    assert past + todo == past;
  }
}
