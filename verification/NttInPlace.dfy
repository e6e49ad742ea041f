/**
 One block of an in-place transform, for loops that keep every word reduced: the residues
 after each butterfly, and how a finished block carries a pass one block further.
 */
module NttInPlace {
  import opened Words
  import opened Polynomials
  import opened NttTree
  import opened NttStages

  /** Entry x after the butterflies j1..j-1 of a block of length 2 * ht. */
  function FoldedWord(a: Poly, j1: nat, ht: nat, j: nat, s: int, q: int, x: nat): int
    requires q > 0 && j1 <= j <= j1 + ht && j1 + 2 * ht <= |a| && x < |a|
  {
    if j1 <= x < j then (a[x] + s * a[x + ht]) % q
    else if j1 + ht <= x < j + ht then (a[x - ht] - s * a[x]) % q
    else a[x]
  }

  /** Entry x after the inverse butterflies j1..j-1 of a block of length 2 * ht. */
  function UnfoldedWord(a: Poly, j1: nat, ht: nat, j: nat, s: int, q: int, x: nat): int
    requires q > 0 && j1 <= j <= j1 + ht && j1 + 2 * ht <= |a| && x < |a|
  {
    if j1 <= x < j then (a[x] + a[x + ht]) % q
    else if j1 + ht <= x < j + ht then ((a[x - ht] - a[x]) * s) % q
    else a[x]
  }

  ghost predicate Folded(a: Poly, b: Poly, j1: nat, ht: nat, s: int, q: int) {
    && q > 0 && |a| == |b| && j1 + 2 * ht <= |a|
    && forall x :: 0 <= x < |a| ==> b[x] == FoldedWord(a, j1, ht, j1 + ht, s, q, x)
  }

  ghost predicate Unfolded(a: Poly, b: Poly, j1: nat, ht: nat, s: int, q: int) {
    && q > 0 && |a| == |b| && j1 + 2 * ht <= |a|
    && forall x :: 0 <= x < |a| ==> b[x] == UnfoldedWord(a, j1, ht, j1 + ht, s, q, x)
  }

  lemma CutInFour(b: Poly, j: nat, h: nat)
    requires j + 2 * h <= |b|
    ensures b == b[..j] + (b[j..j + h] + b[j + h..j + 2 * h]) + b[j + 2 * h..]
  {}

  lemma FoldedIsButterfly(a: Poly, b: Poly, j1: nat, ht: nat, s: int, q: int)
    requires Folded(a, b, j1, ht, s, q)
    ensures b == a[..j1] + Butterfly(a[j1..j1 + ht], a[j1 + ht..j1 + 2 * ht], s, q) + a[j1 + 2 * ht..]
  {
    hide Fold, FoldedWord;
    var lo, hi := a[j1..j1 + ht], a[j1 + ht..j1 + 2 * ht];
    var u, v := b[j1..j1 + ht], b[j1 + ht..j1 + 2 * ht];
    forall i | 0 <= i < ht ensures u[i] == Fold(lo, hi, s, q)[i] && v[i] == Fold(lo, hi, -s, q)[i] {
      assert lo[i] == a[j1 + i] && hi[i] == a[j1 + ht + i] && u[i] == b[j1 + i] && v[i] == b[j1 + ht + i];
      FoldedPair(a, j1, ht, s, q, i);
      FoldEntries(lo, hi, s, q, i);
    }
    assert u == Fold(lo, hi, s, q) && v == Fold(lo, hi, -s, q);
    CutInFour(b, j1, ht);
    OutsideBlock(a, b, j1, ht, s, q);
  }

  lemma OutsideBlock(a: Poly, b: Poly, j1: nat, ht: nat, s: int, q: int)
    requires Folded(a, b, j1, ht, s, q) || Unfolded(a, b, j1, ht, s, q)
    ensures b[..j1] == a[..j1] && b[j1 + 2 * ht..] == a[j1 + 2 * ht..]
  {}

  lemma FoldEntries(lo: Poly, hi: Poly, s: int, q: int, i: nat)
    requires |lo| == |hi| && q > 0 && i < |lo|
    ensures Fold(lo, hi, s, q)[i] == (lo[i] + s * hi[i]) % q && Fold(lo, hi, -s, q)[i] == (lo[i] - s * hi[i]) % q
  {
    hide *;
    FoldIndex(lo, hi, s, q, i);
    var c := -s;
    FoldIndex(lo, hi, c, q, i);
    var x, y := lo[i], hi[i];
    NegateFactor(x, s, y);
    assert x + c * y == x - s * y;
  }

  lemma NegateFactor(x: int, s: int, y: int)
    ensures x + -s * y == x - s * y
  {}

  lemma FoldedPair(a: Poly, j1: nat, ht: nat, s: int, q: int, i: nat)
    requires q > 0 && j1 + 2 * ht <= |a| && i < ht
    ensures FoldedWord(a, j1, ht, j1 + ht, s, q, j1 + i) == (a[j1 + i] + s * a[j1 + ht + i]) % q
    ensures FoldedWord(a, j1, ht, j1 + ht, s, q, j1 + ht + i) == (a[j1 + i] - s * a[j1 + ht + i]) % q
    ensures UnfoldedWord(a, j1, ht, j1 + ht, s, q, j1 + i) == (a[j1 + i] + a[j1 + ht + i]) % q
    ensures UnfoldedWord(a, j1, ht, j1 + ht, s, q, j1 + ht + i) == ((a[j1 + i] - a[j1 + ht + i]) * s) % q
  {}

  lemma UnfoldedIsUnbutterfly(a: Poly, b: Poly, j1: nat, ht: nat, s: int, q: int)
    requires Unfolded(a, b, j1, ht, s, q)
    ensures b == a[..j1] + Unbutterfly(a[j1..j1 + ht], a[j1 + ht..j1 + 2 * ht], s, q) + a[j1 + 2 * ht..]
  {
    hide Fold, Unfold, UnfoldedWord;
    var lo, hi := a[j1..j1 + ht], a[j1 + ht..j1 + 2 * ht];
    var u, v := b[j1..j1 + ht], b[j1 + ht..j1 + 2 * ht];
    forall i | 0 <= i < ht ensures u[i] == Fold(lo, hi, 1, q)[i] && v[i] == Unfold(lo, hi, s, q)[i] {
      FoldIndex(lo, hi, 1, q, i);
      FoldIndex(lo, hi, s, q, i);
      FoldedPair(a, j1, ht, s, q, i);
    }
    assert u == Fold(lo, hi, 1, q) && v == Unfold(lo, hi, s, q);
    CutInFour(b, j1, ht);
    OutsideBlock(a, b, j1, ht, s, q);
  }

  lemma FoldOnPieces(a: Poly, b: Poly, done: Poly, lo: Poly, hi: Poly, rest: Poly, j1: nat, ht: nat, s: int, q: int)
    requires |lo| == |hi| == ht && j1 == |done| && a == done + ((lo + hi) + rest) && q > 0
    ensures Folded(a, b, j1, ht, s, q) ==> b == done + Butterfly(lo, hi, s, q) + rest
    ensures Unfolded(a, b, j1, ht, s, q) ==> b == done + Unbutterfly(lo, hi, s, q) + rest
  {
    hide Folded, Unfolded, Butterfly, Unbutterfly;
    Pieces(done, lo, hi, rest);
    if Folded(a, b, j1, ht, s, q) { FoldedIsButterfly(a, b, j1, ht, s, q); }
    if Unfolded(a, b, j1, ht, s, q) { UnfoldedIsUnbutterfly(a, b, j1, ht, s, q); }
  }

  /** A block of butterflies carries a forward pass one block further. */
  lemma FoldedCarriesPass(t: Tables, a0: Poly, a: Poly, b: Poly, j1: nat, ht: nat, k: nat, m: nat, i: nat,
                         past: Poly, lo: Poly, hi: Poly, rest: Poly)
    requires k > 0 && |lo| == |hi| == ht == Pow2(k - 1) && j1 == |past|
    requires Passing(t, a0, a, k, m, i, past, (lo + hi) + rest)
    requires Folded(a, b, j1, ht, t.S(m + i), t.q)
    ensures Span(k, i + 1) == Span(k, i) + 2 * Pow2(k - 1)
    ensures Passing(t, a0, b, k, m, i + 1, past + (lo + hi), rest)
  {
    hide *;
    PassingMeaning(t, a0, a, k, m, i, past, (lo + hi) + rest);
    FoldOnPieces(a, b, Stage(t, past, k, m, i), lo, hi, rest, j1, ht, t.S(m + i), t.q);
    BlockStep(t, a0, a, b, k, m, i, past, lo, hi, rest);
  }

  /** A block of inverse butterflies carries an inverse pass one block further. */
  lemma UnfoldedCarriesPass(t: Tables, a0: Poly, a: Poly, b: Poly, j1: nat, ht: nat, k: nat, m: nat, i: nat,
                             past: Poly, lo: Poly, hi: Poly, rest: Poly)
    requires k > 0 && |lo| == |hi| == ht == Pow2(k - 1) && j1 == |past|
    requires PassingBack(t, a0, a, k, m, i, past, (lo + hi) + rest)
    requires Unfolded(a, b, j1, ht, t.InvS(m + i), t.q)
    ensures Span(k, i + 1) == Span(k, i) + 2 * Pow2(k - 1)
    ensures PassingBack(t, a0, b, k, m, i + 1, past + (lo + hi), rest)
  {
    hide *;
    PassingMeaning(t, a0, a, k, m, i, past, (lo + hi) + rest);
    FoldOnPieces(a, b, InverseStage(t, past, k, m, i), lo, hi, rest, j1, ht, t.InvS(m + i), t.q);
    PassBackStep(t, a0, a, b, k, m, i, past, lo, hi, rest);
  }
}
