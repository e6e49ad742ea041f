/** Every stride-th word of an array, as crypto/keygen.c walks over coefficients that are interleaved. */
module StridedWords {
  import opened Words
  import opened Residues

  /** The words base, base + stride, base + 2 * stride, ... of an array: n of them. */
  datatype View = View(base: nat, stride: nat, n: nat) {
    predicate Fits(len: nat) { stride > 0 && (n > 0 ==> At(n - 1) < len) }

    function At(j: nat): nat { base + j * stride }

    /** Position i belongs to the view. */
    predicate Selects(i: nat)
      requires stride > 0
    {
      i >= base && (i - base) % stride == 0 && (i - base) / stride < n
    }

    /** The selected words, in order. */
    ghost function Pick(s: seq<U32>): (r: seq<U32>)
      requires Fits(|s|)
      ensures |r| == n
    {
      seq(n, j requires 0 <= j < n => AtFits(this, j, |s|); s[At(j)])
    }

    /** All other words are the same. */
    ghost predicate Elsewhere(s: seq<U32>, s': seq<U32>)
      requires stride > 0
    {
      |s| == |s'| && forall i :: 0 <= i < |s| && !Selects(i) ==> s'[i] == s[i]
    }
  }

  lemma AtFits(w: View, j: nat, len: nat)
    requires w.Fits(len) && j < w.n
    ensures w.At(j) < len && w.Selects(w.At(j))
  {
    MulOrder(j, w.n - 1, w.stride);
    RemainderUnique(j * w.stride, j, 0, w.stride);
  }

  /** Different indexes select different words. */
  lemma AtInjective(w: View, i: nat, j: nat)
    requires w.stride > 0 && w.At(i) == w.At(j)
    ensures i == j
  {
    RemainderUnique(i * w.stride, i, 0, w.stride);
    RemainderUnique(j * w.stride, j, 0, w.stride);
  }

  lemma PickAt(w: View, s: seq<U32>, j: nat)
    requires w.Fits(|s|) && j < w.n
    ensures w.At(j) < |s| && w.Pick(s)[j] == s[w.At(j)]
  {
    AtFits(w, j, |s|);
  }

  /** Storing at a selected position changes one word of the view and nothing elsewhere. */
  lemma StoreAt(w: View, s: seq<U32>, j: nat, x: U32)
    requires w.Fits(|s|) && j < w.n
    ensures w.At(j) < |s| && w.Pick(s[w.At(j) := x]) == w.Pick(s)[j := x] && w.Elsewhere(s, s[w.At(j) := x])
  {
    AtFits(w, j, |s|);
    var t := s[w.At(j) := x];
    forall i | 0 <= i < w.n ensures w.Pick(t)[i] == w.Pick(s)[j := x][i] {
      AtFits(w, i, |s|);
      if w.At(i) == w.At(j) { AtInjective(w, i, j); }
    }
  }

  lemma ElsewhereStays(w: View, s: seq<U32>, t: seq<U32>, u: seq<U32>)
    requires w.stride > 0 && w.Elsewhere(s, t) && w.Elsewhere(t, u)
    ensures w.Elsewhere(s, u)
  {}

  lemma ElsewhereSame(w: View, s: seq<U32>)
    requires w.stride > 0
    ensures w.Elsewhere(s, s)
  {}

  /** The whole of a sequence, with stride 1. */
  lemma WholeView(s: seq<U32>)
    ensures var w := View(0, 1, |s|); w.Fits(|s|) && w.Pick(s) == s
  {
    var w := View(0, 1, |s|);
    forall j | 0 <= j < |s| ensures w.Pick(s)[j] == s[j] { PickAt(w, s, j); }
  }

  lemma ViewFits(w: View, len: nat)
    requires w.Fits(len)
    ensures w.stride > 0
  {}
}
