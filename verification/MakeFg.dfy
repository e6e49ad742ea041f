/** Field norms in residues modulo small primes, down to the resultants, as in crypto/keygen.c. */
module MakeFg {
  import opened Words
  import opened Residues
  import opened Polynomials
  import opened NttTree
  import opened Convolution
  import opened Modp
  import opened ModpTransform
  import opened ModpNtt
  import opened BigNum
  import opened Crt
  import opened SignedResidues
  import opened FieldNorm
  import opened NtruCheck

  /** The number of words of the coefficients at each depth. */
  const MAX_BL_SMALL: seq<nat> := [1, 1, 2, 2, 4, 7, 14, 27, 53, 106, 209]

  function MaxBl(d: nat): (r: nat)
    requires d <= 10
    ensures 1 <= r <= 209 && (d > 0 ==> MAX_BL_SMALL[d - 1] <= r)
  {
    MAX_BL_SMALL[d]
  }

  /** Measured sizes of the coefficients at each depth: average bit length and standard deviation. */
  const BIT_LENGTH: seq<(nat, nat)> :=
    [(4, 0), (11, 1), (24, 1), (50, 1), (102, 1), (202, 2), (401, 4), (794, 5), (1577, 8), (3138, 13), (6308, 25)]

  /** The words have room for the measured sizes up to six standard deviations, with the sign. */
  lemma WordsForMeasured(d: nat)
    requires d <= 10
    ensures BIT_LENGTH[d].0 + 6 * BIT_LENGTH[d].1 + 1 <= 31 * MaxBl(d)
  {}

  lemma MaxBlGrows(d: nat)
    requires d < 10
    ensures MaxBl(d) <= MaxBl(d + 1) <= 209 && MaxBl(0) == 1
  {}

  ghost predicate PrimeList(primes: seq<SmallPrime>) {
    && |primes| >= 209 && GoodPrimes(primes)
    && forall i :: 0 <= i < |primes| ==> Generator(primes[i].g, primes[i].p)
  }

  lemma PrimeMeaning(primes: seq<SmallPrime>, u: nat)
    requires PrimeList(primes) && u < |primes|
    ensures GoodPrimes(primes) && Modulus(primes[u].p) && Generator(primes[u].g, primes[u].p) && 0x4000_0000 < primes[u].p
  {
    GoodMeaning(primes, u);
  }

  // ---- Columns of words ----

  /** One array of words per coefficient. */
  ghost predicate Separate(xs: seq<array<U32>>, len: nat) {
    && (forall i, j :: 0 <= i < j < |xs| ==> xs[i] != xs[j])
    && forall i :: 0 <= i < |xs| ==> xs[i].Length == len
  }

  ghost predicate Apart(xs: seq<array<U32>>, ys: seq<array<U32>>) {
    forall i, j :: 0 <= i < |xs| && 0 <= j < |ys| ==> xs[i] != ys[j]
  }

  ghost function Rows(xs: seq<array<U32>>): (r: seq<seq<U32>>)
    reads xs
    ensures |r| == |xs| && forall v :: 0 <= v < |xs| ==> r[v] == xs[v][..]
  {
    seq(|xs|, v requires 0 <= v < |xs| reads xs => xs[v][..])
  }

  /** Word u of every coefficient. */
  ghost function Column(rows: seq<seq<U32>>, u: nat): (c: seq<U32>)
    ensures |c| == |rows|
  {
    seq(|rows|, v requires 0 <= v < |rows| => if u < |rows[v]| then rows[v][u] else 0)
  }

  ghost function WithColumn(rows: seq<seq<U32>>, u: nat, c: seq<U32>): (r: seq<seq<U32>>)
    requires |c| == |rows|
    ensures |r| == |rows|
  {
    seq(|rows|, v requires 0 <= v < |rows| => if u < |rows[v]| then rows[v][u := c[v]] else rows[v])
  }

  lemma ColumnReplaced(rows: seq<seq<U32>>, u: nat, c: seq<U32>)
    requires |c| == |rows| && forall v :: 0 <= v < |rows| ==> u < |rows[v]|
    ensures Column(WithColumn(rows, u, c), u) == c
    ensures forall j: nat :: j != u ==> Column(WithColumn(rows, u, c), j) == Column(rows, j)
  {}

  lemma RowLengths(xs: seq<array<U32>>, len: nat)
    requires Separate(xs, len)
    ensures |Rows(xs)| == |xs| && forall v :: 0 <= v < |xs| ==> |Rows(xs)[v]| == len
  {}

  method Gather(xs: seq<array<U32>>, len: nat, u: nat) returns (t: array<U32>)
    requires Separate(xs, len) && u < len
    ensures fresh(t) && t[..] == Column(Rows(xs), u)
  {
    t := new U32[|xs|];
    var v := 0;
    while v < |xs|
      invariant 0 <= v <= |xs| && forall i :: 0 <= i < v ==> t[i] == xs[i][u]
    {
      t[v] := xs[v][u];
      v := v + 1;
    }
    assert forall i :: 0 <= i < |xs| ==> Column(Rows(xs), u)[i] == xs[i][u];
  }

  /** Replaces word u of every coefficient; the arrays of the ghost argument are left alone. */
  method Scatter(xs: seq<array<U32>>, len: nat, u: nat, c: seq<U32>, ghost others: seq<array<U32>>)
    requires Separate(xs, len) && u < len && |c| == |xs| && (Apart(xs, others) || Apart(others, xs))
    modifies xs
    ensures Rows(xs) == WithColumn(old(Rows(xs)), u, c) && Rows(others) == old(Rows(others))
  {
    ghost var rows := Rows(xs);
    var v := 0;
    while v < |xs|
      invariant 0 <= v <= |xs|
      invariant forall i :: 0 <= i < v ==> xs[i][..] == WithColumn(rows, u, c)[i]
      invariant forall i :: v <= i < |xs| ==> xs[i][..] == rows[i]
    {
      xs[v][u] := c[v];
      v := v + 1;
    }
  }

  /** The residues of a polynomial modulo one prime, plain or transformed. */
  ghost function Residue(f: Poly, s: SmallPrime, logn: nat, ntt: bool): (r: Poly)
    requires |f| == Pow2(logn) && s.p >= 2
    ensures |r| == |f|
  {
    if ntt then Forward(KeyTables(s.g, s.p), Reduce(f, s.p), logn) else Reduce(f, s.p)
  }

  /** Columns from..to hold the residues of one polynomial each. */
  ghost predicate Holds(rows: seq<seq<U32>>, polys: seq<Poly>, primes: seq<SmallPrime>, logn: nat, from: nat, to: nat, ntt: bool) {
    && to <= |polys| && to <= |primes|
    && forall j :: from <= j < to ==> HoldsAt(Column(rows, j), polys[j], primes[j], logn, ntt)
  }

  ghost predicate HoldsAt(c: seq<U32>, f: Poly, s: SmallPrime, logn: nat, ntt: bool) {
    |f| == Pow2(logn) && s.p >= 2 && c == Residue(f, s, logn, ntt)
  }

  lemma HoldsMeaning(rows: seq<seq<U32>>, polys: seq<Poly>, primes: seq<SmallPrime>, logn: nat, from: nat, to: nat, ntt: bool, j: nat)
    requires Holds(rows, polys, primes, logn, from, to, ntt) && from <= j < to
    ensures HoldsAt(Column(rows, j), polys[j], primes[j], logn, ntt)
  {}

  lemma HoldsEmpty(rows: seq<seq<U32>>, polys: seq<Poly>, primes: seq<SmallPrime>, logn: nat, u: nat, ntt: bool)
    requires u <= |polys| && u <= |primes|
    ensures Holds(rows, polys, primes, logn, u, u, ntt)
  {}

  /** A replaced column extends the range below it and shortens the range above it. */
  lemma HoldsNext(rows: seq<seq<U32>>, polys: seq<Poly>, primes: seq<SmallPrime>, logn: nat, from: nat, u: nat, to: nat, c: seq<U32>,
                  ntt: bool, ntt': bool)
    requires |c| == |rows| && (forall v :: 0 <= v < |rows| ==> u < |rows[v]|) && from <= u < to <= |polys| && to <= |primes|
    requires Holds(rows, polys, primes, logn, from, u, ntt) && HoldsAt(c, polys[u], primes[u], logn, ntt)
    ensures Holds(WithColumn(rows, u, c), polys, primes, logn, from, u + 1, ntt)
    ensures Holds(rows, polys, primes, logn, u, to, ntt') ==> Holds(WithColumn(rows, u, c), polys, primes, logn, u + 1, to, ntt')
  {
    hide HoldsAt, Column, WithColumn;
    ColumnReplaced(rows, u, c);
  }

  // ---- One prime ----

  method PrimeTables(s: SmallPrime, logn: nat) returns (p0i: U31, r2: U32, gm: array<U32>, igm: array<U32>)
    requires logn <= 10 && Modulus(s.p) && Generator(s.g, s.p) && s.p >= 2
    ensures fresh(gm) && fresh(igm) && Reducer(s.p, p0i) && r2 == ModpR2(s.p, p0i)
    ensures Filled(gm[..], KeyTables(s.g, s.p), logn, s.p) && FilledInverse(igm[..], KeyTables(s.g, s.p), logn, s.p)
  {
    hide *;
    ReducerFor(s.p);
    p0i := ModpNinv31(s.p);
    r2 := ModpR2(s.p, p0i);
    gm, igm := new U32[Pow2(logn)], new U32[Pow2(logn)];
    ModpMkgm2(gm, igm, logn, s.g, s.p, p0i);
  }

  lemma ResidueMeaning(f: Poly, s: SmallPrime, logn: nat)
    requires |f| == Pow2(logn) && s.p >= 2
    ensures Residue(f, s, logn, true) == Forward(KeyTables(s.g, s.p), Reduce(f, s.p), logn)
    ensures Residue(f, s, logn, false) == Reduce(f, s.p) && Canonical(Reduce(f, s.p), s.p)
  {}

  lemma ResidueCanonical(f: Poly, s: SmallPrime, logn: nat, ntt: bool)
    requires |f| == Pow2(logn) && s.p >= 2 && logn <= 10 && Generator(s.g, s.p)
    ensures Canonical(Residue(f, s, logn, ntt), s.p) && KeyTables(s.g, s.p).q == s.p
  {
    hide *;
    KeyReady(s.g, s.p, logn);
    ResidueMeaning(f, s, logn);
    if ntt { NttCanonical(KeyTables(s.g, s.p), Reduce(f, s.p), logn, 1); ForwardIs(KeyTables(s.g, s.p), Reduce(f, s.p), logn); }
  }

  lemma ForwardIs(t: Tables, a: Poly, k: nat)
    requires t.q > 0 && |a| == Pow2(k)
    ensures Forward(t, a, k) == Ntt(t, a, k, 1)
  {}

  /** The transform of plain residues. */
  method ToNtt(t: array<U32>, s: SmallPrime, logn: nat, gm: seq<U32>, p0i: U31, ghost f: Poly)
    requires logn <= 10 && Generator(s.g, s.p) && s.p >= 2 && Reducer(s.p, p0i) && HoldsAt(t[..], f, s, logn, false)
    requires Filled(gm, KeyTables(s.g, s.p), logn, s.p)
    modifies t
    ensures HoldsAt(t[..], f, s, logn, true)
  {
    hide *;
    HoldsAtMeaning(t[..], f, s, logn, false);
    ResidueMeaning(f, s, logn);
    KeyReady(s.g, s.p, logn);
    ModpNtt2(t, gm, logn, s.p, p0i, KeyTables(s.g, s.p));
    HoldsAtIntro(t[..], f, s, logn, true);
  }

  /** The plain residues of a transform. */
  method FromNtt(t: array<U32>, s: SmallPrime, logn: nat, igm: seq<U32>, p0i: U31, ghost f: Poly)
    requires logn <= 10 && Generator(s.g, s.p) && s.p >= 2 && Reducer(s.p, p0i) && HoldsAt(t[..], f, s, logn, true)
    requires FilledInverse(igm, KeyTables(s.g, s.p), logn, s.p)
    modifies t
    ensures HoldsAt(t[..], f, s, logn, false)
  {
    hide *;
    HoldsAtMeaning(t[..], f, s, logn, true);
    ResidueMeaning(f, s, logn);
    ResidueCanonical(f, s, logn, true);
    KeyReady(s.g, s.p, logn);
    BelowModulus(s.p, p0i);
    HalfPowerMeaning(logn, s.p);
    ModpIntt2(t, igm, logn, s.p, p0i, KeyTables(s.g, s.p));
    BackwardForward(KeyTables(s.g, s.p), Reduce(f, s.p), logn, HalfPower(logn, s.p));
    HoldsAtIntro(t[..], f, s, logn, false);
  }

  lemma HoldsAtMeaning(c: seq<U32>, f: Poly, s: SmallPrime, logn: nat, ntt: bool)
    requires HoldsAt(c, f, s, logn, ntt)
    ensures |c| == |f| == Pow2(logn) && s.p >= 2 && c == Residue(f, s, logn, ntt)
  {}

  lemma HoldsAtIntro(c: seq<U32>, f: Poly, s: SmallPrime, logn: nat, ntt: bool)
    requires |f| == Pow2(logn) && s.p >= 2 && c == Residue(f, s, logn, ntt)
    ensures HoldsAt(c, f, s, logn, ntt)
  {}

  /** The residues of the field norm of f from the transform of f. */
  method NormFromTransform(t: array<U32>, s: SmallPrime, logn: nat, igm: seq<U32>, p0i: U31, r2: U32, outNtt: bool, ghost f: Poly)
    returns (h: array<U32>)
    requires 1 <= logn <= 10 && Generator(s.g, s.p) && s.p >= 2 && Reducer(s.p, p0i) && r2 == ModpR2(s.p, p0i)
    requires FilledInverse(igm, KeyTables(s.g, s.p), logn, s.p) && HoldsAt(t[..], f, s, logn, true)
    ensures |f| >= 2 && fresh(h) && HoldsAt(h[..], Norm(f), s, logn - 1, outNtt)
  {
    hide *;
    HoldsAtMeaning(t[..], f, s, logn, true);
    ResidueMeaning(f, s, logn);
    NormSize(f, logn);
    NormTransformMeaning(f, logn, s.g, s.p);
    ResidueMeaning(Norm(f), s, logn - 1);
    ghost var out := NormTransform(f, logn, s.g, s.p);
    var hn := Pow2(logn - 1);
    h := new U32[hn];
    var v := 0;
    while v < hn
      invariant v <= hn && h.Length == hn == |out| && forall i :: 0 <= i < v ==> h[i] == out[i]
    {
      RecEntry(t[..], f, logn, s.p, p0i, s.g, v);
      var w0, w1 := t[2 * v], t[2 * v + 1];
      h[v] := ModpMontyMul(ModpMontyMul(w0, w1, s.p, p0i), r2, s.p, p0i);
      v := v + 1;
    }
    HoldsAtIntro(h[..], Norm(f), s, logn - 1, true);
    if !outNtt {
      FilledShorter(igm, KeyTables(s.g, s.p), logn, s.p);
      FromNtt(h, s, logn - 1, igm, p0i, Norm(f));
    }
  }

  lemma FilledShorter(igm: seq<U32>, t: Tables, logn: nat, p: U31)
    requires logn >= 1 && FilledInverse(igm, t, logn, p)
    ensures FilledInverse(igm, t, logn - 1, p)
  {}

  // ---- One step ----

  ghost function Norms(polys: seq<Poly>): (r: seq<Poly>)
    ensures |r| == |polys|
    ensures forall j :: 0 <= j < |polys| && |polys[j]| >= 2 ==> r[j] == Norm(polys[j])
  {
    seq(|polys|, j requires 0 <= j < |polys| => if |polys[j]| >= 2 then Norm(polys[j]) else [])
  }

  lemma HoldsSkip(rows: seq<seq<U32>>, polys: seq<Poly>, primes: seq<SmallPrime>, logn: nat, from: nat, u: nat, to: nat, ntt: bool)
    requires from <= u < to && Holds(rows, polys, primes, logn, from, u, ntt) && Holds(rows, polys, primes, logn, u, to, ntt)
    ensures Holds(rows, polys, primes, logn, from, u + 1, ntt) && Holds(rows, polys, primes, logn, u + 1, to, ntt)
  {
    hide HoldsAt, Column;
  }

  lemma NormsAt(polys: seq<Poly>, j: nat)
    requires j < |polys| && |polys[j]| >= 2
    ensures Norms(polys)[j] == Norm(polys[j])
  {}

  /** The column of the norm; a transformed column of the input is transformed back. */
  method NormColumn(t: array<U32>, s: SmallPrime, logn: nat, inNtt: bool, outNtt: bool, ghost f: Poly) returns (h: array<U32>)
    requires 1 <= logn <= 10 && Modulus(s.p) && Generator(s.g, s.p) && s.p >= 2 && HoldsAt(t[..], f, s, logn, inNtt)
    modifies t
    ensures |f| >= 2 && fresh(h) && HoldsAt(h[..], Norm(f), s, logn - 1, outNtt) && (inNtt ==> HoldsAt(t[..], f, s, logn, false))
  {
    hide *;
    var p0i, r2, gm, igm := PrimeTables(s, logn);
    if !inNtt { ToNtt(t, s, logn, gm[..], p0i, f); }
    h := NormFromTransform(t, s, logn, igm[..], p0i, r2, outNtt, f);
    if inNtt { FromNtt(t, s, logn, igm[..], p0i, f); }
  }

  /** One prime of the input: its column becomes plain residues, and the norm gets a column. */
  method FirstWord(fs: seq<array<U32>>, fd: seq<array<U32>>, primes: seq<SmallPrime>, logn: nat, slen: nat, tlen: nat, u: nat,
                   inNtt: bool, outNtt: bool, ghost polys: seq<Poly>)
    requires 1 <= logn <= 10 && PrimeList(primes) && u < slen <= tlen <= |primes| && |polys| == slen
    requires Separate(fs, slen) && Separate(fd, tlen) && Apart(fs, fd) && |fs| == Pow2(logn) && |fd| == Pow2(logn - 1)
    requires Holds(Rows(fs), polys, primes, logn, 0, u, false) && Holds(Rows(fs), polys, primes, logn, u, slen, inNtt)
    requires Holds(Rows(fd), Norms(polys), primes, logn - 1, 0, u, outNtt)
    modifies fs, fd
    ensures Holds(Rows(fs), polys, primes, logn, 0, u + 1, false) && Holds(Rows(fs), polys, primes, logn, u + 1, slen, inNtt)
    ensures Holds(Rows(fd), Norms(polys), primes, logn - 1, 0, u + 1, outNtt)
  {
    hide *;
    PrimeMeaning(primes, u);
    RowLengths(fs, slen);
    RowLengths(fd, tlen);
    var s := primes[u];
    var t := Gather(fs, slen, u);
    HoldsMeaning(Rows(fs), polys, primes, logn, u, slen, inNtt, u);
    ghost var rows, rows' := Rows(fs), Rows(fd);
    var h := NormColumn(t, s, logn, inNtt, outNtt, polys[u]);
    NormsAt(polys, u);
    HoldsAtMeaning(h[..], Norm(polys[u]), s, logn - 1, outNtt);
    Scatter(fd, tlen, u, h[..], fs);
    HoldsNext(rows', Norms(polys), primes, logn - 1, 0, u, u + 1, h[..], outNtt, outNtt);
    if inNtt {
      HoldsAtMeaning(t[..], polys[u], s, logn, false);
      Scatter(fs, slen, u, t[..], fd);
      HoldsNext(rows, polys, primes, logn, 0, u, slen, t[..], false, inNtt);
    } else {
      HoldsSkip(rows, polys, primes, logn, 0, u, slen, false);
    }
  }

  /** The words of the input: each prime gives one word of the norm. */
  method FirstWords(fs: seq<array<U32>>, fd: seq<array<U32>>, primes: seq<SmallPrime>, logn: nat, slen: nat, tlen: nat,
                    inNtt: bool, outNtt: bool, ghost polys: seq<Poly>)
    requires 1 <= logn <= 10 && PrimeList(primes) && slen <= tlen <= |primes| && |polys| == slen
    requires Separate(fs, slen) && Separate(fd, tlen) && Apart(fs, fd) && |fs| == Pow2(logn) && |fd| == Pow2(logn - 1)
    requires Holds(Rows(fs), polys, primes, logn, 0, slen, inNtt)
    modifies fs, fd
    ensures Holds(Rows(fs), polys, primes, logn, 0, slen, false)
    ensures Holds(Rows(fd), Norms(polys), primes, logn - 1, 0, slen, outNtt)
  {
    hide Holds, PrimeList, Norms;
    HoldsEmpty(Rows(fs), polys, primes, logn, 0, false);
    HoldsEmpty(Rows(fd), Norms(polys), primes, logn - 1, 0, outNtt);
    NormsSize(polys);
    var u := 0;
    while u < slen
      invariant 0 <= u <= slen
      invariant Holds(Rows(fs), polys, primes, logn, 0, u, false) && Holds(Rows(fs), polys, primes, logn, u, slen, inNtt)
      invariant Holds(Rows(fd), Norms(polys), primes, logn - 1, 0, u, outNtt)
    {
      FirstWord(fs, fd, primes, logn, slen, tlen, u, inNtt, outNtt, polys);
      u := u + 1;
    }
  }

  lemma NormsSize(polys: seq<Poly>)
    ensures |Norms(polys)| == |polys|
  {}

  /** The integers that the words stand for, in two's complement. */
  ghost function Integers(rows: seq<seq<U32>>): (r: Poly)
    ensures |r| == |rows|
  {
    seq(|rows|, v requires 0 <= v < |rows| => SignedNum(rows[v]))
  }

  ghost predicate AllLimbs(rows: seq<seq<U32>>) { forall v :: 0 <= v < |rows| ==> Limbs(rows[v]) }

  /** The residues of all integers modulo one prime. */
  method ReduceAll(fs: seq<array<U32>>, slen: nat, s: SmallPrime, logn: nat) returns (t: array<U32>)
    requires 1 <= slen < 0x8000_0000 && Separate(fs, slen) && |fs| == Pow2(logn) && AllLimbs(Rows(fs))
    requires Modulus(s.p) && s.p >= 2
    ensures fresh(t) && HoldsAt(t[..], Integers(Rows(fs)), s, logn, false)
  {
    hide Reducer, ModpR2, ModpNinv31, Limbs, SignedNum, Base, Num, Cong;
    ReducerFor(s.p);
    var p0i := ModpNinv31(s.p);
    var r2 := ModpR2(s.p, p0i);
    var rx := ModpRx(slen, s.p, p0i, r2);
    t := new U32[|fs|];
    ghost var rows := Rows(fs);
    var v := 0;
    while v < |fs|
      invariant 0 <= v <= |fs| && Rows(fs) == rows && forall i :: 0 <= i < v ==> t[i] == SignedNum(rows[i]) % s.p
    {
      assert rows[v] == fs[v][..];
      t[v] := ZintModSmallSigned(fs[v][..], s.p, p0i, r2, rx);
      v := v + 1;
    }
    assert t[..] == Reduce(Integers(rows), s.p);
  }

  /** The remaining words: reductions of the rebuilt integers. */
  method RemainingWords(fs: seq<array<U32>>, fd: seq<array<U32>>, primes: seq<SmallPrime>, logn: nat, slen: nat, tlen: nat,
                        outNtt: bool, ghost polys: seq<Poly>)
    requires 1 <= logn <= 10 && PrimeList(primes) && 1 <= slen <= tlen <= |primes| && tlen <= 209 && |polys| == tlen
    requires Separate(fs, slen) && Separate(fd, tlen) && Apart(fs, fd) && |fs| == Pow2(logn) && |fd| == Pow2(logn - 1)
    requires AllLimbs(Rows(fs)) && forall j :: slen <= j < tlen ==> polys[j] == Integers(Rows(fs))
    requires Holds(Rows(fd), Norms(polys), primes, logn - 1, 0, slen, outNtt)
    modifies fd
    ensures Holds(Rows(fd), Norms(polys), primes, logn - 1, 0, tlen, outNtt)
  {
    hide *;
    ghost var rows := Rows(fs);
    var u := slen;
    while u < tlen
      invariant slen <= u <= tlen && Rows(fs) == rows
      invariant Holds(Rows(fd), Norms(polys), primes, logn - 1, 0, u, outNtt)
    {
      RemainingWord(fs, fd, primes, logn, slen, tlen, u, outNtt, polys);
      u := u + 1;
    }
  }

  method RemainingWord(fs: seq<array<U32>>, fd: seq<array<U32>>, primes: seq<SmallPrime>, logn: nat, slen: nat, tlen: nat, u: nat,
                       outNtt: bool, ghost polys: seq<Poly>)
    requires 1 <= logn <= 10 && PrimeList(primes) && 1 <= slen <= u < tlen <= |primes| && tlen <= 209 && |polys| == tlen
    requires Separate(fs, slen) && Separate(fd, tlen) && Apart(fs, fd) && |fs| == Pow2(logn) && |fd| == Pow2(logn - 1)
    requires AllLimbs(Rows(fs)) && polys[u] == Integers(Rows(fs))
    requires Holds(Rows(fd), Norms(polys), primes, logn - 1, 0, u, outNtt)
    modifies fd
    ensures Rows(fs) == old(Rows(fs)) && Holds(Rows(fd), Norms(polys), primes, logn - 1, 0, u + 1, outNtt)
  {
    hide *;
    PrimeMeaning(primes, u);
    RowLengths(fd, tlen);
    var s := primes[u];
    ghost var rows, rows' := Rows(fs), Rows(fd);
    var t := ReduceAll(fs, slen, s, logn);
    var h := NormColumn(t, s, logn, false, outNtt, polys[u]);
    NormsAt(polys, u);
    HoldsAtMeaning(h[..], Norm(polys[u]), s, logn - 1, outNtt);
    Scatter(fd, tlen, u, h[..], fs);
    HoldsNext(rows', Norms(polys), primes, logn - 1, 0, u, u + 1, h[..], outNtt, outNtt);
  }

  // ---- Rebuilding the input ----

  lemma {:induction false} ProdPrefix(primes: seq<SmallPrime>, k: nat, i: nat)
    requires i <= k <= |primes|
    ensures Prod(primes[..k], i) == Prod(primes, i)
  {
    if i > 0 { ProdPrefix(primes, k, i - 1); }
  }

  lemma GoodPrefix(primes: seq<SmallPrime>, k: nat)
    requires GoodPrimes(primes) && k <= |primes|
    ensures GoodPrimes(primes[..k]) && Prod(primes[..k], k) == Prod(primes, k)
  {
    hide Cong, Prod;
    ProdPrefix(primes, k, k);
    forall i | 0 <= i < k ensures GoodPrime(primes[..k], i) {
      ProdPrefix(primes, k, i);
      assert GoodPrime(primes, i);
    }
  }

  /** A number centred modulo the product of the first k primes. */
  ghost predicate Centred(x: int, primes: seq<SmallPrime>, k: nat)
    requires k <= |primes|
  {
    -(Prod(primes, k) as int) < 2 * x < Prod(primes, k)
  }

  /** All coefficients fit the words of their depth. */
  ghost predicate Fits(f: Poly, primes: seq<SmallPrime>, k: nat)
    requires k <= |primes|
  {
    forall v :: 0 <= v < |f| ==> Centred(f[v], primes, k)
  }

  ghost predicate AllSame(polys: seq<Poly>, f: Poly) { forall j :: 0 <= j < |polys| ==> polys[j] == f }

  /** Residues leave one choice of a centred number. */
  lemma CentredUnique(x: int, y: int, r: seq<int>, primes: seq<SmallPrime>, k: nat)
    requires k <= |primes| && GoodPrimes(primes) && HasResidues(x, r, primes, k) && HasResidues(y, r, primes, k)
    requires Centred(x, primes, k) && Centred(y, primes, k)
    ensures x == y
  {
    SameResidues(x, y, r, primes, k);
    var m := Prod(primes, k);
    var c := CongElim(x, y, m);
    hide *;
    SmallMultiple(c, m);
  }

  /** The residues in the rows are reduced, and those of one polynomial are the residues of its coefficients. */
  lemma RowResidues(rows: seq<seq<U32>>, polys: seq<Poly>, primes: seq<SmallPrime>, logn: nat, k: nat, v: nat)
    requires PrimeList(primes) && k <= |primes| && |polys| == k && |rows| == Pow2(logn) && v < |rows| && |rows[v]| == k
    requires Holds(rows, polys, primes, logn, 0, k, false)
    ensures Reduced(rows[v], primes[..k])
    ensures forall f: Poly :: AllSame(polys, f) && |f| == |rows| ==> HasResidues(f[v], rows[v], primes[..k], k)
  {
    hide Cong, GoodPrimes, Generator;
    forall j | 0 <= j < k ensures |polys[j]| == |rows| && primes[j].p > 0 && rows[v][j] == polys[j][v] % primes[j].p {
      PrimeMeaning(primes, j);
      HoldsMeaning(rows, polys, primes, logn, 0, k, false, j);
      assert Column(rows, j)[v] == rows[v][j];
    }
    forall f: Poly | AllSame(polys, f) && |f| == |rows| ensures HasResidues(f[v], rows[v], primes[..k], k) {
      forall j | 0 <= j < k ensures primes[..k][j].p > 0 && Cong(f[v], rows[v][j], primes[..k][j].p) {
        CongMod(f[v], primes[j].p);
        CongSym(f[v] % primes[j].p, f[v], primes[j].p);
      }
    }
  }

  lemma RebuiltCentred(x: seq<U32>, r: seq<U32>, primes: seq<SmallPrime>, k: nat)
    requires k <= |primes| && GoodPrimes(primes) && Rebuilt(x, r, primes[..k], true)
    ensures HasResidues(SignedNum(x), r, primes[..k], k) && Centred(SignedNum(x), primes[..k], k)
  {}

  /** The plain residues become the integers themselves. */
  method RebuildCentred(fs: seq<array<U32>>, primes: seq<SmallPrime>, logn: nat, k: nat, ghost polys: seq<Poly>, ghost f: Poly)
    requires PrimeList(primes) && 1 <= k <= |primes| && Separate(fs, k) && |fs| == Pow2(logn) && |polys| == k
    requires Holds(Rows(fs), polys, primes, logn, 0, k, false)
    modifies fs
    ensures AllLimbs(Rows(fs))
    ensures AllSame(polys, f) && |f| == |fs| && Fits(f, primes, k) ==> Integers(Rows(fs)) == f
  {
    hide Holds, Reduced, Rebuilt, HasResidues, Generator, Limbs, GoodPrimes, Prod, SignedNum, Centred;
    ghost var rows := Rows(fs);
    GoodPrefix(primes, k);
    forall v | 0 <= v < |fs| ensures Reduced(rows[v], primes[..k]) { RowResidues(rows, polys, primes, logn, k, v); }
    ZintRebuildCRT(fs, primes[..k], true, rows);
    if AllSame(polys, f) && |f| == |fs| && Fits(f, primes, k) {
      forall v | 0 <= v < |fs| ensures SignedNum(fs[v][..]) == f[v] {
        RowResidues(rows, polys, primes, logn, k, v);
        RebuiltCentred(fs[v][..], rows[v], primes, k);
        CentredPrefix(f[v], primes, k);
        CentredUnique(SignedNum(fs[v][..]), f[v], rows[v], primes[..k], k);
      }
    }
  }

  lemma CentredPrefix(x: int, primes: seq<SmallPrime>, k: nat)
    requires k <= |primes| && GoodPrimes(primes) && Centred(x, primes, k)
    ensures Centred(x, primes[..k], k)
  {
    GoodPrefix(primes, k);
  }

  /**
   One step down: the residues of f give those of its field norm, with the words of the next depth.
   Every column stands for some polynomial; if they all stand for f and its coefficients fit, the
   columns of the result all stand for the field norm of f.
   */
  method MakeFgStep(fs: seq<array<U32>>, primes: seq<SmallPrime>, logn: nat, depth: nat, inNtt: bool, outNtt: bool,
                    ghost polys: seq<Poly>, ghost f: Poly) returns (fd: seq<array<U32>>, ghost norms: seq<Poly>)
    requires 1 <= logn <= 10 && depth < 10 && PrimeList(primes) && |polys| == MaxBl(depth) && |f| == Pow2(logn)
    requires Separate(fs, MaxBl(depth)) && |fs| == Pow2(logn) && Holds(Rows(fs), polys, primes, logn, 0, MaxBl(depth), inNtt)
    modifies fs
    ensures fresh(fd) && Separate(fd, MaxBl(depth + 1)) && |fd| == Pow2(logn - 1) && |norms| == MaxBl(depth + 1) && |f| >= 2
    ensures Holds(Rows(fd), norms, primes, logn - 1, 0, MaxBl(depth + 1), outNtt)
    ensures AllSame(polys, f) && Fits(f, primes, MaxBl(depth)) ==> AllSame(norms, Norm(f))
  {
    hide *;
    MaxBlGrows(depth);
    PrimeCount(primes);
    SomeWords(depth);
    NormSize(f, logn);
    var slen, tlen := MaxBl(depth), MaxBl(depth + 1);
    fd := NewRows(Pow2(logn - 1), tlen, fs);
    FirstWords(fs, fd, primes, logn, slen, tlen, inNtt, outNtt, polys);
    RebuildCentred(fs, primes, logn, slen, polys, f);
    ghost var whole := Integers(Rows(fs));
    ghost var all := polys + seq(tlen - slen, _ => whole);
    HoldsLonger(Rows(fd), polys, all, primes, logn - 1, slen, outNtt);
    RemainingWords(fs, fd, primes, logn, slen, tlen, outNtt, all);
    norms := Norms(all);
    NormsOfSame(polys, whole, f, tlen - slen);
  }

  /** Columns that all stand for f give norms that all stand for its norm. */
  lemma NormsOfSame(polys: seq<Poly>, whole: Poly, f: Poly, k: nat)
    requires |f| >= 2
    ensures |Norms(polys + seq(k, _ => whole))| == |polys| + k
    ensures AllSame(polys, f) && whole == f ==> AllSame(Norms(polys + seq(k, _ => whole)), Norm(f))
  {
    hide Norms, Norm;
    var all := polys + seq(k, _ => whole);
    NormsSize(all);
    if AllSame(polys, f) && whole == f {
      forall j | 0 <= j < |all| ensures Norms(all)[j] == Norm(f) { NormsAt(all, j); }
    }
  }

  lemma PrimeCount(primes: seq<SmallPrime>)
    requires PrimeList(primes)
    ensures |primes| >= 209
  {}

  lemma HoldsLonger(rows: seq<seq<U32>>, polys: seq<Poly>, all: seq<Poly>, primes: seq<SmallPrime>, logn: nat, k: nat, ntt: bool)
    requires k == |polys| <= |all| && polys == all[..k] && Holds(rows, Norms(polys), primes, logn, 0, k, ntt)
    ensures Holds(rows, Norms(all), primes, logn, 0, k, ntt)
  {
    hide HoldsAt, Column, Norm;
    assert forall j :: 0 <= j < k ==> Norms(all)[j] == Norms(polys)[j];
  }

  /** New arrays, apart from the given ones. */
  method NewRows(n: nat, len: nat, ghost ys: seq<array<U32>>) returns (xs: seq<array<U32>>)
    ensures fresh(xs) && Separate(xs, len) && |xs| == n && Apart(ys, xs)
  {
    xs := [];
    while |xs| < n
      invariant |xs| <= n && fresh(xs) && Separate(xs, len)
    {
      var x := new U32[len];
      xs := xs + [x];
    }
  }

  // ---- All steps ----

  /** The field norm taken down d times. */
  ghost function NormDown(f: Poly, logn: nat, d: nat): (r: Poly)
    requires |f| == Pow2(logn) && d <= logn
    ensures |r| == Pow2(logn - d)
  {
    if d == 0 then f else
      NormSize(NormDown(f, logn, d - 1), logn - d + 1);
      Norm(NormDown(f, logn, d - 1))
  }

  lemma NormDownNext(f: Poly, logn: nat, d: nat)
    requires |f| == Pow2(logn) && d < logn
    ensures |NormDown(f, logn, d)| >= 2 && NormDown(f, logn, d + 1) == Norm(NormDown(f, logn, d)) && NormDown(f, logn, 0) == f
  {
    NormSize(NormDown(f, logn, d), logn - d);
  }

  /** Taking the norm first changes nothing. */
  lemma {:induction false} NormDownResultant(f: Poly, logn: nat, d: nat)
    requires |f| == Pow2(logn) && d <= logn
    ensures Resultant(NormDown(f, logn, d), logn - d) == Resultant(f, logn)
  {
    hide Norm, NormDown;
    if d > 0 {
      NormDownResultant(f, logn, d - 1);
      NormDownNext(f, logn, d - 1);
      ResultantNext(NormDown(f, logn, d - 1), logn - d + 1);
    } else {
      NormDownZero(f, logn);
    }
  }

  lemma NormDownZero(f: Poly, logn: nat)
    requires |f| == Pow2(logn)
    ensures NormDown(f, logn, 0) == f
  {}

  lemma ResultantNext(f: Poly, logn: nat)
    requires |f| == Pow2(logn) && logn >= 1
    ensures |f| >= 2 && |Norm(f)| == Pow2(logn - 1) && Resultant(f, logn) == Resultant(Norm(f), logn - 1)
  {
    NormSize(f, logn);
  }

  /** The coefficients fit at every depth above the given one. */
  ghost predicate AllFit(f: Poly, primes: seq<SmallPrime>, logn: nat, depth: nat)
    requires |f| == Pow2(logn) && depth <= logn <= 10 && PrimeList(primes)
  {
    forall d: nat :: d < depth ==> Fits(NormDown(f, logn, d), primes, MaxBl(d))
  }

  lemma AllFitAt(f: Poly, primes: seq<SmallPrime>, logn: nat, depth: nat, d: nat)
    requires |f| == Pow2(logn) && d < depth <= logn <= 10 && PrimeList(primes)
    ensures MaxBl(d) <= |primes| && (AllFit(f, primes, logn, depth) ==> Fits(NormDown(f, logn, d), primes, MaxBl(d)))
  {}

  lemma OneSame(f: Poly)
    ensures AllSame([f], f)
  {}

  /** The residues of f at the given depth. */
  method MakeFg(f: seq<I8>, primes: seq<SmallPrime>, logn: nat, depth: nat, outNtt: bool) returns (xs: seq<array<U32>>, ghost polys: seq<Poly>)
    requires |f| == Pow2(logn) && depth <= logn <= 10 && PrimeList(primes)
    ensures fresh(xs) && Separate(xs, MaxBl(depth)) && |xs| == Pow2(logn - depth) && |polys| == MaxBl(depth)
    ensures Holds(Rows(xs), polys, primes, logn - depth, 0, MaxBl(depth), outNtt)
    ensures AllFit(f, primes, logn, depth) ==> AllSame(polys, NormDown(f, logn, depth))
  {
    hide *;
    MaxBlGrows(0);
    NormDownZero(f, logn);
    OneSame(f);
    xs := StartRows(f, primes, logn);
    polys := [f];
    if depth == 0 {
      if outNtt { TransformStart(xs, f, primes, logn); }
      return;
    }
    var d := 0;
    while d < depth
      invariant d <= depth && fresh(xs) && Separate(xs, MaxBl(d)) && |xs| == Pow2(logn - d) && |polys| == MaxBl(d)
      invariant Holds(Rows(xs), polys, primes, logn - d, 0, MaxBl(d), if d == 0 then false else d < depth || outNtt)
      invariant AllFit(f, primes, logn, depth) ==> AllSame(polys, NormDown(f, logn, d))
    {
      NormDownNext(f, logn, d);
      AllFitAt(f, primes, logn, depth, d);
      xs, polys := MakeFgStep(xs, primes, logn - d, d, d != 0, d + 1 < depth || outNtt, polys, NormDown(f, logn, d));
      d := d + 1;
    }
  }

  /** The residues of the coefficients modulo the first prime, one word each. */
  method StartRows(f: seq<I8>, primes: seq<SmallPrime>, logn: nat) returns (xs: seq<array<U32>>)
    requires |f| == Pow2(logn) && PrimeList(primes)
    ensures fresh(xs) && Separate(xs, 1) && |xs| == |f| && Holds(Rows(xs), [f], primes, logn, 0, 1, false)
  {
    hide Holds, PrimeList, Reduce;
    PrimeCount(primes);
    PrimeMeaning(primes, 0);
    xs := NewRows(|f|, 1, []);
    var u := 0;
    var p := primes[0].p;
    while u < |f|
      invariant u <= |f| && forall i :: 0 <= i < u ==> xs[i][0] == f[i] as int % p
    {
      xs[u][0] := ModpSet(f[u], p);
      u := u + 1;
    }
    StartHolds(Rows(xs), f, primes, logn);
  }

  lemma StartHolds(rows: seq<seq<U32>>, f: seq<I8>, primes: seq<SmallPrime>, logn: nat)
    requires |f| == |rows| == Pow2(logn) && |primes| >= 1 && primes[0].p >= 2
    requires forall i :: 0 <= i < |rows| ==> |rows[i]| == 1 && rows[i][0] == f[i] as int % primes[0].p
    ensures Holds(rows, [f], primes, logn, 0, 1, false)
  {
    assert Column(rows, 0) == Reduce(f, primes[0].p);
  }

  /** The transform of the only column. */
  method TransformStart(xs: seq<array<U32>>, f: seq<I8>, primes: seq<SmallPrime>, logn: nat)
    requires |f| == |xs| == Pow2(logn) && logn <= 10 && PrimeList(primes) && Separate(xs, 1)
    requires Holds(Rows(xs), [f], primes, logn, 0, 1, false)
    modifies xs
    ensures Holds(Rows(xs), [f], primes, logn, 0, 1, true)
  {
    hide Holds, HoldsAt, Column, WithColumn, PrimeList, Generator, Filled, FilledInverse, Reducer, KeyTables, ModpR2, GoodPrimes, Residue, Modulus;
    PrimeCount(primes);
    PrimeMeaning(primes, 0);
    var p0i, r2, gm, igm := PrimeTables(primes[0], logn);
    var t := Gather(xs, 1, 0);
    ghost var rows := Rows(xs);
    HoldsMeaning(rows, [f], primes, logn, 0, 1, false, 0);
    ToNtt(t, primes[0], logn, gm[..], p0i, f);
    HoldsAtMeaning(t[..], f, primes[0], logn, true);
    Scatter(xs, 1, 0, t[..], []);
    HoldsEmpty(rows, [f], primes, logn, 0, true);
    HoldsNext(rows, [f], primes, logn, 0, 0, 1, t[..], true, true);
  }

  // ---- The resultants ----

  /** At least one halving leaves a sum of two squares, or a norm of it. */
  lemma {:induction false} ResultantNonnegative(f: Poly, logn: nat)
    requires |f| == Pow2(logn) && logn >= 1
    ensures Resultant(f, logn) >= 0
    decreases logn
  {
    hide *;
    ResultantNext(f, logn);
    if logn == 1 {
      PairNorm(f);
      ResultantLeaf(Norm(f));
    } else {
      ResultantNonnegative(Norm(f), logn - 1);
    }
  }

  lemma ResultantLeaf(a: Poly)
    requires |a| == 1
    ensures Pow2(0) == 1 && Resultant(a, 0) == a[0]
  {}

  /** The norm of two coefficients is the sum of their squares. */
  lemma PairNorm(f: Poly)
    requires |f| == Pow2(1)
    ensures |f| == 2 && |Norm(f)| == 1 && Norm(f)[0] >= 0
  {
    var e, o := Evens(f), Odds(f);
    SingleProduct(e, e);
    SingleProduct(o, o);
    SquareSign(e[0]);
    SquareSign(o[0]);
    hide Product;
  }

  lemma SingleProduct(a: Poly, b: Poly)
    requires |a| == |b| == 1
    ensures Product(a, b) == [a[0] * b[0]]
  {
    assert Product(a[1..], b)[0] == 0;
  }

  lemma SquareSign(x: int)
    ensures x * x >= 0
  {}

  lemma NormBounded(f: Poly, m: nat)
    requires |f| >= 2 && |f| % 2 == 0 && Bounded(f, m)
    ensures Bounded(Norm(f), |f| * (m * m))
  {
    var e, o, h := Evens(f), Odds(f), |f| / 2;
    hide Product;
    ProductBounded(e, e, m, m);
    ProductBounded(o, o, m, m);
    var s := m * m;
    MulAdd(s, h, h);
    assert |f| * s == h * s + h * s;
    hide *;
    NormTerms(f, h * s);
  }

  lemma NormTerms(f: Poly, b: int)
    requires |f| >= 2 && |f| % 2 == 0
    requires Bounded(Product(Evens(f), Evens(f)), b) && Bounded(Product(Odds(f), Odds(f)), b)
    ensures Bounded(Norm(f), b + b)
  {
    hide Product;
  }

  lemma BoundedMore(a: Poly, m: int, n: int)
    requires Bounded(a, m) && m <= n
    ensures Bounded(a, n)
  {}

  /** The norms of 8-bit coefficients always fit at the first three depths. */
  lemma EarlyDepthsFit(f: Poly, primes: seq<SmallPrime>, logn: nat, d: nat)
    requires |f| == Pow2(logn) && d <= 2 && d <= logn <= 10 && PrimeList(primes) && Bounded(f, 128)
    ensures Fits(NormDown(f, logn, d), primes, MaxBl(d))
  {
    hide *;
    EarlySizes(primes, logn);
    NormDownZero(f, logn);
    if d == 0 {
      FitsBounded(f, primes, MaxBl(0), 128);
    } else {
      NormDownNext(f, logn, 0);
      NormSize(f, logn);
      BoundedNorm(f, 128, 1024, 0x100_0000);
      if d == 1 {
        FitsBounded(NormDown(f, logn, 1), primes, MaxBl(1), 0x100_0000);
      } else {
        NormDownNext(f, logn, 1);
        NormSize(NormDown(f, logn, 1), logn - 1);
        BoundedNorm(NormDown(f, logn, 1), 0x100_0000, 512, 0x200_0000_0000_0000);
        FitsBounded(NormDown(f, logn, 2), primes, MaxBl(2), 0x200_0000_0000_0000);
      }
    }
  }

  lemma BoundedNorm(f: Poly, m: nat, n: nat, b: nat)
    requires 2 <= |f| <= n && |f| % 2 == 0 && Bounded(f, m) && b == n * (m * m)
    ensures Bounded(Norm(f), b)
  {
    hide *;
    NormBounded(f, m);
    MulLe(m * m, |f|, n);
    BoundedMore(Norm(f), |f| * (m * m), b);
  }

  lemma EarlySizes(primes: seq<SmallPrime>, logn: nat)
    requires PrimeList(primes) && logn <= 10
    ensures |primes| >= 209 && MaxBl(0) == MaxBl(1) == 1 && MaxBl(2) == 2
    ensures Prod(primes, 1) > 0x4000_0000 && Prod(primes, 2) > 0x1000_0000_0000_0000
    ensures Pow2(logn) <= 1024 && (logn > 0 ==> Pow2(logn - 1) <= 512)
  {
    Pow2Values();
    Pow2Monotone(logn, 10);
    if logn > 0 { Pow2Monotone(logn - 1, 9); }
    PrimeMeaning(primes, 0);
    PrimeMeaning(primes, 1);
    ProdNext(primes, 0);
    ProdNext(primes, 1);
    var a, b := primes[0].p, primes[1].p;
    hide *;
    MulLe(a, 0x4000_0001, b);
    MulLe(0x4000_0001, 0x4000_0001, a);
  }

  lemma FitsBounded(f: Poly, primes: seq<SmallPrime>, k: nat, m: int)
    requires k <= |primes| && Bounded(f, m) && 2 * m < Prod(primes, k)
    ensures Fits(f, primes, k)
  {
    hide Prod;
  }

  /** Every norm down to the resultant fits its words. */
  ghost predicate WellSized(f: Poly, primes: seq<SmallPrime>, logn: nat)
    requires |f| == Pow2(logn) && logn <= 10 && PrimeList(primes)
  {
    AllFit(f, primes, logn, logn) && Resultant(f, logn) < Prod(primes, MaxBl(logn))
  }

  lemma DownToResultant(f: Poly, logn: nat)
    requires |f| == Pow2(logn)
    ensures NormDown(f, logn, logn) == [Resultant(f, logn)]
  {
    hide NormDown;
    NormDownResultant(f, logn, logn);
    assert Pow2(0) == 1;
  }

  lemma RebuiltResultant(x: seq<U32>, rows: seq<seq<U32>>, f: Poly, primes: seq<SmallPrime>, logn: nat, polys: seq<Poly>)
    requires 1 <= logn <= 10 && |f| == Pow2(logn) && PrimeList(primes) && |polys| == MaxBl(logn)
    requires |rows| == 1 && |rows[0]| == MaxBl(logn) <= |primes| && Holds(rows, polys, primes, 0, 0, MaxBl(logn), false)
    requires AllFit(f, primes, logn, logn) ==> AllSame(polys, NormDown(f, logn, logn))
    requires Rebuilt(x, rows[0], primes[..MaxBl(logn)], false)
    ensures WellSized(f, primes, logn) ==> Num(x) == Resultant(f, logn)
  {
    hide Holds, HasResidues, GoodPrimes, Generator, Prod, NormDown, Resultant, Fits, Limbs, Num, AllSame;
    if WellSized(f, primes, logn) {
      var k := MaxBl(logn);
      assert Pow2(0) == 1;
      DownToResultant(f, logn);
      RowResidues(rows, polys, primes, 0, k, 0);
      GoodPrefix(primes, k);
      ResultantNonnegative(f, logn);
      RebuiltUnique(Num(x), Resultant(f, logn), rows[0], primes[..k], k);
    }
  }

  /** The residues of the resultant of f, before they are combined. */
  method ResultantResidues(f: seq<I8>, primes: seq<SmallPrime>, logn: nat) returns (x: array<U32>, ghost rows: seq<seq<U32>>, ghost polys: seq<Poly>)
    requires 1 <= logn <= 10 && |f| == Pow2(logn) && PrimeList(primes)
    ensures fresh(x) && x.Length == MaxBl(logn) <= |primes| && rows == [x[..]] && |polys| == MaxBl(logn)
    ensures Holds(rows, polys, primes, 0, 0, MaxBl(logn), false) && Reduced(x[..], primes[..MaxBl(logn)])
    ensures AllFit(f, primes, logn, logn) ==> AllSame(polys, NormDown(f, logn, logn))
  {
    hide Holds, PrimeList, AllFit, AllSame, MaxBl, NormDown, Reduced;
    PrimeCount(primes);
    assert Pow2(0) == 1;
    var xs;
    xs, polys := MakeFg(f, primes, logn, logn, false);
    x := xs[0];
    rows := Rows(xs);
    RowResidues(rows, polys, primes, 0, MaxBl(logn), 0);
  }

  /** The two resultants as big integers. */
  method RebuildResultants(f: seq<I8>, g: seq<I8>, primes: seq<SmallPrime>, logn: nat) returns (fp: array<U32>, gp: array<U32>)
    requires 1 <= logn <= 10 && |f| == |g| == Pow2(logn) && PrimeList(primes)
    ensures fresh(fp) && fresh(gp) && fp != gp && fp.Length == gp.Length == MaxBl(logn) && Limbs(fp[..]) && Limbs(gp[..])
    ensures WellSized(f, primes, logn) ==> Num(fp[..]) == Resultant(f, logn)
    ensures WellSized(g, primes, logn) ==> Num(gp[..]) == Resultant(g, logn)
    ensures WellSized(f, primes, logn) && WellSized(g, primes, logn) && (Eval(f, 1) + Eval(g, 1)) % 2 == 1
            ==> fp[0] % 2 + gp[0] % 2 == 1
  {
    hide *;
    GoodOf(primes);
    SomeWords(logn);
    var k := MaxBl(logn);
    ghost var rows, rows', fPolys, gPolys;
    fp, rows, fPolys := ResultantResidues(f, primes, logn);
    gp, rows', gPolys := ResultantResidues(g, primes, logn);
    GoodPrefix(primes, k);
    var both, residues := [fp, gp], [rows[0], rows'[0]];
    assert both[0] == fp && both[1] == gp;
    ZintRebuildCRT(both, primes[..k], false, residues);
    RebuiltResultant(both[0][..], rows, f, primes, logn, fPolys);
    RebuiltResultant(both[1][..], rows', g, primes, logn, gPolys);
    OneOperandOdd(both[0][..], both[1][..], f, g, logn);
  }

  /** Opposite parities of f and g leave exactly one of the rebuilt resultants with an odd lowest word. */
  lemma OneOperandOdd(fp: seq<int>, gp: seq<int>, f: Poly, g: Poly, logn: nat)
    requires |f| == |g| == Pow2(logn) && |fp| >= 1 && |gp| >= 1 && Limbs(fp) && Limbs(gp)
    ensures Num(fp) == Resultant(f, logn) && Num(gp) == Resultant(g, logn) && (Eval(f, 1) + Eval(g, 1)) % 2 == 1
            ==> fp[0] % 2 + gp[0] % 2 == 1
  {
    hide *;
    ParityOfWords(fp);
    ParityOfWords(gp);
    ResultantParity(f, logn);
    ResultantParity(g, logn);
  }

  lemma SomeWords(logn: nat)
    requires logn <= 10
    ensures MaxBl(logn) >= 1
  {}

  lemma GoodOf(primes: seq<SmallPrime>)
    requires PrimeList(primes)
    ensures GoodPrimes(primes)
  {}
}
