/**
 Hashing to a vector of residues: the rejection loop, and the constant-time form that
 oversamples and squeezes out the rejected samples, as in crypto/common.c. The 16-bit
 samples come from an extendable-output function that is not modelled here.
 */
module HashToPoint {
  import opened Words
  import opened Residues

  /** What the oversampling loop stores for a sample: its residue, or 0xFFFF for a rejected one. */
  function Stored(w: U16): U16 {
    var w1 := if w < 24578 then w else w - 24578;
    var w2 := if w1 < 24578 then w1 else w1 - 24578;
    var w3 := if w2 < 12289 then w2 else w2 - 12289;
    if w < 61445 then w3 else 0xFFFF
  }

  lemma StoredMeaning(w: U16)
    ensures Stored(w) == if w < 61445 then w % 12289 else 0xFFFF
  {}

  /** A stored value counts when its top bit is clear. */
  predicate Kept(w: U16) { w < 0x8000 }

  function AllStored(samples: seq<U16>): (r: seq<U16>)
    ensures |r| == |samples|
  {
    seq(|samples|, i requires 0 <= i < |samples| => Stored(samples[i]))
  }

  /** The values that count, in order. */
  function Squeeze(a: seq<U16>): (r: seq<U16>)
    ensures |r| <= |a|
  {
    if |a| == 0 then []
    else Squeeze(a[..|a| - 1]) + (if Kept(a[|a| - 1]) then [a[|a| - 1]] else [])
  }

  /** The residues that a stream of samples yields. */
  function Accepted(samples: seq<U16>): seq<U16> { Squeeze(AllStored(samples)) }

  // ---- The rejection loop ----

  lemma SqueezeAppend(a: seq<U16>, w: U16)
    ensures Squeeze(a + [w]) == Squeeze(a) + (if Kept(w) then [w] else [])
  {
    assert (a + [w])[..|a|] == a;
  }

  lemma SqueezeStep(a: seq<U16>, i: nat)
    requires i < |a|
    ensures Squeeze(a[..i + 1]) == Squeeze(a[..i]) + (if Kept(a[i]) then [a[i]] else [])
  {
    assert a[..i + 1] == a[..i] + [a[i]];
    SqueezeAppend(a[..i], a[i]);
  }

  lemma AcceptedStep(samples: seq<U16>, u: nat)
    requires u < |samples|
    ensures Accepted(samples[..u + 1]) ==
      Accepted(samples[..u]) + (if samples[u] < 61445 then [samples[u] % 12289] else [])
  {
    hide Squeeze, Stored;
    assert AllStored(samples[..u + 1]) == AllStored(samples[..u]) + [Stored(samples[u])];
    SqueezeAppend(AllStored(samples[..u]), Stored(samples[u]));
    StoredMeaning(samples[u]);
  }

  /** Reading more samples only appends. */
  lemma {:induction false} AcceptedPrefix(samples: seq<U16>, u: nat)
    requires u <= |samples|
    ensures Accepted(samples[..u]) <= Accepted(samples)
    decreases |samples| - u
  {
    hide Accepted;
    if u == |samples| {
      assert samples[..u] == samples;
    } else {
      AcceptedStep(samples, u);
      AcceptedPrefix(samples, u + 1);
    }
  }

  /** Reduction by repeated subtraction. */
  method SubtractQ(w: U16) returns (r: U16)
    ensures r == w % 12289
  {
    r := w;
    ghost var k := 0;
    while r >= 12289
      invariant 0 <= k && w as int == r as int + 12289 * k
    {
      r := r - 12289;
      k := k + 1;
    }
  }

  /** The straightforward loop: it takes the first n accepted residues of the stream. */
  method HashToPointVartime(x: array<U16>, samples: seq<U16>) returns (used: nat)
    requires |Accepted(samples)| >= x.Length
    modifies x
    ensures x[..] == Accepted(samples)[..x.Length]
    ensures used <= |samples| && Accepted(samples[..used]) == x[..]
  {
    hide Accepted;
    used := 0;
    var i := 0;
    AcceptedPrefix(samples, 0);
    AcceptedNone(samples);
    assert samples[..|samples|] == samples;
    while i < x.Length
      invariant 0 <= i <= x.Length && used <= |samples|
      invariant x[..i] == Accepted(samples[..used]) <= Accepted(samples)
      decreases |samples| - used
    {
      var w := samples[used];
      AcceptedStep(samples, used);
      AcceptedPrefix(samples, used + 1);
      used := used + 1;
      if w < 61445 {
        var r := SubtractQ(w);
        x[i] := r;
        assert x[..i + 1] == x[..i] + [r];
        i := i + 1;
      }
    }
    assert x[..i] == x[..];
  }

  lemma AcceptedNone(samples: seq<U16>)
    ensures Accepted(samples[..0]) == []
  {}

  // ---- One pass of the compaction network ----

  lemma {:induction false} SqueezeConcat(a: seq<U16>, b: seq<U16>)
    ensures Squeeze(a + b) == Squeeze(a) + Squeeze(b)
    decreases |b|
  {
    if |b| == 0 {
      assert a + b == a;
    } else {
      var b', w := b[..|b| - 1], b[|b| - 1];
      SqueezeConcat(a, b');
      SqueezeAppend(a + b', w);
      assert (a + b') + [w] == a + b;
    }
  }

  lemma {:induction false} SqueezeNothing(a: seq<U16>)
    requires forall i :: 0 <= i < |a| ==> !Kept(a[i])
    ensures Squeeze(a) == []
  {
    if |a| > 0 { SqueezeNothing(a[..|a| - 1]); }
  }

  /** How far the value at i has to move down: the number of rejected values before it. */
  function Jump(a: seq<U16>, i: nat): (j: nat)
    requires i <= |a|
  {
    i - |Squeeze(a[..i])|
  }

  /** All kept values below u have to move by multiples of p. */
  ghost predicate Aligned(a: seq<U16>, u: nat, p: nat) {
    u <= |a| && p > 0 && forall i :: 0 <= i < u && Kept(a[i]) ==> Jump(a, i) % p == 0
  }

  /** The displacement bit p of a multiple of p. */
  lemma DisplacementBit(j: nat, p: nat)
    requires p > 0 && j % p == 0
    ensures (j / p) % 2 == 0 ==> j % (2 * p) == 0
    ensures (j / p) % 2 == 1 ==> j % (2 * p) == p && j >= p && (j - p) % (2 * p) == 0
  {
    var q := j / p;
    var h := q / 2;
    assert j == p * q;
    if q % 2 == 0 {
      assert p * q == h * (2 * p) by { assert q == 2 * h; MulAssoc(h, 2, p); }
      RemainderUnique(j, h, 0, 2 * p);
    } else {
      assert p * q == h * (2 * p) + p by { assert q == 2 * h + 1; MulAssoc(h, 2, p); MulAdd(p, 2 * h, 1); }
      RemainderUnique(j, h, p, 2 * p);
      RemainderUnique(j - p, h, 0, 2 * p);
    }
  }

  lemma SmallOffset(d: nat, e: nat, p: nat)
    requires p > 0 && d % (2 * p) == 0 && e < p
    ensures (d + e) % (2 * p) == e
  {
    var q := d / (2 * p);
    assert d == (2 * p) * q;
    assert d == q * (2 * p);
    RemainderUnique(d + e, q, e, 2 * p);
  }

  /** If the value at u must jump by p, the p slots below it are all free. */
  lemma {:induction false} SlotsFree(a: seq<U16>, u: nat, p: nat, i: nat)
    requires p > 0 && u <= |a| && Aligned(a, u, 2 * p) && Jump(a, u) % (2 * p) == p && p <= u && u - p <= i <= u
    ensures forall k :: i <= k < u ==> !Kept(a[k])
    ensures Jump(a, i) == Jump(a, u) - (u - i)
    decreases u - i
  {
    hide Squeeze;
    if i < u {
      SlotsFree(a, u, p, i + 1);
      SqueezeStep(a, i);
      if Kept(a[i]) {
        assert Jump(a, i) + (u - 1 - i) == Jump(a, u);
        SmallOffset(Jump(a, i), u - 1 - i, p);
        assert false;
      }
    }
  }

  /** The array after exchanging the entries at u - p and u. */
  function AfterSwap(a: seq<U16>, u: nat, p: nat): (b: seq<U16>)
    requires 0 < p <= u < |a|
    ensures |b| == |a|
  {
    a[u := a[u - p]][u - p := a[u]]
  }

  lemma SwapPrefix(a: seq<U16>, u: nat, p: nat)
    requires 0 < p <= u < |a|
    ensures var b := AfterSwap(a, u, p);
      && b[..u - p] == a[..u - p] && b[u + 1..] == a[u + 1..]
      && b[..u + 1] == a[..u - p] + ([a[u]] + a[u - p + 1..u] + [a[u - p]])
      && a[..u + 1] == a[..u - p] + ([a[u - p]] + a[u - p + 1..u] + [a[u]])
      && b == b[..u + 1] + b[u + 1..] && a == a[..u + 1] + a[u + 1..]
  {}

  lemma SqueezeOne(w: U16)
    ensures Squeeze([w]) == if Kept(w) then [w] else []
  {
    SqueezeAppend([], w);
    assert [] + [w] == [w];
  }

  /** Moving a kept value over free slots keeps the sequence of kept values. */
  lemma SwapSqueeze(a: seq<U16>, u: nat, p: nat)
    requires 0 < p <= u < |a| && Kept(a[u]) && forall k :: u - p <= k < u ==> !Kept(a[k])
    ensures var b := AfterSwap(a, u, p);
      Squeeze(b[..u + 1]) == Squeeze(a[..u + 1]) == Squeeze(a[..u - p]) + [a[u]] && Squeeze(b) == Squeeze(a)
  {
    hide *;
    var b := AfterSwap(a, u, p);
    SwapPrefix(a, u, p);
    var head, mid := a[..u - p], a[u - p + 1..u];
    SqueezeNothing(mid);
    SqueezeNothing([a[u - p]]);
    SqueezeOne(a[u]);
    SqueezeThree([a[u]], mid, [a[u - p]]);
    SqueezeThree([a[u - p]], mid, [a[u]]);
    SqueezeConcat(head, [a[u]] + mid + [a[u - p]]);
    SqueezeConcat(head, [a[u - p]] + mid + [a[u]]);
    SqueezeConcat(b[..u + 1], b[u + 1..]);
    SqueezeConcat(a[..u + 1], a[u + 1..]);
  }

  lemma SqueezeThree(a: seq<U16>, b: seq<U16>, c: seq<U16>)
    requires Squeeze(b) == []
    ensures Squeeze(a) == [] ==> Squeeze(a + b + c) == Squeeze(c)
    ensures Squeeze(c) == [] ==> Squeeze(a + b + c) == Squeeze(a)
  {
    hide Squeeze;
    SqueezeConcat(a + b, c);
    SqueezeConcat(a, b);
    assert Squeeze(a) + [] == Squeeze(a);
  }

  /**
   The state of a pass before step u: below u the jumps are multiples of 2p, from u on the array is
   untouched and the jumps are multiples of p, and no kept value was lost or moved past another.
   */
  ghost predicate InPass(a0: seq<U16>, a: seq<U16>, u: nat, p: nat, v: nat) {
    && |a| == |a0| && u <= |a| && p > 0 && v == |Squeeze(a[..u])|
    && a[u..] == a0[u..] && Squeeze(a) == Squeeze(a0) && Squeeze(a[..u]) == Squeeze(a0[..u])
    && Aligned(a0, |a0|, p) && Aligned(a, u, 2 * p)
  }

  lemma PassStart(a: seq<U16>, p: nat)
    requires Aligned(a, |a|, p)
    ensures InPass(a, a, 0, p, 0)
  {}

  lemma {:induction false} AlignedPrefix(a: seq<U16>, b: seq<U16>, n: nat, u: nat, q: nat)
    requires n <= u <= |a| == |b| && a[..n] == b[..n] && Aligned(a, n, q)
    requires forall i :: n <= i < u && Kept(b[i]) ==> Jump(b, i) % q == 0
    ensures Aligned(b, u, q)
  {
    hide Squeeze;
    forall i | 0 <= i < u && Kept(b[i]) ensures Jump(b, i) % q == 0 {
      if i < n {
        assert b[i] == b[..n][i] == a[..n][i] == a[i];
        assert b[..i] == b[..n][..i] == a[..n][..i] == a[..i];
      }
    }
  }

  /** What step u does to the array. */
  function Stepped(a: seq<U16>, u: nat, p: nat, v: nat): (b: seq<U16>)
    requires 0 < p && u < |a| && v <= u
    ensures |b| == |a|
  {
    if p <= u && Kept(a[u]) && ((u - v) / p) % 2 == 1 then AfterSwap(a, u, p) else a
  }

  lemma InPassWord(a0: seq<U16>, a: seq<U16>, u: nat, p: nat, v: nat)
    requires InPass(a0, a, u, p, v) && u < |a|
    ensures a[u] == a0[u] && v <= u && Jump(a, u) == u - v == Jump(a0, u)
    ensures Kept(a[u]) ==> (u - v) % p == 0
  {
    assert a[u] == a[u..][0] && a0[u] == a0[u..][0];
  }

  lemma {:induction false} PassStep(a0: seq<U16>, a: seq<U16>, u: nat, p: nat, v: nat)
    requires InPass(a0, a, u, p, v) && u < |a|
    ensures v <= u && InPass(a0, Stepped(a, u, p, v), u + 1, p, if Kept(a[u]) then v + 1 else v)
  {
    hide Squeeze;
    InPassWord(a0, a, u, p, v);
    SqueezeStep(a, u);
    SqueezeStep(a0, u);
    var b := Stepped(a, u, p, v);
    assert a[u + 1..] == a[u..][1..] && a0[u + 1..] == a0[u..][1..];
    if !Kept(a[u]) {
      AlignedPrefix(a, a, u, u + 1, 2 * p);
    } else {
      DisplacementBit(u - v, p);
      if ((u - v) / p) % 2 == 1 {
        SlotsFree(a, u, p, u - p);
        SwapSqueeze(a, u, p);
        SwapPrefix(a, u, p);
        SwappedAligned(a, u, p);
      } else {
        AlignedPrefix(a, a, u, u + 1, 2 * p);
      }
    }
  }

  lemma {:induction false} SwappedAligned(a: seq<U16>, u: nat, p: nat)
    requires 0 < p <= u < |a| && Kept(a[u]) && Aligned(a, u, 2 * p)
    requires forall k :: u - p <= k < u ==> !Kept(a[k])
    requires Jump(a, u - p) % (2 * p) == 0
    ensures Aligned(AfterSwap(a, u, p), u + 1, 2 * p)
  {
    hide Squeeze;
    SwapPrefix(a, u, p);
    var b := AfterSwap(a, u, p);
    AlignedShorter(a, u - p, u, 2 * p);
    AlignedPrefix(a, b, u - p, u + 1, 2 * p);
  }

  lemma AlignedShorter(a: seq<U16>, n: nat, u: nat, q: nat)
    requires n <= u && Aligned(a, u, q)
    ensures Aligned(a, n, q)
  {}

  lemma PassEnd(a0: seq<U16>, a: seq<U16>, p: nat, v: nat)
    requires InPass(a0, a, |a|, p, v)
    ensures Aligned(a, |a|, 2 * p) && Squeeze(a) == Squeeze(a0)
  {}

  lemma AlignedByOne(a: seq<U16>)
    ensures Aligned(a, |a|, 1)
  {}

  // ---- After all passes ----

  /** Kept values that need not move fill the front of the array. */
  lemma {:induction false} FrontFilled(a: seq<U16>, p: nat, i: nat)
    requires Aligned(a, |a|, p) && |a| - |Squeeze(a)| < p && i <= |Squeeze(a)|
    ensures a[..i] == Squeeze(a)[..i] == Squeeze(a[..i])
  {
    hide Squeeze;
    if i == 0 {
      SqueezeEmpty(a);
    } else {
      FrontFilled(a, p, i - 1);
      SqueezeStep(a, i - 1);
      SqueezeSplit(a, i);
      assert a[..|a|] == a;
      if !Kept(a[i - 1]) {
        NothingAfter(a, p, i, |a|);
      }
    }
  }

  /** Once a slot is free, no later value counts: it would have to move. */
  lemma {:induction false} NothingAfter(a: seq<U16>, p: nat, i: nat, k: nat)
    requires Aligned(a, |a|, p) && |a| - |Squeeze(a)| < p && i <= k <= |a| && |Squeeze(a[..i])| < i
    ensures Squeeze(a[..k]) == Squeeze(a[..i])
    decreases k
  {
    hide Squeeze;
    if i < k {
      NothingAfter(a, p, i, k - 1);
      SqueezeStep(a, k - 1);
      if Kept(a[k - 1]) {
        JumpSmall(a, k - 1);
        SmallMod(Jump(a, k - 1), p);
      }
    }
  }

  /** With fewer than n kept values, the first n entries are not all kept. */
  lemma {:induction false} AllKept(a: seq<U16>)
    requires forall k :: 0 <= k < |a| ==> Kept(a[k])
    ensures Squeeze(a) == a
  {
    if |a| > 0 { AllKept(a[..|a| - 1]); }
  }

  lemma SqueezeEmpty(a: seq<U16>)
    ensures Squeeze(a[..0]) == []
  {}

  /** The kept values of a prefix are a prefix of the kept values. */
  lemma SqueezeSplit(a: seq<U16>, i: nat)
    requires i <= |a|
    ensures Squeeze(a[..i]) <= Squeeze(a) && |Squeeze(a)| - |Squeeze(a[..i])| <= |a| - i
  {
    SqueezeConcat(a[..i], a[i..]);
    assert a[..i] + a[i..] == a;
  }

  lemma JumpSmall(a: seq<U16>, i: nat)
    requires i <= |a|
    ensures Jump(a, i) <= |a| - |Squeeze(a)|
  {
    SqueezeSplit(a, i);
  }

  lemma SmallMod(j: nat, p: nat)
    requires p > 0 && j < p && j % p == 0
    ensures j == 0
  {}

  // ---- The three segments of storage ----

  /** Entry u of the samples, spread over x, tt1 and tt2. */
  function Cell(x: array<U16>, tt1: array<U16>, tt2: array<U16>, u: nat): U16
    requires u < x.Length + tt1.Length + tt2.Length && tt1.Length == x.Length
    reads x, tt1, tt2
  {
    if u < x.Length then x[u]
    else if u < 2 * x.Length then tt1[u - x.Length]
    else tt2[u - 2 * x.Length]
  }

  ghost predicate Segments(x: array<U16>, tt1: array<U16>, tt2: array<U16>) {
    x != tt1 && x != tt2 && tt1 != tt2 && tt1.Length == x.Length && tt2.Length == 63
  }

  /** The storage holds the sequence a. */
  ghost predicate Segmented(x: array<U16>, tt1: array<U16>, tt2: array<U16>, a: seq<U16>)
    reads x, tt1, tt2
  {
    && Segments(x, tt1, tt2) && |a| <= x.Length + tt1.Length + tt2.Length
    && forall u :: 0 <= u < |a| ==> Cell(x, tt1, tt2, u) == a[u]
  }

  method ReadCell(x: array<U16>, tt1: array<U16>, tt2: array<U16>, u: nat, ghost a: seq<U16>) returns (w: U16)
    requires Segmented(x, tt1, tt2, a) && u < |a|
    ensures w == a[u]
  {
    if u < x.Length { w := x[u]; }
    else if u < 2 * x.Length { w := tt1[u - x.Length]; }
    else { w := tt2[u - 2 * x.Length]; }
    assert w == Cell(x, tt1, tt2, u);
  }

  method WriteCell(x: array<U16>, tt1: array<U16>, tt2: array<U16>, u: nat, w: U16, ghost a: seq<U16>)
    requires Segmented(x, tt1, tt2, a) && u < |a|
    modifies x, tt1, tt2
    ensures Segmented(x, tt1, tt2, a[u := w])
  {
    StoreCell(x, tt1, tt2, u, w);
  }

  method StoreCell(x: array<U16>, tt1: array<U16>, tt2: array<U16>, u: nat, w: U16)
    requires Segments(x, tt1, tt2) && u < x.Length + tt1.Length + tt2.Length
    modifies x, tt1, tt2
    ensures forall k :: 0 <= k < x.Length + tt1.Length + tt2.Length ==>
      Cell(x, tt1, tt2, k) == if k == u then w else old(Cell(x, tt1, tt2, k))
  {
    if u < x.Length { x[u] := w; }
    else if u < 2 * x.Length { tt1[u - x.Length] := w; }
    else { tt2[u - 2 * x.Length] := w; }
  }

  /** The number of extra samples that are drawn, by the logarithm of the degree. */
  function Over(logn: nat): nat
    requires 1 <= logn <= 10
  {
    [0, 65, 67, 71, 77, 86, 100, 122, 154, 205, 287][logn]
  }

  /** All the samples fit the three segments. */
  lemma StorageFits(logn: nat)
    requires 1 <= logn <= 10
    ensures Pow2(logn) + Over(logn) <= 2 * Pow2(logn) + 63 && Over(logn) < 512
  {
    hide Pow2;
    Pow2Values();
  }

  /** One pass over the storage, with jumps by p. */
  method CompactPass(x: array<U16>, tt1: array<U16>, tt2: array<U16>, m: nat, p: nat, ghost a0: seq<U16>) returns (ghost a: seq<U16>)
    requires Segmented(x, tt1, tt2, a0) && |a0| == m && 1 <= p <= 512 && Aligned(a0, m, p)
    modifies x, tt1, tt2
    ensures Segmented(x, tt1, tt2, a) && |a| == m && Aligned(a, m, 2 * p) && Squeeze(a) == Squeeze(a0)
  {
    hide Squeeze, Segmented, InPass, Aligned, Stepped;
    a := a0;
    PassStart(a0, p);
    var v := 0;
    var u := 0;
    while u < m
      invariant 0 <= u <= m == |a| && 0 <= v <= u
      invariant Segmented(x, tt1, tt2, a) && InPass(a0, a, u, p, v)
    {
      var sv := ReadCell(x, tt1, tt2, u, a);
      PassStep(a0, a, u, p, v);
      ghost var next := Stepped(a, u, p, v);
      SteppedMeaning(a, u, p, v);
      var j := u - v;
      if Kept(sv) { v := v + 1; }
      if p <= u {
        var dv := ReadCell(x, tt1, tt2, u - p, a);
        var mk := Kept(sv) && ((if (j / p) % 2 == 1 then p else 0) + 0x1FF) / 512 == 1;
        WriteCell(x, tt1, tt2, u, if mk then dv else sv, a);
        WriteCell(x, tt1, tt2, u - p, if mk then sv else dv, a[u := if mk then dv else sv]);
        assert a[u := if mk then dv else sv][u - p := if mk then sv else dv] == next;
      }
      a := next;
      u := u + 1;
    }
    PassEnd(a0, a, p, v);
  }

  lemma SteppedMeaning(a: seq<U16>, u: nat, p: nat, v: nat)
    requires 0 < p && u < |a| && v <= u
    ensures Stepped(a, u, p, v) == if p <= u && Kept(a[u]) && ((u - v) / p) % 2 == 1 then a[u := a[u - p]][u - p := a[u]] else a
  {}

  /**
   The constant-time form. It returns the first n accepted residues of the stream whenever there
   are that many among the first n + over samples; otherwise it leaves a rejected value in x.
   */
  method HashToPointCt(x: array<U16>, tt1: array<U16>, samples: seq<U16>, logn: nat)
    requires 1 <= logn <= 10 && x.Length == tt1.Length == Pow2(logn) && x != tt1
    requires |samples| >= Pow2(logn) + Over(logn)
    modifies x, tt1
    ensures var found := Accepted(samples[..Pow2(logn) + Over(logn)]);
      if |found| >= x.Length then x[..] == found[..x.Length] else exists i :: 0 <= i < x.Length && !Kept(x[i])
  {
    hide Squeeze, Segmented, Aligned, Stored;
    var n := Pow2(logn);
    var over := Over(logn);
    var m := n + over;
    StorageFits(logn);
    var tt2 := new U16[63];
    var u := 0;
    while u < m
      invariant 0 <= u <= m
      invariant Segments(x, tt1, tt2) && forall k :: 0 <= k < u ==> Cell(x, tt1, tt2, k) == Stored(samples[k])
    {
      StoreCell(x, tt1, tt2, u, Stored(samples[u]));
      u := u + 1;
    }
    ghost var first := AllStored(samples[..m]);
    SegmentedIntro(x, tt1, tt2, first);
    AlignedByOne(first);
    ghost var a := first;
    var p := 1;
    while p <= over
      invariant 1 <= p <= 512 && |a| == m
      invariant Segmented(x, tt1, tt2, a) && Aligned(a, m, p) && Squeeze(a) == Squeeze(first)
      invariant p in {1, 2, 4, 8, 16, 32, 64, 128, 256, 512}
      decreases 512 - p
    {
      a := CompactPass(x, tt1, tt2, m, p, a);
      p := 2 * p;
    }
    FinishedFront(x, tt1, tt2, a, n, p);
  }

  lemma SegmentedIntro(x: array<U16>, tt1: array<U16>, tt2: array<U16>, a: seq<U16>)
    requires Segments(x, tt1, tt2) && |a| <= x.Length + tt1.Length + tt2.Length
    requires forall u :: 0 <= u < |a| ==> Cell(x, tt1, tt2, u) == a[u]
    ensures Segmented(x, tt1, tt2, a)
  {}

  lemma FinishedFront(x: array<U16>, tt1: array<U16>, tt2: array<U16>, a: seq<U16>, n: nat, p: nat)
    requires Segmented(x, tt1, tt2, a) && n == x.Length <= |a| && |a| - n < p && Aligned(a, |a|, p)
    ensures |Squeeze(a)| >= n ==> x[..] == Squeeze(a)[..n]
    ensures |Squeeze(a)| < n ==> exists i :: 0 <= i < n && !Kept(x[i])
  {
    hide Squeeze, Aligned;
    forall i | 0 <= i < n ensures x[i] == a[i] { assert Cell(x, tt1, tt2, i) == a[i]; }
    assert x[..] == a[..n];
    if |Squeeze(a)| >= n {
      FrontFilled(a, p, n);
    } else if forall i :: 0 <= i < n ==> Kept(x[i]) {
      AllKept(a[..n]);
      SqueezeSplit(a, n);
    }
  }

  /** The accepted residues are below q, so a rejected value never appears among them. */
  lemma {:induction false} AcceptedAreKept(samples: seq<U16>, u: nat)
    requires u <= |samples|
    ensures forall i :: 0 <= i < |Accepted(samples[..u])| ==> Accepted(samples[..u])[i] < 12289
  {
    hide Accepted;
    if u == 0 {
      AcceptedNone(samples);
    } else {
      AcceptedAreKept(samples, u - 1);
      AcceptedStep(samples, u - 1);
    }
  }

  /** The two forms agree exactly when the first n + over samples hold n accepted values. */
  lemma FormsAgree(samples: seq<U16>, m: nat, n: nat, ct: seq<U16>, vartime: seq<U16>)
    requires m <= |samples| && |Accepted(samples)| >= n && |ct| == n && vartime == Accepted(samples)[..n]
    requires var found := Accepted(samples[..m]);
      if |found| >= n then ct == found[..n] else exists i :: 0 <= i < n && !Kept(ct[i])
    ensures ct == vartime <==> |Accepted(samples[..m])| >= n
  {
    hide Accepted;
    AcceptedPrefix(samples, m);
    if |Accepted(samples[..m])| < n {
      AcceptedAreKept(samples, |samples|);
      assert samples[..|samples|] == samples;
      var i :| 0 <= i < n && !Kept(ct[i]);
      assert vartime[i] < 12289;
    }
  }
}
