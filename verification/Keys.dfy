/** Public keys, completion of private keys and public-key recovery, as in crypto/vrfy.c. */
module Keys {
  import opened Words
  import opened Arrays
  import opened Residues
  import opened Polynomials
  import opened Convolution
  import opened Mq
  import opened MqDivision
  import opened MqTransform
  import opened MqInverse
  import opened Division

  /** Signed 8-bit coefficients as residues. */
  method ConvSmall(f: seq<I8>) returns (r: array<U16>)
    ensures fresh(r) && r.Length == |f|
    ensures r[..] == Reduce(f, 12289) && Canonical(r[..], 12289)
  {
    r := new U16[|f|];
    var u := 0;
    while u < |f|
      invariant u <= |f|
      invariant forall x :: 0 <= x < u ==> r[x] == (f[x] as int) % 12289
    {
      r[u] := Wrap16(MqConvSmall(f[u]));
      u := u + 1;
    }
    assert r[..] == Reduce(f, 12289);
  }

  /** The pointwise division loop: it stops at the first zero divisor. */
  method DividePointwise(h: array<U16>, d: seq<U16>) returns (ok: bool)
    requires h.Length == |d|
    modifies h
    ensures ok <==> forall i :: 0 <= i < |d| ==> d[i] != 0
    ensures ok ==> Quotients(h[..], old(h[..]), d)
  {
    hide MqDiv;
    ghost var h0 := h[..];
    var u := 0;
    while u < |d|
      invariant u <= |d|
      invariant forall i :: 0 <= i < u ==> d[i] != 0 && h[i] == Wrap16(MqDiv(h0[i], d[i]))
      invariant forall i :: u <= i < |d| ==> h[i] == h0[i]
    {
      if d[u] == 0 {
        return false;
      }
      h[u] := Wrap16(MqDiv(h[u], d[u]));
      u := u + 1;
    }
    ok := true;
  }

  /** The words d are the transform of f. */
  lemma TransformNonzero(f: Poly, d: seq<U16>, logn: nat)
    requires logn <= 10 && |f| == Pow2(logn) && d == Forward(MqTables(), Reduce(f, 12289), logn)
    ensures (forall i :: 0 <= i < |d| ==> d[i] != 0) <==> NonzeroEverywhere(f, logn)
    ensures forall i :: 0 <= i < |d| ==> d[i] == Value(MqTables(), f, logn, i) % 12289
  {
    hide Forward, Value, Reduce, MqTables;
    ModulusIsQ();
    MqReady(logn);
    forall i | 0 <= i < |d| ensures d[i] == Value(MqTables(), f, logn, i) % 12289 {
      ForwardValue(MqTables(), f, logn, i);
    }
  }

  /** The words v are pointwise quotients of the words e by the words d. */
  ghost predicate Quotients(v: seq<U16>, e: seq<U16>, d: seq<U16>) {
    |v| == |e| == |d| && forall i :: 0 <= i < |v| ==> v[i] == Wrap16(MqDiv(e[i], d[i]))
  }

  lemma QuotientWords(v: seq<U16>, e: seq<U16>, d: seq<U16>)
    requires Quotients(v, e, d) && Canonical(e, 12289) && Canonical(d, 12289)
    ensures Canonical(v, 12289) && forall i :: 0 <= i < |v| ==> v[i] == MqDiv(e[i], d[i])
  {
    hide MqDiv;
    forall i | 0 <= i < |v| ensures 0 <= v[i] < 12289 && v[i] == MqDiv(e[i], d[i]) {
      MqDivMeaning(e[i], d[i]);
    }
  }

  /** Pointwise division of transforms and transforming back divides the polynomials. */
  lemma DivideTransforms(f: Poly, g: Poly, d: seq<U16>, e: seq<U16>, v: seq<U16>, logn: nat)
    requires logn <= 10 && |f| == |g| == |v| == Pow2(logn) && NonzeroEverywhere(f, logn)
    requires d == Forward(MqTables(), Reduce(f, 12289), logn) && e == Forward(MqTables(), Reduce(g, 12289), logn)
    requires Canonical(d, 12289) && Canonical(e, 12289) && Quotients(v, e, d)
    ensures Canonical(v, 12289)
    ensures var u := Backward(MqTables(), v, logn, InvN(logn)); Canonical(u, 12289) && IsQuotient(u, g, f)
  {
    hide Forward, Value, Backward, MqTables, IsQuotient, MqDiv, Reduce, InvN, Cong, Quotients;
    ModulusIsQ();
    TransformNonzero(f, d, logn);
    TransformNonzero(g, e, logn);
    QuotientWords(v, e, d);
    BackwardMeaning(v, logn);
    var u := Backward(MqTables(), v, logn, InvN(logn));
    forall i | 0 <= i < Pow2(logn)
      ensures Cong(Value(MqTables(), f, logn, i) * Value(MqTables(), u, logn, i), Value(MqTables(), g, logn, i), 12289)
    {
      DividedValue(f, g, v, u, logn, i);
    }
    QuotientFromValues(u, g, f, logn);
  }

  /** Computes h = g / f. It fails exactly when f is not invertible. */
  method ComputePublic(h: array<U16>, f: seq<I8>, g: seq<I8>, logn: nat) returns (ok: bool)
    requires 1 <= logn <= 10 && |f| == |g| == h.Length == Pow2(logn)
    modifies h
    ensures ok <==> NonzeroEverywhere(f, logn)
    ensures ok ==> Canonical(h[..], 12289) && IsQuotient(h[..], g, f)
  {
    hide Forward, MqTables, NonzeroEverywhere, IsQuotient, MqDiv, Reduce, Backward, InvN;
    ModulusIsQ();
    var tt := ConvSmall(f);
    var gg := ConvSmall(g);
    CopyFrom(h, gg[..]);
    MqNtt(h, logn);
    MqNtt(tt, logn);
    ghost var e := h[..];
    TransformNonzero(f, tt[..], logn);
    ok := DividePointwise(h, tt[..]);
    if !ok { return; }
    DivideTransforms(f, g, tt[..], e, h[..], logn);
    MqIntt(h, logn);
  }
}
