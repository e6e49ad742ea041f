/** Deterministic signatures with a fixed salt, and their format conversion, as in crypto/deterministic.c. */
module Deterministic {
  import opened Words
  import opened Arrays
  import opened Residues
  import opened Polynomials
  import opened Formats
  import opened FixedCodecs
  import opened CompressedCodec
  import opened SignatureSize
  import opened HashToPoint
  import opened Norms
  import opened Verify
  import opened FalconVerify
  import opened NttTree
  import opened Convolution
  import opened Mq
  import opened MqTransform
  import opened MqInverse
  import opened MqPoly
  import opened Recovery

  const COMPRESSED_HEADER: U8 := 0xB9
  const CT_HEADER: U8 := 0xD9

  /** The size of a constant-time signature without its salt. */
  const DET_CT_SIZE: nat := 770

  const VERIFY_TMP: nat := 4097

  /** The fixed salt of a version: version, degree, domain separator, zeros. */
  function Salt(version: U8): (r: seq<U8>)
    ensures |r| == 40
  {
    [version, 9] + [0x46, 0x41, 0x4C, 0x43, 0x4F, 0x4E, 0x5F, 0x44, 0x45, 0x54] + seq(28, i => 0)
  }

  /** Byte 0 of the salt is the version, byte 1 the degree; then come the domain separator and zeros. */
  lemma SaltBytes(version: U8, i: nat)
    requires i < 40
    ensures Salt(version)[i] ==
      if i == 0 then version else if i == 1 then 9 else if i < 12 then "FALCON_DET"[i - 2] as int else 0
  {}

  /** The salt tells versions apart. */
  lemma SaltTellsVersion(v: U8, w: U8)
    requires Salt(v) == Salt(w)
    ensures v == w
  {
    SaltBytes(v, 0);
    SaltBytes(w, 0);
  }

  /** The salted form of an unsalted signature. */
  function Resalt(sig: seq<U8>): (r: seq<U8>)
    requires |sig| >= 2
    ensures |r| == |sig| + 39
  {
    [sig[0] % 0x80] + Salt(sig[1]) + sig[2..]
  }

  /** What signing returns for a salted signature: the marked header, the version and the body. */
  function Unsalt(salted: seq<U8>, version: U8): (r: seq<U8>)
    requires |salted| >= 41 && salted[0] < 0x80
  {
    [salted[0] + 0x80, version] + salted[41..]
  }

  /** Adding the salt back undoes the removal that signing makes. */
  lemma ResaltUnsalt(salted: seq<U8>, version: U8)
    requires |salted| >= 41 && salted[0] < 0x80 && salted[1..41] == Salt(version)
    ensures Resalt(Unsalt(salted, version)) == salted
  {
    hide Salt;
    var u := Unsalt(salted, version);
    assert u[2..] == salted[41..];
    assert salted == [salted[0]] + salted[1..41] + salted[41..];
  }

  lemma ResaltParts(sig: seq<U8>)
    requires |sig| >= 2
    ensures Resalt(sig)[0] == sig[0] % 0x80 && Resalt(sig)[1..41] == Salt(sig[1]) && Resalt(sig)[41..] == sig[2..]
  {}

  /** The samples that verification hashes from a signature. */
  function SamplesFor(sig: seq<U8>, data: seq<U8>, xof: seq<U8> -> seq<U16>): seq<U16>
    requires |sig| >= 2
  {
    xof(Resalt(sig)[1..41] + data)
  }

  ghost predicate CompressedVerifies(sig: seq<U8>, pubkey: seq<U8>, data: seq<U8>, xof: seq<U8> -> seq<U16>) {
    && |sig| >= 2 && sig[0] == COMPRESSED_HEADER && |sig| + 39 <= CompressedMaxSize(9)
    && Verifies(Resalt(sig), 1, pubkey, VERIFY_TMP, SamplesFor(sig, data, xof))
  }

  ghost predicate CtVerifies(sig: seq<U8>, pubkey: seq<U8>, data: seq<U8>, xof: seq<U8> -> seq<U16>)
    requires |sig| == DET_CT_SIZE
  {
    sig[0] == CT_HEADER && Verifies(Resalt(sig), 3, pubkey, VERIFY_TMP, SamplesFor(sig, data, xof))
  }

  method VerifyCompressed(sig: seq<U8>, pubkey: seq<U8>, data: seq<U8>, xof: seq<U8> -> seq<U16>) returns (r: int)
    requires |sig| >= 2 && sig[0] == COMPRESSED_HEADER && |sig| + 39 <= CompressedMaxSize(9) ==>
      Sampled(SamplesFor(sig, data, xof), 9, false)
    ensures r == 0 <==> CompressedVerifies(sig, pubkey, data, xof)
    ensures |sig| < 2 || sig[0] != COMPRESSED_HEADER || |sig| + 39 > CompressedMaxSize(9) ==> r == ERR_BADSIG
  {
    hide Verifies, Sampled, Salt, Decodes;
    if |sig| < 2 { return ERR_BADSIG; }
    if sig[0] != COMPRESSED_HEADER { return ERR_BADSIG; }
    var saltedLen := |sig| + 40 - 1;
    if saltedLen > CompressedMaxSize(9) { return ERR_BADSIG; }
    r := VerifySignature(Resalt(sig), 1, pubkey, data, VERIFY_TMP, xof);
  }

  method VerifyCt(sig: seq<U8>, pubkey: seq<U8>, data: seq<U8>, xof: seq<U8> -> seq<U16>) returns (r: int)
    requires |sig| == DET_CT_SIZE && (sig[0] == CT_HEADER ==> Sampled(SamplesFor(sig, data, xof), 9, true))
    ensures r == 0 <==> CtVerifies(sig, pubkey, data, xof)
    ensures sig[0] != CT_HEADER ==> r == ERR_BADSIG
  {
    hide Verifies, Sampled, Salt, Decodes;
    if sig[0] != CT_HEADER { return ERR_BADSIG; }
    r := VerifySignature(Resalt(sig), 3, pubkey, data, VERIFY_TMP, xof);
  }

  /** ct is the conversion of sig: same version, same vector x, decoded from the first k bytes of the body. */
  ghost predicate Converted(sig: seq<U8>, ct: seq<U8>, x: seq<int>, k: nat) {
    && |sig| >= 2 && sig[0] == COMPRESSED_HEADER && |x| == Pow2(9) && k <= |sig| - 2
    && |ct| == DET_CT_SIZE && ct[0] == CT_HEADER && ct[1] == sig[1]
    && Encodes(Compressed, x, sig[2..][..k]) && Encodes(Trim(12), x, ct[2..])
  }

  lemma CompressedFitsTrim(x: seq<int>)
    requires AllInRange(Compressed, x)
    ensures AllInRange(Trim(12), x)
  {
    Pow2Values();
    Pow2Add(1, 10);
    forall i | 0 <= i < |x| ensures InRange(Trim(12), x[i]) { assert InRange(Compressed, x[i]); }
  }

  lemma DetSizes()
    ensures MaxSigBits(9) == 12 && CtSize(9) == 809 && PubkeySize(9) == 897 && Pow2(9) == 512
    ensures PackedSize(512, 12) == 768 && CompressedMaxSize(9) == 752
  {
    hide Pow2, CompressedMaxSize;
    Pow2Values();
    MaxSizeValue(9);
  }

  /**
   Conversion of a compressed signature to the constant-time format. It fails exactly if the
   header is wrong or no prefix of the body decodes.
   */
  method ConvertCompressedToCt(sigCt: array<U8>, sig: seq<U8>) returns (r: int)
    requires |sig| >= 2 && sigCt.Length == DET_CT_SIZE
    modifies sigCt
    ensures r == 0 ==> exists x: seq<int>, k: nat :: Converted(sig, sigCt[..], x, k)
    ensures r != 0 && sig[0] == COMPRESSED_HEADER ==>
      forall x: seq<int>, k: nat :: |x| == Pow2(9) && k <= |sig| - 2 ==> !Encodes(Compressed, x, sig[2..][..k])
  {
    hide Encodes, Pow2;
    DetSizes();
    if sig[0] != COMPRESSED_HEADER { return ERR_BADSIG; }
    var coeffs := new I16[Pow2(9)];
    var v := CompDecode(coeffs, 9, sig[2..]);
    if v == 0 { return ERR_SIZE; }
    ghost var x: seq<int> := coeffs[..];
    var body := new U8[DET_CT_SIZE - 2];
    EncodesRange(Compressed, x, sig[2..][..v]);
    CompressedFitsTrim(x);
    var w := FixedEncode(Trim(12), body, coeffs[..], 9);
    if w == 0 { return ERR_SIZE; }
    assert body[..768] == body[..];
    CopyBody(sigCt, body[..]);
    sigCt[0] := CT_HEADER;
    sigCt[1] := sig[1];
    assert sigCt[2..] == body[..];
    assert Converted(sig, sigCt[..], x, v);
    r := 0;
  }

  method CopyBody(sigCt: array<U8>, body: seq<U8>)
    requires sigCt.Length == |body| + 2
    modifies sigCt
    ensures sigCt[2..] == body
  {
    var i := 0;
    while i < |body|
      invariant 0 <= i <= |body| && forall k :: 2 <= k < i + 2 ==> sigCt[k] == body[k - 2]
    {
      sigCt[i + 2] := body[i];
      i := i + 1;
    }
  }

  lemma EncodesRange(f: Format, x: seq<int>, bytes: seq<U8>)
    requires Encodes(f, x, bytes)
    ensures AllInRange(f, x)
  {}

  // ---- Both formats carry the same verdict ----

  /** What both verdicts come down to: the key decodes and the vector is a valid signature. */
  ghost predicate Accepts(pubkey: seq<U8>, s2: seq<int>, samples: seq<U16>, h: seq<int>) {
    && |pubkey| == 897 && pubkey[0] == 9 && |h| == |s2| == Pow2(9) && EnoughAt(samples, 9)
    && Encodes(Modq, h, pubkey[1..]) && |Accepted(samples)| >= Pow2(9) && Valid(PointOf(samples, 9), s2, h, 9)
  }

  /** An unsalted signature in one of the two formats verifies exactly if its vector is accepted. */
  lemma VerdictOfVector(sig: seq<U8>, ct: bool, pubkey: seq<U8>, samples: seq<U16>)
    requires |sig| >= 2 && sig[0] == (if ct then CT_HEADER else COMPRESSED_HEADER) && (ct ==> |sig| == DET_CT_SIZE)
    ensures Verifies(Resalt(sig), if ct then 3 else 1, pubkey, VERIFY_TMP, samples) <==>
      exists h: seq<int>, s2: seq<int> :: Accepts(pubkey, s2, samples, h) && Encodes(if ct then Trim(12) else Compressed, s2, sig[2..])
  {
    hide Encodes, Valid, Accepted, PointOf, EnoughAt, Pow2, Salt, Resalt;
    var t, salted := if ct then 3 else 1, Resalt(sig);
    ResaltParts(sig);
    DetSizes();
    assert 8 * 512 + 1 == VERIFY_TMP;
    EnoughAtMeaning(samples, 9);
    if Verifies(salted, t, pubkey, VERIFY_TMP, samples) {
      var logn: nat, c: bool, h: seq<int>, s2: seq<int> :|
        Shape(salted, t, pubkey, VERIFY_TMP, logn, c) && EnoughAt(samples, logn) && ValidUnder(salted, t, pubkey, samples, logn, c, h, s2);
      assert logn == 9 && c == ct;
      WholeBody(sig[2..], s2, ct);
      assert Accepts(pubkey, s2, samples, h);
    }
    if h: seq<int>, s2: seq<int> :| Accepts(pubkey, s2, samples, h) && Encodes(if ct then Trim(12) else Compressed, s2, sig[2..]) {
      WholeBody(sig[2..], s2, ct);
      assert Shape(salted, t, pubkey, VERIFY_TMP, 9, ct);
      assert ValidUnder(salted, t, pubkey, samples, 9, ct, h, s2);
    }
  }

  /** Without padding, a body carries a vector exactly if all of it encodes the vector. */
  lemma WholeBody(body: seq<U8>, s2: seq<int>, ct: bool)
    ensures Body(body, s2, 9, ct, false) <==> Encodes(if ct then Trim(12) else Compressed, s2, body)
  {
    hide Encodes;
    assert body[..|body|] == body;
    if !ct && Encodes(Compressed, s2, body) {
      assert CompressedBody(body, s2, false, |body|);
    }
  }

  /** A valid vector has an encoding that fits the compressed format. */
  lemma ValidFits(body: seq<U8>, s2: seq<int>, c: Poly, h: Poly)
    requires |c| == |s2| == |h| == Pow2(9) && Encodes(Compressed, s2, body) && Valid(c, s2, h, 9)
    ensures |body| <= 711
  {
    hide Encodes, SquaredNorm, Encoding, NegatedS1, Pow2, CompressedMaxSize;
    EncodesRange(Compressed, s2, body);
    DetSizes();
    AcceptableFits(s2, 9);
    OneEncoding(Compressed, s2, body, body);
  }

  /**
   Converting a compressed signature to the constant-time format keeps the verdict, for every
   byte string whose body the decoder consumes entirely; a body with bytes left over is
   rejected before conversion and judged by its vector afterwards.
   */
  lemma ConversionKeepsVerdict(sig: seq<U8>, ct: seq<U8>, x: seq<int>, k: nat, pubkey: seq<U8>, data: seq<U8>, xof: seq<U8> -> seq<U16>)
    requires Converted(sig, ct, x, k)
    ensures CompressedVerifies(sig, pubkey, data, xof) <==> CtVerifies(ct, pubkey, data, xof) && k == |sig| - 2
  {
    hide Encodes, Valid, Accepted, PointOf, EnoughAt, Pow2, Salt, Resalt, Verifies, CompressedMaxSize;
    ResaltParts(sig);
    ResaltParts(ct);
    DetSizes();
    var samples := SamplesFor(sig, data, xof);
    assert samples == SamplesFor(ct, data, xof);
    VerdictOfVector(sig, false, pubkey, samples);
    VerdictOfVector(ct, true, pubkey, samples);
    var body := sig[2..];
    assert body[..|body|] == body;
    if CompressedVerifies(sig, pubkey, data, xof) {
      var h: seq<int>, s2: seq<int> :| Accepts(pubkey, s2, samples, h) && Encodes(Compressed, s2, body);
      CompressedBodyMeaning(body, s2, false, |body|);
      CompressedBodyUnique(body, x, k, s2, false, |body|);
    }
    if CtVerifies(ct, pubkey, data, xof) && k == |sig| - 2 {
      var h: seq<int>, s2: seq<int> :| Accepts(pubkey, s2, samples, h) && Encodes(Trim(12), s2, ct[2..]);
      EncodesOneVector(Trim(12), s2, x, ct[2..]);
      EnoughAtMeaning(samples, 9);
      ValidFits(body, x, PointOf(samples, 9), h);
    }
  }

  /** A signature that cannot be converted does not verify. */
  lemma UnconvertibleFails(sig: seq<U8>, pubkey: seq<U8>, data: seq<U8>, xof: seq<U8> -> seq<U16>)
    requires |sig| >= 2
    requires forall x: seq<int>, k: nat :: |x| == Pow2(9) && k <= |sig| - 2 ==> !Encodes(Compressed, x, sig[2..][..k])
    ensures !CompressedVerifies(sig, pubkey, data, xof)
  {
    hide Encodes, Valid, Accepted, PointOf, EnoughAt, Pow2, Salt, Resalt, Verifies, CompressedMaxSize;
    var samples := SamplesFor(sig, data, xof);
    assert sig[2..][..|sig| - 2] == sig[2..];
    if sig[0] == COMPRESSED_HEADER {
      VerdictOfVector(sig, false, pubkey, samples);
    }
  }

  // ---- Coefficients for external verifiers ----

  /** The vector of a constant-time signature. */
  method S2Coeffs(s2: array<I16>, sig: seq<U8>) returns (r: int)
    requires s2.Length == Pow2(9) && |sig| == DET_CT_SIZE
    modifies s2
    ensures r == 0 ==> sig[0] == CT_HEADER && Encodes(Trim(12), s2[..], sig[2..])
    ensures r != 0 ==> sig[0] != CT_HEADER || forall y: seq<int> :: |y| == Pow2(9) ==> !Encodes(Trim(12), y, sig[2..])
  {
    hide Encodes, Pow2;
    DetSizes();
    if sig[0] != CT_HEADER { return ERR_FORMAT; }
    var v := TrimDecode(s2, 9, 12, sig[2..]);
    assert sig[2..][..768] == sig[2..];
    if v != DET_CT_SIZE - 2 { return ERR_FORMAT; }
    r := 0;
  }

  /** The residues of c - t, as the source computes them word by word. */
  method SubtractFrom(c: seq<U16>, t: array<U16>)
    requires t.Length == |c|
    modifies t
    ensures Canonical(c, 12289) && Canonical(old(t[..]), 12289) ==>
      t[..] == SubResidues(c, old(t[..])) && Canonical(t[..], 12289)
  {
    hide MqSub, Wrap16;
    ghost var t0 := t[..];
    var u := 0;
    while u < |c|
      invariant 0 <= u <= |c|
      invariant forall x :: u <= x < |c| ==> t[x] == t0[x]
      invariant forall x :: 0 <= x < u ==> t[x] == Wrap16(MqSub(c[x], t0[x]))
    {
      t[u] := Wrap16(MqSub(c[u], t[u]));
      u := u + 1;
    }
    if Canonical(c, 12289) && Canonical(t0, 12289) {
      SubWords(c, t0, t[..]);
      CanonicalResults(c, t0);
    }
  }

  lemma CenteredOfFirst(p: int, c: int)
    ensures Centered((c - p % 12289) % 12289) == Centered(c - p)
  {
    hide *;
    CongMod(p, 12289);
    CongMod(c - p % 12289, 12289);
    CongRefl(c, 12289);
    CongSub(c, c, p % 12289, p, 12289);
    CongTrans((c - p % 12289) % 12289, c - p % 12289, c - p, 12289);
    CenteredUnique((c - p % 12289) % 12289, c - p);
  }

  /** The words of the loops, in range, end with the centred residues of c - s2 * h. */
  lemma FirstHalfMeaning(c: Poly, s2: Poly, h: Poly, r: seq<I16>, logn: nat)
    requires logn <= 10 && |c| == |s2| == |h| == |r| == Pow2(logn) && Canonical(h, Q)
    requires var t := MqTables();
      var v := Pointwise(Forward(t, Reduce(s2, Q), logn), Forward(t, h, logn), Q);
      var w := SubResidues(c, Backward(t, v, logn, InvN(logn)));
      forall i :: 0 <= i < |r| ==> r[i] == Centered(w[i])
    ensures r == CenteredS1(c, s2, h)
  {
    hide Forward, Backward, Product, Pointwise, InvN, MqTables, Centered, Reduce, SubResidues;
    MultiplyByKey(s2, h, logn);
    var p := Product(s2, h);
    forall i | 0 <= i < |r| ensures r[i] == CenteredS1(c, s2, h)[i] {
      DifferenceEntry(c, p, i);
      CenteredOfFirst(p[i], c[i]);
    }
  }

  lemma DifferenceEntry(c: Poly, p: Poly, i: nat)
    requires |c| == |p| && i < |c|
    ensures SubResidues(c, Reduce(p, Q))[i] == (c[i] - p[i] % 12289) % 12289
  {}

  /** The two halves that signing and verification compute differ by their sign only. */
  lemma SameNorm(c: Poly, s2: Poly, h: Poly)
    requires |c| == |s2| == |h| > 0
    ensures SquaredNorm(CenteredS1(c, s2, h)) == SquaredNorm(NegatedS1(c, s2, h))
  {
    hide Product, Centered, SquaredNorm;
    var a: Poly, b: Poly := CenteredS1(c, s2, h), NegatedS1(c, s2, h);
    forall i | 0 <= i < |a| ensures a[i] * a[i] == b[i] * b[i] {
      CenteredNegate(Product(s2, h)[i] - c[i]);
      SquareOfNegative(a[i], b[i]);
    }
    NormMonotone(a, b);
    NormMonotone(b, a);
  }

  lemma SquareOfNegative(x: int, y: int)
    requires x == -y
    ensures x * x == y * y
  {}

  /**
   The first half of the signature vector. It succeeds exactly when verification accepts (c, s2, h),
   and then it is the centred c - s2 * h.
   */
  method S1Coeffs(s1: array<I16>, h: seq<U16>, c: seq<U16>, s2: seq<I16>) returns (r: int)
    requires s1.Length == |h| == |c| == |s2| == Pow2(9) && Canonical(h, 12289) && Canonical(c, 12289)
    modifies s1
    ensures r == 0 <==> Valid(c, s2, h, 9)
    ensures r == 0 ==> s1[..] == CenteredS1(c, s2, h)
  {
    hide Forward, Backward, Product, MqTables, ToMontySeq, SubResidues, NegatedS1, CenteredS1, Reduce, InvN, Pointwise, PreparedKey, Centered, Canonical, SquaredNorm, MontyProducts, Pow2;
    PreparedMeaning(h, 9);
    var hNtt := new U16[Pow2(9)];
    CopyFrom(hNtt, h);
    ToNttMonty(hNtt, 9);
    var tt := ReduceSmall(s2);
    MqNtt(tt, 9);
    ghost var u := tt[..];
    MqPolyMulNtt(tt, hNtt[..]);
    if Canonical(u, Q) { PointwiseWords(u, Forward(MqTables(), h, 9), tt[..]); }
    MqIntt(tt, 9);
    SubtractFrom(c, tt);
    var t := CenterWords(tt[..]);
    CopyFrom(s1, t[..]);
    var short := IsShort(s1[..], s2, 9);
    SameNorm(c, s2, h);
    if forall i :: 0 <= i < |s2| ==> -12289 < s2[i] < 12289 {
      FirstHalfMeaning(c, s2, h, s1[..], 9);
    } else {
      TooLong(s2, 9);
    }
    r := if short then 0 else ERR_BADSIG;
  }
}
