/** Parsing and verification of encoded signatures, as in crypto/falcon.c. */
module FalconVerify {
  import opened Words
  import opened Polynomials
  import opened BitStrings
  import opened Formats
  import opened FixedCodecs
  import opened CompressedCodec
  import opened HashToPoint
  import opened SignatureSize
  import opened Verify

  const ERR_SIZE: int := -2
  const ERR_FORMAT: int := -3
  const ERR_BADSIG: int := -4
  const ERR_BADARG: int := -5

  /** Bits per coefficient in the constant-time format. */
  function MaxSigBits(logn: nat): nat
    requires 1 <= logn <= 10
  {
    [0, 10, 11, 11, 12, 12, 12, 12, 12, 12, 12][logn]
  }

  function PubkeySize(logn: nat): nat
    requires 1 <= logn <= 10
  {
    (if logn <= 1 then 4 else 7 * Pow2(logn - 2)) + 1
  }

  function CtSize(logn: nat): nat
    requires 1 <= logn <= 10
  {
    var size := 3 * Pow2(logn - 1) + 41;
    if logn == 3 then size - 1 else size
  }

  function PaddedSize(logn: nat): int
    requires 1 <= logn <= 10
  {
    var j := 10 - logn;
    44 + 3 * Shr(256, j) + 2 * Shr(128, j) + 3 * Shr(64, j) + 2 * Shr(16, j) - 2 * Shr(2, j) - 8 * Shr(1, j)
  }

  /** The padded sizes at every degree; each is at most that of the longest compressed signature. */
  lemma PaddedSizes(logn: nat)
    requires 1 <= logn <= 10
    ensures PaddedSize(logn) == [0, 44, 47, 52, 63, 82, 122, 200, 356, 666, 1280][logn]
    ensures PaddedSize(logn) <= CompressedMaxSize(logn)
  {
    hide *;
    MaxSizeValue(logn);
    PaddedValue(logn);
  }

  lemma PaddedValue(logn: nat)
    requires 1 <= logn <= 10
    ensures PaddedSize(logn) == [0, 44, 47, 52, 63, 82, 122, 200, 356, 666, 1280][logn]
  {
    hide *;
    var j := 10 - logn;
    Pow2Values();
    ShiftedPower(8, j);
    ShiftedPower(7, j);
    ShiftedPower(6, j);
    ShiftedPower(4, j);
    ShiftedPower(1, j);
    ShiftedPower(0, j);
    PowerZero();
    PaddedSum(logn);
  }

  lemma PaddedSum(logn: nat)
    requires 1 <= logn <= 10
    ensures var j := 10 - logn;
      PaddedSize(logn) == 44 + 3 * Shr(256, j) + 2 * Shr(128, j) + 3 * Shr(64, j) + 2 * Shr(16, j) - 2 * Shr(2, j) - 8 * Shr(1, j)
  {}

  /** A power of two shifted right is a smaller one, and then zero. */
  lemma {:induction false} ShiftedPower(k: nat, j: nat)
    ensures Shr(Pow2(k), j) == if j <= k then Pow2(k - j) else 0
    decreases j
  {
    if j > 0 {
      ShiftedPower(k, j - 1);
      ShrNext(Pow2(k), j - 1);
    }
  }

  /** The sizes are those of the encodings that the formats hold. */
  lemma SizesMatch(logn: nat)
    requires 1 <= logn <= 10
    ensures PubkeySize(logn) == PackedSize(Pow2(logn), 14) + 1
    ensures CtSize(logn) == PackedSize(Pow2(logn), MaxSigBits(logn)) + 41
  {
    hide Pow2, PackedSize;
    Pow2Values();
    PowerZero();
    SizeValues();
    if logn == 1 {
    } else if logn == 2 {
    } else if logn == 3 {
    } else if logn == 4 {
    } else if logn == 5 {
    } else if logn == 6 {
    } else if logn == 7 {
    } else if logn == 8 {
    } else if logn == 9 {
    } else {
    }
  }

  lemma SizeValues()
    ensures PackedSize(2, 10) == 3 && PackedSize(4, 11) == 6 && PackedSize(8, 11) == 11 && PackedSize(16, 12) == 24
    ensures PackedSize(32, 12) == 48 && PackedSize(64, 12) == 96 && PackedSize(128, 12) == 192 && PackedSize(256, 12) == 384
    ensures PackedSize(512, 12) == 768 && PackedSize(1024, 12) == 1536
    ensures PackedSize(2, 14) == 4 && PackedSize(4, 14) == 7 && PackedSize(8, 14) == 14 && PackedSize(16, 14) == 28
    ensures PackedSize(32, 14) == 56 && PackedSize(64, 14) == 112 && PackedSize(128, 14) == 224 && PackedSize(256, 14) == 448
    ensures PackedSize(512, 14) == 896 && PackedSize(1024, 14) == 1792
  {}

  lemma PowerZero()
    ensures Pow2(0) == 1
  {}

  /** Which headers and lengths each signature type allows; ct says that the body has fixed width. */
  ghost predicate TypeAllows(sigType: int, high: nat, len: nat, logn: nat, ct: bool)
    requires 1 <= logn <= 10
  {
    if ct then high == 5 && len == CtSize(logn) && (sigType == 0 || sigType == 3)
    else high == 3 && (sigType == 0 || sigType == 1 || (sigType == 2 && len == PaddedSize(logn)))
  }

  /** Zero bytes may follow the encoded vector. */
  ghost predicate Padded(sigType: int, len: nat, logn: nat)
    requires 1 <= logn <= 10
  {
    sigType == 2 || (sigType == 0 && len == PaddedSize(logn))
  }

  /** Headers and lengths are consistent. */
  ghost predicate Headers(sig: seq<U8>, sigType: int, pubkey: seq<U8>, logn: nat, ct: bool) {
    && |sig| >= 41 && 1 <= logn <= 10 && |pubkey| == PubkeySize(logn) && pubkey[0] == logn && sig[0] % 16 == logn
    && TypeAllows(sigType, sig[0] / 16, |sig|, logn, ct)
  }

  /** Headers, lengths and workspace are consistent. */
  ghost predicate Shape(sig: seq<U8>, sigType: int, pubkey: seq<U8>, tmpLen: nat, logn: nat, ct: bool) {
    Headers(sig, sigType, pubkey, logn, ct) && tmpLen >= 8 * Pow2(logn) + 1
  }

  /** Everything but the workspace is consistent. */
  ghost predicate Cramped(sig: seq<U8>, sigType: int, pubkey: seq<U8>, tmpLen: nat) {
    exists logn: nat, ct: bool :: Headers(sig, sigType, pubkey, logn, ct) && tmpLen < 8 * Pow2(logn) + 1
  }

  /** The key announces a degree. */
  predicate HasDegree(pubkey: seq<U8>) { |pubkey| > 0 && 1 <= pubkey[0] <= 10 }

  /** The degrees of key and signature differ, or the header is that of no format where any is allowed. */
  predicate Mismatch(sig: seq<U8>, sigType: int, pubkey: seq<U8>) {
    && |sig| >= 41 && HasDegree(pubkey)
    && (sig[0] % 16 != pubkey[0] || (sigType == 0 && sig[0] / 16 != 3 && sig[0] / 16 != 5))
  }

  /** The requested type is none of the four. */
  predicate UnknownType(sig: seq<U8>, sigType: int, pubkey: seq<U8>) {
    |sig| >= 41 && HasDegree(pubkey) && sig[0] % 16 == pubkey[0] && !(0 <= sigType <= 3)
  }

  /** The body of a signature encodes s2. */
  ghost predicate Body(body: seq<U8>, s2: seq<int>, logn: nat, ct: bool, padded: bool)
    requires 1 <= logn <= 10
  {
    if ct then Encodes(Trim(MaxSigBits(logn)), s2, body)
    else exists k: nat :: CompressedBody(body, s2, padded, k)
  }

  ghost predicate CompressedBody(body: seq<U8>, s2: seq<int>, padded: bool, k: nat) {
    && k <= |body| && Encodes(Compressed, s2, body[..k]) && (k < |body| ==> padded)
    && forall i :: k <= i < |body| ==> body[i] == 0
  }

  /** Enough accepted samples for the form that the format asks for. */
  ghost predicate Sampled(samples: seq<U16>, logn: nat, ct: bool)
    requires 1 <= logn <= 10
  {
    if ct then EnoughSamples(samples, logn) else |Accepted(samples)| >= Pow2(logn)
  }

  /** Enough accepted samples among those that the constant-time form draws. */
  ghost predicate EnoughSamples(samples: seq<U16>, logn: nat)
    requires 1 <= logn <= 10
  {
    |samples| >= Pow2(logn) + Over(logn) && |Accepted(samples[..Pow2(logn) + Over(logn)])| >= Pow2(logn)
  }

  /** The hashed message: the first accepted residues. */
  ghost function PointOf(samples: seq<U16>, logn: nat): (c: Poly)
    requires |Accepted(samples)| >= Pow2(logn)
    ensures |c| == Pow2(logn)
  {
    Accepted(samples)[..Pow2(logn)]
  }

  lemma EnoughMeaning(samples: seq<U16>, logn: nat)
    requires 1 <= logn <= 10 && EnoughSamples(samples, logn)
    ensures |samples| >= Pow2(logn) + Over(logn) && |Accepted(samples)| >= Pow2(logn)
    ensures |Accepted(samples[..Pow2(logn) + Over(logn)])| >= Pow2(logn)
    ensures Accepted(samples[..Pow2(logn) + Over(logn)])[..Pow2(logn)] == PointOf(samples, logn)
  {
    hide Accepted;
    AcceptedPrefix(samples, Pow2(logn) + Over(logn));
  }

  lemma PointCanonical(samples: seq<U16>, logn: nat)
    requires |Accepted(samples)| >= Pow2(logn)
    ensures Canonical(PointOf(samples, logn), 12289)
  {
    hide Accepted;
    AcceptedAreKept(samples, |samples|);
    assert samples[..|samples|] == samples;
  }

  /** A key and a vector that the bytes encode, for which the vector is a valid signature. */
  ghost predicate ValidUnder(sig: seq<U8>, sigType: int, pubkey: seq<U8>, samples: seq<U16>, logn: nat, ct: bool, h: seq<int>, s2: seq<int>)
    requires |Accepted(samples)| >= Pow2(logn)
  {
    Carries(sig, sigType, pubkey, logn, ct, h, s2) && Valid(PointOf(samples, logn), s2, h, logn)
  }

  /** The verdict on a byte string, stated without reference to how it is parsed. */
  ghost predicate Verifies(sig: seq<U8>, sigType: int, pubkey: seq<U8>, tmpLen: nat, samples: seq<U16>) {
    exists logn: nat, ct: bool, h: seq<int>, s2: seq<int> ::
      Shape(sig, sigType, pubkey, tmpLen, logn, ct) && EnoughAt(samples, logn)
      && ValidUnder(sig, sigType, pubkey, samples, logn, ct, h, s2)
  }

  /** The key and the vector can be decoded. */
  ghost predicate Decodes(sig: seq<U8>, sigType: int, pubkey: seq<U8>, tmpLen: nat) {
    exists logn: nat, ct: bool, h: seq<int>, s2: seq<int> ::
      Shape(sig, sigType, pubkey, tmpLen, logn, ct) && Carries(sig, sigType, pubkey, logn, ct, h, s2)
  }

  ghost predicate Carries(sig: seq<U8>, sigType: int, pubkey: seq<U8>, logn: nat, ct: bool, h: seq<int>, s2: seq<int>) {
    && 1 <= logn <= 10 && |sig| >= 41 && |pubkey| >= 1 && |h| == |s2| == Pow2(logn) && Encodes(Modq, h, pubkey[1..])
    && Body(sig[41..], s2, logn, ct, Padded(sigType, |sig|, logn))
  }

  ghost predicate EnoughAt(samples: seq<U16>, logn: nat) { |Accepted(samples)| >= Pow2(logn) }

  // ---- Parsing ----

  method ParseHeaders(sig: seq<U8>, sigType: int, pubkey: seq<U8>, tmpLen: nat) returns (r: int, logn: nat, ct: bool)
    ensures r == 0 ==> Shape(sig, sigType, pubkey, tmpLen, logn, ct)
    ensures r == 0 ==> forall l: nat, c: bool :: Shape(sig, sigType, pubkey, tmpLen, l, c) ==> l == logn && c == ct
    ensures r != 0 ==> forall l: nat, c: bool :: !Shape(sig, sigType, pubkey, tmpLen, l, c)
    ensures r == ERR_SIZE <==> Cramped(sig, sigType, pubkey, tmpLen)
    ensures r == ERR_BADSIG <==> Mismatch(sig, sigType, pubkey)
    ensures r == ERR_BADARG <==> UnknownType(sig, sigType, pubkey)
    ensures r == 0 || r == ERR_SIZE || r == ERR_BADSIG || r == ERR_BADARG || r == ERR_FORMAT
  {
    hide Pow2, PaddedSize, CtSize;
    logn, ct := 1, false;
    if |sig| < 41 || |pubkey| == 0 { return ERR_FORMAT, logn, ct; }
    if pubkey[0] / 16 != 0 { return ERR_FORMAT, logn, ct; }
    var l := pubkey[0] % 16;
    if l < 1 || l > 10 { return ERR_FORMAT, logn, ct; }
    logn := l;
    if sig[0] % 16 != logn { return ERR_BADSIG, logn, ct; }
    var high := sig[0] / 16;
    if sigType == 0 {
      if high == 3 {
      } else if high == 5 {
        if |sig| != CtSize(logn) { return ERR_FORMAT, logn, ct; }
        ct := true;
      } else {
        return ERR_BADSIG, logn, ct;
      }
    } else if sigType == 1 {
      if high != 3 { return ERR_FORMAT, logn, ct; }
    } else if sigType == 2 {
      if high != 3 { return ERR_FORMAT, logn, ct; }
      if |sig| != PaddedSize(logn) { return ERR_FORMAT, logn, ct; }
    } else if sigType == 3 {
      if high != 5 { return ERR_FORMAT, logn, ct; }
      if |sig| != CtSize(logn) { return ERR_FORMAT, logn, ct; }
      ct := true;
    } else {
      return ERR_BADARG, logn, ct;
    }
    if |pubkey| != PubkeySize(logn) { return ERR_FORMAT, logn, ct; }
    assert Headers(sig, sigType, pubkey, logn, ct);
    if tmpLen < 8 * Pow2(logn) + 1 { return ERR_SIZE, logn, ct; }
    r := 0;
  }

  /** The vector and the length of a compressed body are determined by its bytes. */
  lemma CompressedBodyUnique(body: seq<U8>, x: seq<int>, r: nat, y: seq<int>, padded: bool, k: nat)
    requires |x| == |y| && r <= |body| && Encodes(Compressed, x, body[..r]) && CompressedBody(body, y, padded, k)
    ensures x == y && r == k
  {
    hide *;
    CompressedBodyMeaning(body, y, padded, k);
    var i := EncodedFront(Compressed, x, body, r);
    var j := EncodedFront(Compressed, y, body, k);
    UniqueDecoding(Compressed, x, ZeroBits(i) + Unpack(body[r..]), y, ZeroBits(j) + Unpack(body[k..]));
  }

  lemma CompressedBodyMeaning(body: seq<U8>, s2: seq<int>, padded: bool, k: nat)
    ensures CompressedBody(body, s2, padded, k) <==>
      && k <= |body| && Encodes(Compressed, s2, body[..k]) && (k < |body| ==> padded)
      && forall i :: k <= i < |body| ==> body[i] == 0
  {}

  lemma CompressedBodyNone(body: seq<U8>, n: nat, padded: bool)
    requires forall y: seq<int>, k: nat :: |y| == n && k <= |body| ==> !Encodes(Compressed, y, body[..k])
    ensures forall y: seq<int>, k: nat :: |y| == n ==> !CompressedBody(body, y, padded, k)
  {
    hide Encodes;
    forall y: seq<int>, k: nat | |y| == n ensures !CompressedBody(body, y, padded, k) {
      if k <= |body| { assert !Encodes(Compressed, y, body[..k]); }
    }
  }

  /** The compressed body: the decoded prefix, and then zeros where padding is tolerated. */
  method DecodeCompressed(body: seq<U8>, logn: nat, padded: bool) returns (ok: bool, sv: array<I16>)
    requires 1 <= logn <= 10
    ensures fresh(sv) && sv.Length == Pow2(logn)
    ensures ok ==> exists k: nat :: CompressedBody(body, sv[..], padded, k)
    ensures ok ==> forall y: seq<int>, k: nat :: |y| == sv.Length && CompressedBody(body, y, padded, k) ==> y == sv[..]
    ensures !ok ==> forall y: seq<int>, k: nat :: |y| == sv.Length ==> !CompressedBody(body, y, padded, k)
  {
    hide Encodes, CompressedBody;
    sv := new I16[Pow2(logn)];
    var r := CompDecode(sv, logn, body);
    if r == 0 {
      CompressedBodyNone(body, sv.Length, padded);
      return false, sv;
    }
    ghost var x: seq<int> := sv[..];
    forall y: seq<int>, k: nat | |y| == sv.Length && CompressedBody(body, y, padded, k) ensures y == x && k == r {
      CompressedBodyUnique(body, x, r, y, padded, k);
    }
    var v := r;
    if v != |body| {
      if !padded {
        forall y: seq<int>, k: nat | |y| == sv.Length ensures !CompressedBody(body, y, padded, k) {
          CompressedBodyMeaning(body, y, padded, k);
        }
        return false, sv;
      }
      while v < |body|
        invariant r <= v <= |body| && sv[..] == x
        invariant forall i :: r <= i < v ==> body[i] == 0
      {
        if body[v] != 0 {
          forall y: seq<int>, k: nat | |y| == sv.Length ensures !CompressedBody(body, y, padded, k) {
            CompressedBodyMeaning(body, y, padded, k);
          }
          return false, sv;
        }
        v := v + 1;
      }
    }
    CompressedBodyMeaning(body, x, padded, r);
    ok := true;
  }

  /** The body in the format the header announced. */
  method DecodeBody(body: seq<U8>, logn: nat, ct: bool, padded: bool) returns (ok: bool, sv: array<I16>)
    requires 1 <= logn <= 10 && (ct ==> |body| + 41 == CtSize(logn))
    ensures fresh(sv) && sv.Length == Pow2(logn)
    ensures ok ==> Body(body, sv[..], logn, ct, padded)
    ensures ok ==> forall y: seq<int> :: |y| == sv.Length && Body(body, y, logn, ct, padded) ==> y == sv[..]
    ensures !ok ==> forall y: seq<int> :: |y| == sv.Length ==> !Body(body, y, logn, ct, padded)
  {
    hide Encodes, CompressedBody, CtSize, Pow2;
    if ct {
      sv := new I16[Pow2(logn)];
      var r := TrimDecode(sv, logn, MaxSigBits(logn), body);
      SizesMatch(logn);
      assert body[..|body|] == body;
      ok := r != 0;
      if ok {
        ghost var x: seq<int> := sv[..];
        forall y: seq<int> | |y| == sv.Length && Body(body, y, logn, ct, padded) ensures y == x {
          EncodesOneVector(Trim(MaxSigBits(logn)), y, x, body);
        }
      }
    } else {
      ok, sv := DecodeCompressed(body, logn, padded);
    }
  }

  /** The public key. */
  method DecodeKey(pubkey: seq<U8>, logn: nat) returns (ok: bool, h: array<U16>)
    requires 1 <= logn <= 10 && |pubkey| == PubkeySize(logn)
    ensures fresh(h) && h.Length == Pow2(logn)
    ensures ok ==> Encodes(Modq, h[..], pubkey[1..]) && Canonical(h[..], 12289)
    ensures ok ==> forall y: seq<int> :: |y| == h.Length && Encodes(Modq, y, pubkey[1..]) ==> y == h[..]
    ensures !ok ==> forall y: seq<int> :: |y| == h.Length ==> !Encodes(Modq, y, pubkey[1..])
  {
    hide Encodes, Pow2;
    SizesMatch(logn);
    h := new U16[Pow2(logn)];
    var r := ModqDecode(h, logn, pubkey[1..]);
    assert pubkey[1..][..|pubkey| - 1] == pubkey[1..];
    ok := r == |pubkey| - 1;
    if ok {
      ghost var x: seq<int> := h[..];
      ResiduesOf(x, pubkey[1..]);
      forall y: seq<int> | |y| == h.Length && Encodes(Modq, y, pubkey[1..]) ensures y == x {
        EncodesOneVector(Modq, y, x, pubkey[1..]);
      }
    }
  }

  lemma ResiduesOf(x: seq<int>, bytes: seq<U8>)
    requires Encodes(Modq, x, bytes)
    ensures Canonical(x, 12289)
  {
    forall i | 0 <= i < |x| ensures 0 <= x[i] < 12289 { assert InRange(Modq, x[i]); }
  }

  /** The hashed message, by the form that the format asks for. */
  method HashPoint(samples: seq<U16>, logn: nat, ct: bool) returns (hm: array<U16>)
    requires 1 <= logn <= 10 && Sampled(samples, logn, ct)
    ensures fresh(hm) && hm.Length == Pow2(logn) && EnoughAt(samples, logn)
    ensures hm[..] == PointOf(samples, logn) && Canonical(hm[..], 12289)
  {
    hide Accepted, EnoughSamples, Over;
    if ct { EnoughMeaning(samples, logn); }
    PointCanonical(samples, logn);
    hm := new U16[Pow2(logn)];
    if ct {
      var tmp := new U16[Pow2(logn)];
      HashToPointCt(hm, tmp, samples, logn);
    } else {
      var used := HashToPointVartime(hm, samples);
    }
  }

  /**
   Verification: succeeds exactly when the bytes verify, for every byte string, type and key. The other
   results tell the reasons for failure apart; what is left is malformed.
   */
  method VerifyFinish(sig: seq<U8>, sigType: int, pubkey: seq<U8>, tmpLen: nat, samples: seq<U16>) returns (r: int)
    requires forall logn: nat, ct: bool :: Shape(sig, sigType, pubkey, tmpLen, logn, ct) ==> Sampled(samples, logn, ct)
    ensures r == 0 <==> Verifies(sig, sigType, pubkey, tmpLen, samples)
    ensures r == ERR_SIZE <==> Cramped(sig, sigType, pubkey, tmpLen)
    ensures r == ERR_BADARG <==> UnknownType(sig, sigType, pubkey)
    ensures r == ERR_BADSIG <==>
      Mismatch(sig, sigType, pubkey) || (Decodes(sig, sigType, pubkey, tmpLen) && !Verifies(sig, sigType, pubkey, tmpLen, samples))
    ensures r == 0 || r == ERR_SIZE || r == ERR_BADSIG || r == ERR_BADARG || r == ERR_FORMAT
  {
    hide Encodes, Shape, Body, Valid, PreparedKey, Sampled, Accepted, Pow2, PointOf, EnoughAt, Cramped, Mismatch, UnknownType;
    var logn, ct;
    r, logn, ct := ParseHeaders(sig, sigType, pubkey, tmpLen);
    if r != 0 { return; }
    ShapeMeaning(sig, sigType, pubkey, tmpLen, logn, ct);
    var ok, h := DecodeKey(pubkey, logn);
    if !ok { return ERR_FORMAT; }
    var sv;
    var padded := sigType == 2 || (sigType == 0 && |sig| == PaddedSize(logn));
    ok, sv := DecodeBody(sig[41..], logn, ct, padded);
    if !ok { return ERR_FORMAT; }
    var hm := HashPoint(samples, logn, ct);
    ghost var key := h[..];
    ghost var s2 := sv[..];
    ToNttMonty(h, logn);
    var valid := VerifyRaw(hm[..], sv[..], h[..], logn, key);
    EnoughAtMeaning(samples, logn);
    assert Carries(sig, sigType, pubkey, logn, ct, key, s2);
    if valid {
      assert ValidUnder(sig, sigType, pubkey, samples, logn, ct, key, s2);
      return 0;
    }
    r := ERR_BADSIG;
  }

  lemma EnoughAtMeaning(samples: seq<U16>, logn: nat)
    ensures EnoughAt(samples, logn) <==> |Accepted(samples)| >= Pow2(logn)
  {}

  lemma ShapeMeaning(sig: seq<U8>, sigType: int, pubkey: seq<U8>, tmpLen: nat, logn: nat, ct: bool)
    requires Shape(sig, sigType, pubkey, tmpLen, logn, ct)
    ensures |sig| >= 41 && 1 <= logn <= 10 && |pubkey| == PubkeySize(logn) && pubkey[0] == logn && |pubkey| >= 1
    ensures ct ==> |sig| == CtSize(logn)
  {}

  /**
   The whole verification. The hash is any function from bytes to samples; it has to yield enough of
   them for this signature only.
   */
  method VerifySignature(sig: seq<U8>, sigType: int, pubkey: seq<U8>, data: seq<U8>, tmpLen: nat, xof: seq<U8> -> seq<U16>) returns (r: int)
    requires |sig| >= 41 ==> forall logn: nat, ct: bool ::
      Shape(sig, sigType, pubkey, tmpLen, logn, ct) ==> Sampled(xof(sig[1..41] + data), logn, ct)
    ensures r == 0 <==> |sig| >= 41 && Verifies(sig, sigType, pubkey, tmpLen, xof(sig[1..41] + data))
    ensures r == ERR_SIZE <==> Cramped(sig, sigType, pubkey, tmpLen)
    ensures r == ERR_BADARG <==> UnknownType(sig, sigType, pubkey)
    ensures r == ERR_BADSIG <==>
      || Mismatch(sig, sigType, pubkey)
      || (Decodes(sig, sigType, pubkey, tmpLen) && !Verifies(sig, sigType, pubkey, tmpLen, xof(sig[1..41] + data)))
    ensures r == 0 || r == ERR_SIZE || r == ERR_BADSIG || r == ERR_BADARG || r == ERR_FORMAT
  {
    hide Verifies, Sampled, Body;
    if |sig| < 41 { return ERR_FORMAT; }
    r := VerifyFinish(sig, sigType, pubkey, tmpLen, xof(sig[1..41] + data));
  }
}
