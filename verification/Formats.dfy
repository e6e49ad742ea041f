/**
 The encodings of crypto/codec.c as sets of bit strings: every vector of a format has one
 encoding, no two vectors share one, and an encoding is recognised from its front.
 */
module Formats {
  import opened Words
  import opened Residues
  import opened BitStrings

  /** Residues modulo q, signed integers of a fixed width, or the compressed form of signatures. */
  datatype Format = Modq | Trim(bits: nat) | Compressed

  /** The values that a format can represent. */
  predicate InRange(f: Format, v: int) {
    match f
    case Modq => 0 <= v < 12289
    case Trim(bits) => bits >= 1 && -(Pow2(bits - 1) as int) < v < Pow2(bits - 1)
    case Compressed => -2047 <= v <= 2047
  }

  /** The code word of one value. */
  function Code(f: Format, v: int): (b: Bits)
    requires InRange(f, v)
  {
    match f
    case Modq => ToBits(v, 14)
    case Trim(bits) => ToBits(TwosComplement(v, bits), bits)
    case Compressed => [if v < 0 then 1 else 0] + ToBits(Abs(v) % 128, 7) + ZeroBits(Abs(v) / 128) + [1]
  }

  /** The low bits of a signed integer. */
  function TwosComplement(v: int, bits: nat): (r: nat)
    requires -(Pow2(bits) as int) <= v
  {
    if v < 0 then v + Pow2(bits) else v
  }

  ghost predicate AllInRange(f: Format, x: seq<int>) {
    forall i :: 0 <= i < |x| ==> InRange(f, x[i])
  }

  /** The code words of a vector, one after the other. */
  ghost function Encoding(f: Format, x: seq<int>): Bits
    requires AllInRange(f, x)
  {
    if |x| == 0 then [] else Encoding(f, x[..|x| - 1]) + Code(f, x[|x| - 1])
  }

  /** The bytes hold the encoding of x, padded with fewer than 8 zero bits. */
  ghost predicate Encodes(f: Format, x: seq<int>, bytes: seq<U8>) {
    AllInRange(f, x) && exists k: nat :: k < 8 && Unpack(bytes) == Encoding(f, x) + ZeroBits(k)
  }

  lemma EncodingAppend(f: Format, x: seq<int>, v: int)
    requires AllInRange(f, x) && InRange(f, v)
    ensures AllInRange(f, x + [v]) && Encoding(f, x + [v]) == Encoding(f, x) + Code(f, v)
  {
    assert (x + [v])[..|x|] == x;
  }

  lemma EncodingStep(f: Format, x: seq<int>, u: nat)
    requires AllInRange(f, x) && u < |x|
    ensures AllInRange(f, x[..u]) && AllInRange(f, x[..u + 1]) && InRange(f, x[u])
    ensures Encoding(f, x[..u + 1]) == Encoding(f, x[..u]) + Code(f, x[u])
  {
    assert x[..u + 1] == x[..u] + [x[u]];
    EncodingAppend(f, x[..u], x[u]);
  }

  // ---- No code word is the beginning of another ----

  lemma SamePrefix(a: Bits, s: Bits, b: Bits, t: Bits)
    requires a + s == b + t && |a| == |b|
    ensures a == b && s == t
  {
    assert (a + s)[..|a|] == a && (b + t)[..|b|] == b;
    assert (a + s)[|a|..] == s && (b + t)[|b|..] == t;
  }

  lemma UnaryUnique(k: nat, s: Bits, l: nat, t: Bits)
    requires ZeroBits(k) + [1] + s == ZeroBits(l) + [1] + t
    ensures k == l
  {
    UnaryAt(k, s);
    UnaryAt(l, t);
  }

  lemma UnaryAt(k: nat, s: Bits)
    ensures var p := ZeroBits(k) + [1] + s; k < |p| && p[k] == 1 && forall i :: 0 <= i < k ==> p[i] == 0
  {}

  lemma CompressedParts(v: int, s: Bits)
    requires -2047 <= v <= 2047
    ensures Code(Compressed, v) + s
         == [if v < 0 then 1 else 0] + (ToBits(Abs(v) % 128, 7) + (ZeroBits(Abs(v) / 128) + [1] + s))
  {}

  lemma CompressedPrefixFree(a: int, s: Bits, b: int, t: Bits)
    requires -2047 <= a <= 2047 && -2047 <= b <= 2047 && Code(Compressed, a) + s == Code(Compressed, b) + t
    ensures a == b
  {
    hide Code;
    CompressedParts(a, s);
    CompressedParts(b, t);
    var ra, rb := ZeroBits(Abs(a) / 128) + [1] + s, ZeroBits(Abs(b) / 128) + [1] + t;
    SamePrefix([if a < 0 then 1 else 0], ToBits(Abs(a) % 128, 7) + ra, [if b < 0 then 1 else 0], ToBits(Abs(b) % 128, 7) + rb);
    SamePrefix(ToBits(Abs(a) % 128, 7), ra, ToBits(Abs(b) % 128, 7), rb);
    Pow2Values();
    ToBitsInjective(Abs(a) % 128, Abs(b) % 128, 7);
    UnaryUnique(Abs(a) / 128, s, Abs(b) / 128, t);
    assert [if a < 0 then 1 else 0][0] == [if b < 0 then 1 else 0][0];
  }

  lemma TwosComplementRange(v: int, bits: nat)
    requires InRange(Trim(bits), v)
    ensures Pow2(bits) == 2 * Pow2(bits - 1) && TwosComplement(v, bits) < Pow2(bits)
    ensures TwosComplement(v, bits) != Pow2(bits - 1)
    ensures v == if TwosComplement(v, bits) < Pow2(bits - 1) then TwosComplement(v, bits) else TwosComplement(v, bits) - Pow2(bits)
  {}

  /** The width of the code words, for the formats where it is fixed. */
  function Width(f: Format): nat
    requires !f.Compressed?
  {
    if f.Modq? then 14 else f.bits
  }

  lemma ModqBits(v: nat)
    requires v < 12289
    ensures v < Pow2(14)
  {
    Pow2Values();
  }

  lemma PrefixFree(f: Format, a: int, s: Bits, b: int, t: Bits)
    requires InRange(f, a) && InRange(f, b) && Code(f, a) + s == Code(f, b) + t
    ensures a == b && s == t
  {
    hide ToBits;
    if f.Compressed? {
      CompressedPrefixFree(a, s, b, t);
    } else {
      SamePrefix(Code(f, a), s, Code(f, b), t);
      if f.Modq? {
        ModqBits(a);
        ModqBits(b);
        ToBitsInjective(a, b, 14);
      } else {
        TwosComplementRange(a, f.bits);
        TwosComplementRange(b, f.bits);
        ToBitsInjective(TwosComplement(a, f.bits), TwosComplement(b, f.bits), f.bits);
      }
    }
    SamePrefix(Code(f, a), s, Code(f, b), t);
  }

  /** A vector is recognised at the front of a bit string, given its length. */
  lemma {:induction false} UniqueDecoding(f: Format, x: seq<int>, s: Bits, y: seq<int>, t: Bits)
    requires |x| == |y| && AllInRange(f, x) && AllInRange(f, y) && Encoding(f, x) + s == Encoding(f, y) + t
    ensures x == y && s == t
    decreases |x|
  {
    hide *;
    if |x| == 0 {
      EncodingEmpty(f, x);
      EncodingEmpty(f, y);
      assert [] + s == s && [] + t == t;
    } else {
      var n := |x| - 1;
      EncodingLast(f, x);
      EncodingLast(f, y);
      Concat(Encoding(f, x[..n]), Code(f, x[n]), s);
      Concat(Encoding(f, y[..n]), Code(f, y[n]), t);
      UniqueDecoding(f, x[..n], Code(f, x[n]) + s, y[..n], Code(f, y[n]) + t);
      PrefixFree(f, x[n], s, y[n], t);
      assert x == x[..n] + [x[n]] && y == y[..n] + [y[n]];
    }
  }

  lemma EncodingEmpty(f: Format, x: seq<int>)
    requires |x| == 0
    ensures AllInRange(f, x) && Encoding(f, x) == []
  {}

  lemma EncodingLast(f: Format, x: seq<int>)
    requires |x| > 0 && AllInRange(f, x)
    ensures var n := |x| - 1;
      AllInRange(f, x[..n]) && InRange(f, x[n]) && Encoding(f, x) == Encoding(f, x[..n]) + Code(f, x[n])
  {
    hide InRange;
  }

  /** The bits of an encoded vector and of its padding. */
  lemma EncodesElim(f: Format, x: seq<int>, bytes: seq<U8>) returns (k: nat)
    requires Encodes(f, x, bytes)
    ensures AllInRange(f, x) && k < 8 && Unpack(bytes) == Encoding(f, x) + ZeroBits(k)
    ensures 8 * |bytes| == |Encoding(f, x)| + k
  {
    hide Encoding, InRange, Unpack;
    k :| k < 8 && Unpack(bytes) == Encoding(f, x) + ZeroBits(k);
  }

  /** Decoding undoes encoding: no byte string encodes two vectors. */
  lemma EncodesOneVector(f: Format, x: seq<int>, y: seq<int>, bytes: seq<U8>)
    requires |x| == |y| && Encodes(f, x, bytes) && Encodes(f, y, bytes)
    ensures x == y
  {
    hide *;
    var k := EncodesElim(f, x, bytes);
    var l := EncodesElim(f, y, bytes);
    UniqueDecoding(f, x, ZeroBits(k), y, ZeroBits(l));
  }

  /** Encodings are canonical: no vector has two byte strings. */
  lemma OneEncoding(f: Format, x: seq<int>, a: seq<U8>, b: seq<U8>)
    requires Encodes(f, x, a) && Encodes(f, x, b)
    ensures AllInRange(f, x) && a == b && 8 * |a| - 8 < |Encoding(f, x)| <= 8 * |a|
  {
    hide *;
    var k := EncodesElim(f, x, a);
    var l := EncodesElim(f, x, b);
    assert k == l;
    UnpackInjective(a, b);
  }

  /** The number of bits of fixed-width encodings. */
  lemma {:induction false} EncodingLength(f: Format, x: seq<int>)
    requires AllInRange(f, x) && !f.Compressed?
    ensures |Encoding(f, x)| == |x| * Width(f)
  {
    if |x| > 0 {
      EncodingLength(f, x[..|x| - 1]);
      MulAdd(Width(f), |x| - 1, 1);
      assert |x| * Width(f) == (|x| - 1) * Width(f) + Width(f);
    }
  }

  // ---- What a decoder may conclude from the bits it has read ----

  /** The bits begin with the code word of some value. */
  ghost predicate StartsWithCode(f: Format, rest: Bits) {
    exists v: int, t: Bits :: InRange(f, v) && rest == Code(f, v) + t
  }

  lemma {:induction false} EncodingSuffix(f: Format, y: seq<int>, u: nat) returns (t: Bits)
    requires AllInRange(f, y) && u <= |y|
    ensures AllInRange(f, y[..u]) && Encoding(f, y) == Encoding(f, y[..u]) + t
    decreases |y|
  {
    hide *;
    if u == |y| {
      assert y[..u] == y;
      t := [];
    } else {
      var n := |y| - 1;
      EncodingLast(f, y);
      var t' := EncodingSuffix(f, y[..n], u);
      assert y[..n][..u] == y[..u];
      t := t' + Code(f, y[n]);
      Concat(Encoding(f, y[..u]), t', Code(f, y[n]));
    }
  }

  /** The bits of the whole input, when a prefix of it encodes y. */
  lemma EncodedFront(f: Format, y: seq<int>, input: seq<U8>, k: nat) returns (j: nat)
    requires k <= |input| && Encodes(f, y, input[..k])
    ensures AllInRange(f, y) && j < 8 && 8 * k == |Encoding(f, y)| + j
    ensures Unpack(input) == Encoding(f, y) + (ZeroBits(j) + Unpack(input[k..]))
  {
    hide *;
    j := EncodesElim(f, y, input[..k]);
    UnpackConcat(input[..k], input[k..]);
    assert input[..k] + input[k..] == input;
    Concat(Encoding(f, y), ZeroBits(j), Unpack(input[k..]));
  }

  /** If what follows the first values is no code word, no byte string with these bits encodes n values. */
  lemma NoCodeNoVector(f: Format, input: seq<U8>, x: seq<int>, rest: Bits, y: seq<int>, k: nat)
    requires AllInRange(f, x) && |x| < |y| && k <= |input| && Unpack(input) == Encoding(f, x) + rest
    requires !StartsWithCode(f, rest)
    ensures !Encodes(f, y, input[..k])
  {
    hide *;
    if Encodes(f, y, input[..k]) {
      var j := EncodedFront(f, y, input, k);
      var u := |x|;
      EncodingStep(f, y, u);
      var t := EncodingSuffix(f, y, u + 1);
      var tail := t + (ZeroBits(j) + Unpack(input[k..]));
      Concat(Encoding(f, y[..u]), Code(f, y[u]), tail);
      Concat(Encoding(f, y[..u]) + Code(f, y[u]), t, ZeroBits(j) + Unpack(input[k..]));
      UniqueDecoding(f, x, rest, y[..u], Code(f, y[u]) + tail);
      StartsIntro(f, rest, y[u], tail);
    }
  }

  lemma StartsIntro(f: Format, rest: Bits, v: int, t: Bits)
    requires InRange(f, v) && rest == Code(f, v) + t
    ensures StartsWithCode(f, rest)
  {}

  /** If fewer than 8 bits that are not all zero follow the n values, no prefix of the bytes encodes n values. */
  lemma BadPaddingNoVector(f: Format, input: seq<U8>, v: nat, x: seq<int>, pad: Bits, y: seq<int>, k: nat)
    requires AllInRange(f, x) && |x| == |y| && k <= |input| && v <= |input|
    requires Unpack(input[..v]) == Encoding(f, x) + pad && |pad| < 8 && pad != ZeroBits(|pad|)
    ensures !Encodes(f, y, input[..k])
  {
    hide *;
    if Encodes(f, y, input[..k]) {
      var j := EncodedFront(f, y, input, k);
      UnpackConcat(input[..v], input[v..]);
      assert input == input[..v] + input[v..];
      Concat(Encoding(f, x), pad, Unpack(input[v..]));
      UniqueDecoding(f, x, pad + Unpack(input[v..]), y, ZeroBits(j) + Unpack(input[k..]));
      assert 8 * v == |Encoding(f, x)| + |pad|;
      assert |pad| == j;
      SamePrefix(pad, Unpack(input[v..]), ZeroBits(j), Unpack(input[k..]));
    }
  }

  lemma EncodesIntro(f: Format, x: seq<int>, bytes: seq<U8>, pad: Bits)
    requires AllInRange(f, x) && Unpack(bytes) == Encoding(f, x) + pad && |pad| < 8 && pad == ZeroBits(|pad|)
    ensures Encodes(f, x, bytes)
  {}
}
