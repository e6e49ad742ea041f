/** The compressed codec of signatures, with its 32-bit accumulator, as in crypto/codec.c. */
module CompressedCodec {
  import opened Words
  import opened BitStrings
  import opened Formats
  import opened FixedCodecs

  /** The bytes that the encoding of x takes. */
  ghost function CompressedSize(x: seq<int>): nat
    requires AllInRange(Compressed, x)
  {
    (|Encoding(Compressed, x)| + 7) / 8
  }

  // ---- Encoding ----

  /** A one below k zeros. */
  lemma {:induction false} UnaryBits(k: nat)
    ensures ToBits(1, k + 1) == ZeroBits(k) + [1] && 1 < Pow2(k + 1)
  {
    ToBitsZero(k);
    assert ToBits(1, k + 1) == ToBits(0, k) + [1];
  }

  /** The accumulator after pushing sign, low bits and unary part of one value. */
  function PushedValue(acc: U32, v: int): U32 {
    var low := Pushed(Pushed(acc, if v < 0 then 1 else 0, 1), Abs(v) % 128, 7);
    Pushed(low, 1, Abs(v) / 128 + 1)
  }

  lemma PushValue(acc: U32, len: nat, v: int)
    requires len < 8 && InRange(Compressed, v)
    ensures len + 9 + Abs(v) / 128 <= 31
    ensures ToBits(PushedValue(acc, v), len + 9 + Abs(v) / 128) == ToBits(acc, len) + Code(Compressed, v)
  {
    hide ToBits, Pushed;
    var s, m, k := if v < 0 then 1 else 0, Abs(v) % 128, Abs(v) / 128;
    Pow2Values();
    var a1 := Pushed(acc, s, 1);
    PushBits(acc, len, s, 1);
    OneBit(s);
    var a2 := Pushed(a1, m, 7);
    PushBits(a1, len + 1, m, 7);
    UnaryBits(k);
    PushBits(a2, len + 8, 1, k + 1);
    assert ToBits(acc, len) + [s] + ToBits(m, 7) + (ZeroBits(k) + [1]) == ToBits(acc, len) + ([s] + ToBits(m, 7) + ZeroBits(k) + [1]);
  }

  lemma OneBit(s: nat)
    requires s < 2
    ensures ToBits(s, 1) == [s]
  {
    assert ToBits(s, 1) == ToBits(s / 2, 0) + [s % 2];
  }

  lemma WrittenValue(x: seq<int>, u: nat, sent: seq<U8>, acc: U32, len: nat)
    requires Written(Compressed, x, u, sent, acc, len) && u < |x| && len < 8
    ensures InRange(Compressed, x[u]) && len + 9 + Abs(x[u]) / 128 <= 31
    ensures Written(Compressed, x, u + 1, sent, PushedValue(acc, x[u]), len + 9 + Abs(x[u]) / 128)
  {
    hide Unpack, ToBits, PushedValue, Code, Encoding;
    EncodingStep(Compressed, x, u);
    PushValue(acc, len, x[u]);
    Concat(Unpack(sent), ToBits(acc, len), Code(Compressed, x[u]));
  }

  /** The inner loop that writes all complete bytes; it fails when the buffer is full. */
  method EmitChecked(out: array?<U8>, v0: nat, acc: U32, len0: nat, ghost sent0: seq<U8>)
    returns (ok: bool, v: nat, len: nat, ghost sent: seq<U8>)
    requires |sent0| == v0 && (out != null ==> v0 <= out.Length && out[..v0] == sent0)
    modifies out
    ensures !ok ==> out != null && 8 * out.Length + 8 <= 8 * v0 + len0
    ensures ok ==> len < 8 && |sent| == v && 8 * v + len == 8 * v0 + len0
    ensures ok ==> Unpack(sent) + ToBits(acc, len) == Unpack(sent0) + ToBits(acc, len0)
    ensures ok && out != null ==> v <= out.Length && out[..v] == sent && out[v..] == old(out[v..])
  {
    hide Unpack, ToBits;
    v, len, sent := v0, len0, sent0;
    while len >= 8
      invariant |sent| == v && 8 * v + len == 8 * v0 + len0
      invariant Unpack(sent) + ToBits(acc, len) == Unpack(sent0) + ToBits(acc, len0)
      invariant out != null ==> v <= out.Length && out[..v] == sent && out[v..] == old(out[v..])
    {
      EmitByte(sent, acc, len);
      len := len - 8;
      var b: U8 := Shr(acc, len) % 0x100;
      if out != null {
        if v >= out.Length { return false, v, len, sent; }
        out[v] := b;
        assert out[..v + 1] == out[..v] + [b];
      }
      sent := sent + [b];
      v := v + 1;
    }
    ok := true;
  }

  lemma WrittenBits(x: seq<int>, u: nat, sent: seq<U8>, acc: U32, len: nat)
    requires Written(Compressed, x, u, sent, acc, len)
    ensures AllInRange(Compressed, x) && 8 * |sent| + len == |Encoding(Compressed, x[..u])| <= |Encoding(Compressed, x)|
    ensures u == |x| ==> 8 * |sent| + len == |Encoding(Compressed, x)|
  {
    hide Code;
    var t := EncodingSuffix(Compressed, x, u);
    if u == |x| { assert x[..u] == x; }
  }

  /**
   Encoding of a vector. It fails exactly if a value is out of range or the buffer is too short;
   without a buffer it computes the size.
   */
  method CompEncode(out: array?<U8>, x: seq<int>, logn: nat) returns (r: nat)
    requires |x| == Pow2(logn)
    modifies out
    ensures r > 0 <==> AllInRange(Compressed, x) && (out != null ==> CompressedSize(x) <= out.Length)
    ensures r > 0 ==> r == CompressedSize(x)
    ensures out != null && r > 0 ==> r <= out.Length && Encodes(Compressed, x, out[..r]) && out[r..] == old(out[r..])
  {
    hide Unpack, ToBits, Encodes, Written, PushedValue, Encoding;
    var n := Pow2(logn);
    var u := 0;
    while u < n
      invariant 0 <= u <= n && forall i :: 0 <= i < u ==> InRange(Compressed, x[i])
      invariant out != null ==> out[..] == old(out[..])
    {
      if x[u] < -2047 || x[u] > 2047 { return 0; }
      u := u + 1;
    }
    var acc: U32, len: nat, v: nat := 0, 0, 0;
    ghost var sent: seq<U8> := [];
    WrittenStart(Compressed, x);
    u := 0;
    while u < n
      invariant 0 <= u <= n && len < 8 && |sent| == v
      invariant Written(Compressed, x, u, sent, acc, len)
      invariant out != null ==> v <= out.Length && out[..v] == sent && out[v..] == old(out[v..])
    {
      WrittenValue(x, u, sent, acc, len);
      acc := PushedValue(acc, x[u]);
      len := len + 9 + Abs(x[u]) / 128;
      WrittenBits(x, u + 1, sent, acc, len);
      ghost var sent0, len0, v0 := sent, len, v;
      var ok;
      ok, v, len, sent := EmitChecked(out, v, acc, len, sent);
      if !ok { return 0; }
      WrittenMoved(Compressed, x, u + 1, sent0, sent, acc, len0, len);
      assert out != null ==> old(out[v..]) == old(out[v0..])[v - v0..];
      u := u + 1;
    }
    WrittenBits(x, n, sent, acc, len);
    if len > 0 {
      if out != null {
        if v >= out.Length { return 0; }
        out[v] := (acc * Pow2(8 - len)) % 0x100;
        assert out[..v + 1] == out[..v] + [out[v]];
        WrittenAll(Compressed, x, sent, acc, out[..v + 1], 8 - len);
        assert out[v + 1..] == out[v..][1..];
      }
      v := v + 1;
    } else if out != null {
      WrittenAll(Compressed, x, sent, acc, out[..v], 0);
    }
    EncodingNonempty(x);
    r := v;
  }

  lemma EncodingNonempty(x: seq<int>)
    requires |x| > 0 && AllInRange(Compressed, x)
    ensures |Encoding(Compressed, x)| > 0
  {
    hide Code;
    EncodingLast(Compressed, x);
    CodeLength(x[|x| - 1]);
  }

  lemma CodeLength(v: int)
    requires InRange(Compressed, v)
    ensures |Code(Compressed, v)| == 9 + Abs(v) / 128
  {}

  // ---- Decoding ----

  /** The bits of a value whose final one has not been seen: sign, low bits and z zeros. */
  function PartialCode(s: nat, m: nat, z: nat): Bits { [s] + ToBits(m, 7) + ZeroBits(z) }

  /** The bytes read are the values decoded so far, a partial value and what is in the accumulator. */
  ghost predicate Reading(input: seq<U8>, v: nat, x: seq<int>, part: Bits, acc: U32, len: nat) {
    && v <= |input| && AllInRange(Compressed, x)
    && Unpack(input[..v]) == Encoding(Compressed, x) + (part + ToBits(acc, len))
  }

  lemma ReadingStart(input: seq<U8>, v: nat, x: seq<int>, acc: U32, len: nat)
    ensures Reading(input, v, x, [], acc, len) <==> Read(Compressed, input, v, x, acc, len)
  {
    assert [] + ToBits(acc, len) == ToBits(acc, len);
  }

  lemma ReadingByte(input: seq<U8>, v: nat, x: seq<int>, part: Bits, acc: U32, len: nat)
    requires Reading(input, v, x, part, acc, len) && v < |input| && len <= 24
    ensures Reading(input, v + 1, x, part, Pushed(acc, input[v], 8), len + 8)
  {
    hide Unpack, ToBits, Encoding, InRange, Pushed;
    Pow2Values();
    assert input[..v + 1] == input[..v] + [input[v]];
    UnpackAppend(input[..v], input[v]);
    PushBits(acc, len, input[v], 8);
    Concat(Encoding(Compressed, x), part + ToBits(acc, len), ToBits(input[v], 8));
    Concat(part, ToBits(acc, len), ToBits(input[v], 8));
  }

  /** The sign and the seven low bits. */
  lemma ReadingHead(input: seq<U8>, v: nat, x: seq<int>, acc: U32, len: nat)
    requires Reading(input, v, x, [], acc, len + 8)
    ensures var b := Shr(acc, len);
      Reading(input, v, x, PartialCode(b / 128 % 2, b % 128, 0), acc, len)
  {
    hide Unpack, ToBits, Encoding, InRange;
    var b := Shr(acc, len);
    ToBitsSplit(acc, 8, len);
    ToBitsSplit(b, 1, 7);
    HeadBits(b);
    assert [] + ToBits(acc, len + 8) == ToBits(b, 8) + ToBits(acc, len);
    assert ToBits(b, 8) == PartialCode(b / 128 % 2, b % 128, 0);
  }

  lemma HeadBits(b: nat)
    ensures ToBits(Shr(b, 7), 1) == [b / 128 % 2] && ToBits(b % 128, 7) == ToBits(b, 7)
  {
    hide ToBits, Shr;
    Pow2Values();
    LowBits(b, 7);
    ShrValue(b, 7);
    ShiftBySeven(b);
    LowBits(Shr(b, 7), 1);
    OneBit(Shr(b, 7) % 2);
  }

  lemma ShiftBySeven(b: nat)
    ensures Shr(b, 7) == b / 128
  {
    ShrNext(b, 0);
    ShrNext(b, 1);
    ShrNext(b, 2);
    ShrNext(b, 3);
    ShrNext(b, 4);
    ShrNext(b, 5);
    ShrNext(b, 6);
  }

  /** One more bit of the unary part. */
  lemma ReadingBit(input: seq<U8>, v: nat, x: seq<int>, part: Bits, acc: U32, len: nat)
    requires len > 0 && Reading(input, v, x, part, acc, len)
    ensures Reading(input, v, x, part + [Shr(acc, len - 1) % 2], acc, len - 1)
  {
    hide Unpack, ToBits, Encoding, InRange;
    Pow2Values();
    PopBits(acc, len - 1, 1);
    OneBit(Shr(acc, len - 1) % 2);
    Concat(part, [Shr(acc, len - 1) % 2], ToBits(acc, len - 1));
  }

  lemma PartialZero(s: nat, m: nat, z: nat)
    ensures PartialCode(s, m, z) + [0] == PartialCode(s, m, z + 1)
  {
    assert ZeroBits(z) + [0] == ZeroBits(z + 1);
  }

  /** The value that sign, low bits and zeros make. */
  function ValueOf(s: nat, m: nat, z: nat): int {
    if s == 1 then -(m + 128 * z) else m + 128 * z
  }

  lemma ReadingValue(input: seq<U8>, v: nat, x: seq<int>, s: nat, m: nat, z: nat, acc: U32, len: nat)
    requires Reading(input, v, x, PartialCode(s, m, z) + [1], acc, len)
    requires s < 2 && m < 128 && m + 128 * z <= 2047 && !(s == 1 && m + 128 * z == 0)
    ensures InRange(Compressed, ValueOf(s, m, z))
    ensures Read(Compressed, input, v, x + [ValueOf(s, m, z)], acc, len)
  {
    hide Unpack, ToBits, Encoding;
    var value := ValueOf(s, m, z);
    assert Abs(value) % 128 == m && Abs(value) / 128 == z;
    assert Code(Compressed, value) == PartialCode(s, m, z) + [1];
    EncodingAppend(Compressed, x, value);
    Concat(Encoding(Compressed, x), Code(Compressed, value), ToBits(acc, len));
  }

  /** If the bits after the decoded values begin no code word, no prefix of the input encodes n values. */
  lemma ReadingStuck(input: seq<U8>, v: nat, x: seq<int>, part: Bits, acc: U32, len: nat, n: nat)
    requires Reading(input, v, x, part, acc, len) && |x| < n
    requires !StartsWithCode(Compressed, part + (ToBits(acc, len) + Unpack(input[v..])))
    ensures forall y: seq<int>, k: nat :: |y| == n && k <= |input| ==> !Encodes(Compressed, y, input[..k])
  {
    hide Unpack, ToBits, Encoding, InRange, StartsWithCode, Encodes;
    var rest := part + (ToBits(acc, len) + Unpack(input[v..]));
    UnpackConcat(input[..v], input[v..]);
    assert input[..v] + input[v..] == input;
    Concat(part, ToBits(acc, len), Unpack(input[v..]));
    Concat(Encoding(Compressed, x), part + ToBits(acc, len), Unpack(input[v..]));
    forall y: seq<int>, k: nat | |y| == n && k <= |input| ensures !Encodes(Compressed, y, input[..k]) {
      NoCodeNoVector(Compressed, input, x, rest, y, k);
    }
  }

  /** Fewer than 8 bits are no code word. */
  lemma ShortIsNoCode(rest: Bits)
    requires |rest| < 8
    ensures !StartsWithCode(Compressed, rest)
  {
    hide Code;
    forall v: int, t: Bits | InRange(Compressed, v) ensures rest != Code(Compressed, v) + t {
      CodeLength(v);
    }
  }

  /** The parts of a code word at the front of given bits. */
  lemma FrontParts(v: int, t: Bits, s: nat, m: nat, tail: Bits)
    requires -2047 <= v <= 2047 && m < 128 && Code(Compressed, v) + t == [s] + (ToBits(m, 7) + tail)
    ensures s == (if v < 0 then 1 else 0) && Abs(v) % 128 == m && tail == ZeroBits(Abs(v) / 128) + [1] + t
  {
    hide Code, ToBits;
    CompressedParts(v, t);
    var r := ZeroBits(Abs(v) / 128) + [1] + t;
    SamePrefix([s], ToBits(m, 7) + tail, [if v < 0 then 1 else 0], ToBits(Abs(v) % 128, 7) + r);
    SamePrefix(ToBits(m, 7), tail, ToBits(Abs(v) % 128, 7), r);
    Pow2Values();
    ToBitsInjective(m, Abs(v) % 128, 7);
    assert [s][0] == [if v < 0 then 1 else 0][0];
  }

  lemma PartialParts(s: nat, m: nat, z: nat, more: Bits)
    ensures PartialCode(s, m, z) + more == [s] + (ToBits(m, 7) + (ZeroBits(z) + more))
  {}

  /** Sixteen zeros, or zeros up to the end of the input, are no unary part. */
  lemma ZerosAreNoCode(s: nat, m: nat, z: nat, more: Bits)
    requires m < 128 && (z >= 16 || more == [])
    ensures !StartsWithCode(Compressed, PartialCode(s, m, z) + more)
  {
    hide Code, ToBits;
    var rest := PartialCode(s, m, z) + more;
    if StartsWithCode(Compressed, rest) {
      var v: int, t: Bits :| InRange(Compressed, v) && rest == Code(Compressed, v) + t;
      PartialParts(s, m, z, more);
      FrontParts(v, t, s, m, ZeroBits(z) + more);
      ZerosDiffer(z, more, Abs(v) / 128, t);
    }
  }

  lemma ZerosDiffer(z: nat, more: Bits, k: nat, t: Bits)
    requires (z >= 16 && k <= 15) || more == []
    ensures ZeroBits(z) + more != ZeroBits(k) + [1] + t
  {
    var p, q := ZeroBits(z) + more, ZeroBits(k) + [1] + t;
    assert q[k] == 1;
    assert k < |p| ==> p[k] == 0;
  }

  /** A minus sign before zero is no code word. */
  lemma MinusZeroIsNoCode(more: Bits)
    ensures !StartsWithCode(Compressed, PartialCode(1, 0, 0) + [1] + more)
  {
    hide Code, ToBits;
    var rest := PartialCode(1, 0, 0) + [1] + more;
    if StartsWithCode(Compressed, rest) {
      var v: int, t: Bits :| InRange(Compressed, v) && rest == Code(Compressed, v) + t;
      PartialParts(1, 0, 0, [1] + more);
      Concat(PartialCode(1, 0, 0), [1], more);
      FrontParts(v, t, 1, 0, ZeroBits(0) + ([1] + more));
      Concat(ZeroBits(0), [1], more);
      UnaryUnique(0, more, Abs(v) / 128, t);
    }
  }

  /** Reads the bits of one value after its head. */
  method ReadUnary(input: seq<U8>, v0: nat, acc0: U32, len0: nat, s: nat, m0: nat, n: nat, ghost xs: seq<int>)
    returns (ok: bool, v: nat, acc: U32, len: nat, m: nat)
    requires s < 2 && m0 < 128 && |xs| < n && len0 < 8 && Reading(input, v0, xs, PartialCode(s, m0, 0), acc0, len0)
    ensures ok ==> len < 8 && m <= 2047 && m % 128 == m0 && Reading(input, v, xs, PartialCode(s, m0, m / 128) + [1], acc, len)
    ensures !ok ==> forall y: seq<int>, k: nat :: |y| == n && k <= |input| ==> !Encodes(Compressed, y, input[..k])
  {
    hide Reading, StartsWithCode, PartialCode, Encodes, ToBits, Unpack, Pushed, Shr;
    v, acc, len, m := v0, acc0, len0, m0;
    while true
      invariant m % 128 == m0 && m <= 2047 && len < 8
      invariant Reading(input, v, xs, PartialCode(s, m0, m / 128), acc, len)
      decreases 2047 - m
    {
      ReadingBound(input, v, xs, PartialCode(s, m0, m / 128), acc, len);
      if len == 0 {
        if v >= |input| {
          NoBitsLeft(acc, input, v);
          ZerosAreNoCode(s, m0, m / 128, ToBits(acc, 0) + Unpack(input[v..]));
          ReadingStuck(input, v, xs, PartialCode(s, m0, m / 128), acc, 0, n);
          return false, v, acc, len, m;
        }
        ReadingByte(input, v, xs, PartialCode(s, m0, m / 128), acc, 0);
        acc := Pushed(acc, input[v], 8);
        v := v + 1;
        len := 8;
      }
      ReadingBit(input, v, xs, PartialCode(s, m0, m / 128), acc, len);
      len := len - 1;
      if Shr(acc, len) % 2 != 0 {
        return true, v, acc, len, m;
      }
      PartialZero(s, m0, m / 128);
      m := m + 128;
      if m > 2047 {
        ZerosAreNoCode(s, m0, m / 128, ToBits(acc, len) + Unpack(input[v..]));
        ReadingStuck(input, v, xs, PartialCode(s, m0, m / 128), acc, len, n);
        return false, v, acc, len, m;
      }
    }
  }

  lemma ReadingBound(input: seq<U8>, v: nat, x: seq<int>, part: Bits, acc: U32, len: nat)
    requires Reading(input, v, x, part, acc, len)
    ensures v <= |input|
  {}

  lemma NoBitsLeft(acc: U32, input: seq<U8>, v: nat)
    requires v == |input|
    ensures ToBits(acc, 0) + Unpack(input[v..]) == []
  {
    assert input[v..] == [];
  }

  /**
   Decoding. It succeeds exactly when a prefix of the input encodes a vector of the given length;
   it returns that vector and the length of the prefix.
   */
  method CompDecode(x: array<I16>, logn: nat, input: seq<U8>) returns (r: nat)
    requires x.Length == Pow2(logn)
    modifies x
    ensures r > 0 ==> r <= |input| && Encodes(Compressed, x[..], input[..r])
    ensures r == 0 ==> forall y: seq<int>, k: nat :: |y| == x.Length && k <= |input| ==> !Encodes(Compressed, y, input[..k])
  {
    hide Reading, Read, StartsWithCode, PartialCode, Encodes, ToBits, Unpack, Pushed, Shr, Encoding;
    var n := Pow2(logn);
    var acc: U32, len: nat, v: nat := 0, 0, 0;
    ghost var xs: seq<int> := [];
    ReadStart(Compressed, input);
    var u := 0;
    while u < n
      invariant 0 <= u <= n && len < 8 && x[..u] == xs && (u > 0 ==> v > 0)
      invariant Read(Compressed, input, v, xs, acc, len)
    {
      ReadingStart(input, v, xs, acc, len);
      ReadingBound(input, v, xs, [], acc, len);
      if v >= |input| {
        TruncatedHead(input, v, xs, acc, len, n);
        return 0;
      }
      ReadingByte(input, v, xs, [], acc, len);
      acc := Pushed(acc, input[v], 8);
      v := v + 1;
      ReadingHead(input, v, xs, acc, len);
      var b := Shr(acc, len);
      var s, m := b / 128 % 2, b % 128;
      ghost var m0 := m;
      ghost var v1 := v;
      var ok;
      ok, v, acc, len, m := ReadUnary(input, v, acc, len, s, m, n, xs);
      if !ok { return 0; }
      if s == 1 && m == 0 {
        ReadingBound(input, v, xs, PartialCode(1, 0, 0) + [1], acc, len);
        MinusZeroIsNoCode(ToBits(acc, len) + Unpack(input[v..]));
        ReadingStuck(input, v, xs, PartialCode(1, 0, 0) + [1], acc, len, n);
        return 0;
      }
      ReadingValue(input, v, xs, s, m0, m / 128, acc, len);
      ReadPositive(input, v, xs + [ValueOf(s, m0, m / 128)], acc, len);
      x[u] := if s == 1 then -(m as int) else m;
      assert x[..u + 1] == x[..u] + [x[u]];
      xs := xs + [ValueOf(s, m0, m / 128)];
      u := u + 1;
    }
    assert x[..u] == x[..];
    ReadAll(Compressed, input, v, xs, acc, len);
    ReadPositive(input, v, xs, acc, len);
    if acc % Pow2(len) != 0 { return 0; }
    r := v;
  }

  lemma TruncatedHead(input: seq<U8>, v: nat, xs: seq<int>, acc: U32, len: nat, n: nat)
    requires v == |input| && len < 8 && Reading(input, v, xs, [], acc, len) && |xs| < n
    ensures forall y: seq<int>, k: nat :: |y| == n && k <= |input| ==> !Encodes(Compressed, y, input[..k])
  {
    hide Reading, StartsWithCode, Encodes, ToBits;
    assert input[v..] == [];
    ShortIsNoCode([] + (ToBits(acc, len) + Unpack(input[v..])));
    ReadingStuck(input, v, xs, [], acc, len, n);
  }

  lemma ReadPositive(input: seq<U8>, v: nat, xs: seq<int>, acc: U32, len: nat)
    requires Read(Compressed, input, v, xs, acc, len) && |xs| > 0
    ensures 0 < v <= |input|
  {
    hide Code, ToBits;
    EncodingNonempty(xs);
    assert |Unpack(input[..v])| == 8 * v;
  }
}
