/** The fixed-width codecs, with their 32-bit accumulators, as in crypto/codec.c. */
module FixedCodecs {
  import opened Words
  import opened Residues
  import opened BitStrings
  import opened Formats

  /** The formats that the fixed-width codecs serve: 16-bit words or less. */
  ghost predicate Fixed(f: Format) {
    f.Modq? || (f.Trim? && 1 <= f.bits <= 16)
  }

  /** The size in bytes of n fields of w bits. */
  function PackedSize(n: nat, w: nat): nat { (n * w + 7) / 8 }

  /** The bits that are pushed for one value. */
  function Field(f: Format, v: int): nat
    requires !f.Compressed?
  {
    v % Pow2(Width(f))
  }

  lemma FieldMeaning(f: Format, v: int)
    requires Fixed(f) && InRange(f, v)
    ensures Field(f, v) < Pow2(Width(f)) && ToBits(Field(f, v), Width(f)) == Code(f, v)
  {
    if f.Modq? {
      ModqBits(v);
      RemainderUnique(v, 0, v, Pow2(14));
    } else {
      TwosComplementRange(v, f.bits);
      RemainderUnique(v, if v < 0 then -1 else 0, TwosComplement(v, f.bits), Pow2(f.bits));
    }
  }

  lemma ShapeOf(f: Format)
    requires Fixed(f)
    ensures !f.Compressed? && 1 <= Width(f) <= 16
  {}

  /** What has been written and what is still in the accumulator are the first u values. */
  ghost predicate Written(f: Format, x: seq<int>, u: nat, sent: seq<U8>, acc: U32, len: nat) {
    && u <= |x| && AllInRange(f, x) && AllInRange(f, x[..u])
    && Encoding(f, x[..u]) == Unpack(sent) + ToBits(acc, len)
  }

  lemma WrittenStart(f: Format, x: seq<int>)
    requires AllInRange(f, x)
    ensures Written(f, x, 0, [], 0, 0)
  {
    assert Unpack([]) + ToBits(0, 0) == [];
  }

  /** Pushing one value into the accumulator. */
  lemma WrittenPush(f: Format, x: seq<int>, u: nat, sent: seq<U8>, acc: U32, len: nat)
    requires Fixed(f) && Written(f, x, u, sent, acc, len) && u < |x| && len < 8
    ensures Fixed(f) && !f.Compressed? && Written(f, x, u + 1, sent, Pushed(acc, Field(f, x[u]), Width(f)), len + Width(f))
  {
    hide InRange, Code, Unpack, ToBits, Pushed, Encoding;
    ShapeOf(f);
    EncodingStep(f, x, u);
    FieldMeaning(f, x[u]);
    PushBits(acc, len, Field(f, x[u]), Width(f));
    Concat(Unpack(sent), ToBits(acc, len), Code(f, x[u]));
  }

  lemma WrittenLength(f: Format, x: seq<int>, u: nat, sent: seq<U8>, acc: U32, len: nat)
    requires Fixed(f) && Written(f, x, u, sent, acc, len)
    ensures !f.Compressed? && 8 * |sent| + len == u * Width(f) <= |x| * Width(f)
  {
    EncodingLength(f, x[..u]);
    MulLe(Width(f), u, |x|);
    assert |Encoding(f, x[..u])| == 8 * |sent| + len;
  }

  /** Emitting a byte moves 8 bits from the accumulator to the output. */
  lemma EmitByte(sent: seq<U8>, acc: U32, len: nat)
    requires len >= 8
    ensures var b: U8 := Shr(acc, len - 8) % 0x100;
      Unpack(sent + [b]) + ToBits(acc, len - 8) == Unpack(sent) + ToBits(acc, len)
  {
    hide Unpack, ToBits;
    Pow2Values();
    PopBits(acc, len - 8, 8);
    var b: U8 := Shr(acc, len - 8) % 0x100;
    UnpackAppend(sent, b);
    Concat(Unpack(sent), ToBits(b, 8), ToBits(acc, len - 8));
  }

  /** The inner loop that writes all complete bytes. */
  method EmitBytes(out: array?<U8>, v0: nat, acc: U32, len0: nat, ghost sent0: seq<U8>) returns (v: nat, len: nat, ghost sent: seq<U8>)
    requires |sent0| == v0 && (out != null ==> v0 + len0 / 8 <= out.Length && out[..v0] == sent0)
    modifies out
    ensures len < 8 && |sent| == v && 8 * v + len == 8 * v0 + len0
    ensures Unpack(sent) + ToBits(acc, len) == Unpack(sent0) + ToBits(acc, len0)
    ensures out != null ==> v <= out.Length && out[..v] == sent && out[v..] == old(out[v..])
  {
    hide Unpack, ToBits;
    v, len, sent := v0, len0, sent0;
    while len >= 8
      invariant |sent| == v && 8 * v + len == 8 * v0 + len0
      invariant Unpack(sent) + ToBits(acc, len) == Unpack(sent0) + ToBits(acc, len0)
      invariant out != null ==> v + len / 8 <= out.Length && out[..v] == sent && out[v..] == old(out[v..])
    {
      EmitByte(sent, acc, len);
      len := len - 8;
      var b: U8 := Shr(acc, len) % 0x100;
      if out != null {
        out[v] := b;
        assert out[..v + 1] == out[..v] + [b];
      }
      sent := sent + [b];
      v := v + 1;
    }
  }

  /** The last byte holds the remaining bits and then zeros. */
  lemma FlushByte(sent: seq<U8>, acc: U32, len: nat)
    requires 0 < len < 8
    ensures var b: U8 := (acc * Pow2(8 - len)) % 0x100;
      Unpack(sent + [b]) == Unpack(sent) + ToBits(acc, len) + ZeroBits(8 - len)
  {
    hide Unpack, ToBits;
    Pow2Values();
    var k := 8 - len;
    var x := acc * Pow2(k);
    LowBits(x, 8);
    ToBitsSplit(x, len, k);
    ShrPushed(0, acc, k);
    ToBitsShift(0, acc, k);
    ToBitsZero(k);
    UnpackAppend(sent, x % 0x100);
    Concat(Unpack(sent), ToBits(acc, len), ZeroBits(k));
  }

  lemma WrittenAll(f: Format, x: seq<int>, sent: seq<U8>, acc: U32, bytes: seq<U8>, pad: nat)
    requires pad < 8 && Written(f, x, |x|, sent, acc, if pad == 0 then 0 else 8 - pad)
    requires pad == 0 ==> bytes == sent
    requires pad > 0 ==> bytes == sent + [(acc * Pow2(pad)) % 0x100]
    ensures Encodes(f, x, bytes)
  {
    hide InRange, Code, Unpack, ToBits, Encoding;
    assert x[..|x|] == x;
    if pad == 0 {
      assert ToBits(acc, 0) == [];
      assert Encoding(f, x) == Unpack(bytes);
      assert Unpack(bytes) == Encoding(f, x) + ZeroBits(0);
    } else {
      FlushByte(sent, acc, 8 - pad);
    }
  }

  /**
   Encoding of residues or of signed integers of a fixed width. It fails if a value is out of
   range or the buffer is too short; without a buffer it only computes the size.
   */
  method FixedEncode(f: Format, out: array?<U8>, x: seq<int>, logn: nat) returns (r: nat)
    requires Fixed(f) && !f.Compressed? && |x| == Pow2(logn)
    modifies out
    ensures var size := PackedSize(|x|, Width(f));
      r == if AllInRange(f, x) && (out != null ==> size <= out.Length) then size else 0
    ensures out != null && r > 0 ==> Encodes(f, x, out[..r]) && out[r..] == old(out[r..])
    ensures out != null && r == 0 ==> out[..] == old(out[..])
  {
    hide Unpack, ToBits, Encodes, Written, InRange;
    var n := Pow2(logn);
    ShapeOf(f);
    SizePositive(n, Width(f));
    var u := 0;
    while u < n
      invariant 0 <= u <= n && forall i :: 0 <= i < u ==> InRange(f, x[i])
      invariant out != null ==> out[..] == old(out[..])
    {
      if !InRange(f, x[u]) { return 0; }
      u := u + 1;
    }
    var size := PackedSize(n, Width(f));
    if out == null { return size; }
    if size > out.Length { return 0; }
    var acc: U32, len: nat, v: nat := 0, 0, 0;
    ghost var sent: seq<U8> := [];
    WrittenStart(f, x);
    u := 0;
    while u < n
      invariant 0 <= u <= n && len < 8 && |sent| == v <= size
      invariant Written(f, x, u, sent, acc, len) && out[..v] == sent && out[size..] == old(out[size..])
    {
      WrittenPush(f, x, u, sent, acc, len);
      WrittenLength(f, x, u + 1, sent, Pushed(acc, Field(f, x[u]), Width(f)), len + Width(f));
      acc := Pushed(acc, Field(f, x[u]), Width(f));
      len := len + Width(f);
      ghost var sent0, len0 := sent, len;
      v, len, sent := EmitBytes(out, v, acc, len, sent);
      WrittenMoved(f, x, u + 1, sent0, sent, acc, len0, len);
      assert out[size..] == out[v..][size - v..];
      u := u + 1;
    }
    WrittenLength(f, x, n, sent, acc, len);
    if len > 0 {
      out[v] := (acc * Pow2(8 - len)) % 0x100;
      assert out[..v + 1] == out[..v] + [out[v]];
      WrittenAll(f, x, sent, acc, out[..v + 1], 8 - len);
    } else {
      WrittenAll(f, x, sent, acc, out[..v], 0);
    }
    r := size;
  }

  lemma SizePositive(n: nat, w: nat)
    requires n >= 1 && w >= 1
    ensures n * w >= 1 && PackedSize(n, w) >= 1
  {
    MulLe(w, 1, n);
  }

  lemma WrittenMoved(f: Format, x: seq<int>, u: nat, sent0: seq<U8>, sent: seq<U8>, acc: U32, len0: nat, len: nat)
    requires Written(f, x, u, sent0, acc, len0) && Unpack(sent) + ToBits(acc, len) == Unpack(sent0) + ToBits(acc, len0)
    ensures Written(f, x, u, sent, acc, len)
  {}

  // ---- Decoding ----

  /** The bytes read are the values decoded so far and what is still in the accumulator. */
  ghost predicate Read(f: Format, input: seq<U8>, v: nat, x: seq<int>, acc: U32, len: nat) {
    && v <= |input| && AllInRange(f, x)
    && Unpack(input[..v]) == Encoding(f, x) + ToBits(acc, len)
  }

  lemma ReadStart(f: Format, input: seq<U8>)
    ensures Read(f, input, 0, [], 0, 0)
  {
    assert [] + ToBits(0, 0) == [];
  }

  lemma ReadByte(f: Format, input: seq<U8>, v: nat, x: seq<int>, acc: U32, len: nat)
    requires Read(f, input, v, x, acc, len) && v < |input| && len <= 24
    ensures Read(f, input, v + 1, x, Pushed(acc, input[v], 8), len + 8)
  {
    hide Unpack, ToBits, Encoding, InRange;
    Pow2Values();
    assert input[..v + 1] == input[..v] + [input[v]];
    UnpackAppend(input[..v], input[v]);
    PushBits(acc, len, input[v], 8);
    Concat(Encoding(f, x), ToBits(acc, len), ToBits(input[v], 8));
  }

  /** The next field, if it is the code of a value. */
  lemma ReadField(f: Format, input: seq<U8>, v: nat, x: seq<int>, acc: U32, len: nat, value: int)
    requires Fixed(f) && !f.Compressed? && Read(f, input, v, x, acc, len) && len >= Width(f)
    requires InRange(f, value) && Field(f, value) == Shr(acc, len - Width(f)) % Pow2(Width(f))
    ensures Read(f, input, v, x + [value], acc, len - Width(f))
  {
    hide Unpack, ToBits, Encoding, InRange, Code;
    FieldMeaning(f, value);
    PopBits(acc, len - Width(f), Width(f));
    EncodingAppend(f, x, value);
    Concat(Encoding(f, x), Code(f, value), ToBits(acc, len - Width(f)));
  }

  /** A field that is the code of no value. */
  lemma ReadNothing(f: Format, input: seq<U8>, v: nat, x: seq<int>, acc: U32, len: nat, n: nat)
    requires Fixed(f) && !f.Compressed? && Read(f, input, v, x, acc, len) && len >= Width(f) && |x| < n
    requires forall value :: InRange(f, value) ==> Field(f, value) != Shr(acc, len - Width(f)) % Pow2(Width(f))
    ensures forall y: seq<int>, k: nat :: |y| == n && k <= |input| ==> !Encodes(f, y, input[..k])
  {
    hide Unpack, ToBits, Encoding, InRange, Code, Encodes;
    var field := Shr(acc, len - Width(f)) % Pow2(Width(f));
    PopBits(acc, len - Width(f), Width(f));
    var rest := ToBits(field, Width(f)) + (ToBits(acc, len - Width(f)) + Unpack(input[v..]));
    UnpackConcat(input[..v], input[v..]);
    assert input[..v] + input[v..] == input;
    Concat(Encoding(f, x), ToBits(acc, len), Unpack(input[v..]));
    Concat(ToBits(field, Width(f)), ToBits(acc, len - Width(f)), Unpack(input[v..]));
    if StartsWithCode(f, rest) {
      var value: int, t: Bits :| InRange(f, value) && rest == Code(f, value) + t;
      FieldMeaning(f, value);
      SamePrefix(ToBits(field, Width(f)), ToBits(acc, len - Width(f)) + Unpack(input[v..]), Code(f, value), t);
      ToBitsInjective(field, Field(f, value), Width(f));
    }
    forall y: seq<int>, k: nat | |y| == n && k <= |input| ensures !Encodes(f, y, input[..k]) {
      NoCodeNoVector(f, input, x, rest, y, k);
    }
  }

  lemma ReadLength(f: Format, input: seq<U8>, v: nat, x: seq<int>, acc: U32, len: nat)
    requires Fixed(f) && Read(f, input, v, x, acc, len)
    ensures !f.Compressed? && 8 * v == |x| * Width(f) + len
  {
    EncodingLength(f, x);
    assert |Unpack(input[..v])| == 8 * v;
  }

  /** Too few bytes hold no vector of n values. */
  lemma TooShort(f: Format, input: seq<U8>, n: nat)
    requires Fixed(f) && !f.Compressed? && |input| < PackedSize(n, Width(f))
    ensures forall y: seq<int>, k: nat :: |y| == n && k <= |input| ==> !Encodes(f, y, input[..k])
  {
    hide Encodes;
    forall y: seq<int>, k: nat | |y| == n && k <= |input| ensures !Encodes(f, y, input[..k]) {
      if Encodes(f, y, input[..k]) {
        var j := EncodesElim(f, y, input[..k]);
        EncodingLength(f, y);
      }
    }
  }

  /** The final test: the remaining bits of the last byte must be zero. */
  lemma ReadAll(f: Format, input: seq<U8>, v: nat, x: seq<int>, acc: U32, len: nat)
    requires Read(f, input, v, x, acc, len) && len < 8
    ensures acc % Pow2(len) == 0 ==> Encodes(f, x, input[..v])
    ensures acc % Pow2(len) != 0 ==> forall y: seq<int>, k: nat :: |y| == |x| && k <= |input| ==> !Encodes(f, y, input[..k])
  {
    hide Unpack, ToBits, Encoding, InRange, Encodes;
    ZeroTail(acc, len);
    if acc % Pow2(len) == 0 {
      EncodesIntro(f, x, input[..v], ToBits(acc, len));
    } else {
      forall y: seq<int>, k: nat | |y| == |x| && k <= |input| ensures !Encodes(f, y, input[..k]) {
        BadPaddingNoVector(f, input, v, x, ToBits(acc, len), y, k);
      }
    }
  }

  /** Decoding of residues: succeeds exactly when a prefix of the input encodes a vector, and returns it. */
  method ModqDecode(x: array<U16>, logn: nat, input: seq<U8>) returns (r: nat)
    requires x.Length == Pow2(logn)
    modifies x
    ensures r > 0 ==> r == PackedSize(x.Length, 14) <= |input| && Encodes(Modq, x[..], input[..r])
    ensures r == 0 ==> forall y: seq<int>, k: nat :: |y| == x.Length && k <= |input| ==> !Encodes(Modq, y, input[..k])
  {
    hide Unpack, ToBits, Encodes, Read, Encoding, Shr;
    var n := Pow2(logn);
    var size := PackedSize(n, 14);
    SizePositive(n, 14);
    if size > |input| {
      TooShort(Modq, input, n);
      return 0;
    }
    var v: nat, acc: U32, len: nat := 0, 0, 0;
    ReadStart(Modq, input);
    assert x[..0] == [];
    ghost var xs: seq<int> := [];
    var u := 0;
    while u < n
      invariant 0 <= u <= n && len < 14 && x[..u] == xs && v <= size && 8 * v < 14 * n + 8
      invariant Read(Modq, input, v, xs, acc, len) && 8 * v == 14 * u + len
      decreases 14 * n - 8 * v
    {
      ReadByte(Modq, input, v, xs, acc, len);
      acc := Pushed(acc, input[v], 8);
      v := v + 1;
      len := len + 8;
      if len >= 14 {
        var w := Shr(acc, len - 14) % 0x4000;
        FieldIsValue(w);
        if w >= 12289 {
          ReadNothing(Modq, input, v, xs, acc, len, n);
          return 0;
        }
        ReadField(Modq, input, v, xs, acc, len, w);
        len := len - 14;
        x[u] := w;
        assert x[..u + 1] == x[..u] + [w];
        xs := xs + [w];
        u := u + 1;
      }
    }
    assert x[..u] == x[..];
    ReadAll(Modq, input, v, xs, acc, len);
    if acc % Pow2(len) != 0 { return 0; }
    r := size;
  }

  lemma FieldIsValue(w: nat)
    ensures Pow2(14) == 0x4000 && Width(Modq) == 14
    ensures forall value :: InRange(Modq, value) ==> Field(Modq, value) == value
    ensures w < 12289 <==> InRange(Modq, w)
  {
    Pow2Values();
  }

  /** Sign extension of a field; the most negative value is what the decoder forbids. */
  function SignExtend(w: nat, bits: nat): int
    requires bits >= 1
  {
    if w < Pow2(bits - 1) then w else w - Pow2(bits)
  }

  lemma SignExtendMeaning(w: nat, bits: nat)
    requires 1 <= bits <= 16 && w < Pow2(bits)
    ensures -0x8000 <= SignExtend(w, bits) < 0x8000
    ensures SignExtend(w, bits) != -(Pow2(bits - 1) as int) ==>
      InRange(Trim(bits), SignExtend(w, bits)) && Field(Trim(bits), SignExtend(w, bits)) == w
    ensures SignExtend(w, bits) == -(Pow2(bits - 1) as int) ==> forall v :: InRange(Trim(bits), v) ==> Field(Trim(bits), v) != w
  {
    Pow2Monotone(bits - 1, 15);
    Pow2Add(1, 15);
    Pow2Values();
    SignExtendField(w, bits);
    forall v | InRange(Trim(bits), v) ensures Field(Trim(bits), v) == TwosComplement(v, bits) != Pow2(bits - 1) {
      TrimField(v, bits);
    }
  }

  lemma SignExtendSmall(w: nat, bits: nat)
    requires 1 <= bits <= 8 && w < Pow2(bits)
    ensures -0x80 <= SignExtend(w, bits) < 0x80
  {
    Pow2Values();
    Pow2Monotone(bits - 1, 7);
    SignExtendField(w, bits);
    hide *;
  }

  lemma SignExtendField(w: nat, bits: nat)
    requires bits >= 1 && w < Pow2(bits)
    ensures -(Pow2(bits - 1) as int) <= SignExtend(w, bits) < Pow2(bits - 1) && Pow2(bits) == 2 * Pow2(bits - 1)
    ensures Field(Trim(bits), SignExtend(w, bits)) == w
  {
    var s := SignExtend(w, bits);
    RemainderUnique(s, if s < 0 then -1 else 0, w, Pow2(bits));
  }

  lemma TrimField(v: int, bits: nat)
    requires InRange(Trim(bits), v)
    ensures Field(Trim(bits), v) == TwosComplement(v, bits) != Pow2(bits - 1)
  {
    TwosComplementRange(v, bits);
    RemainderUnique(v, if v < 0 then -1 else 0, TwosComplement(v, bits), Pow2(bits));
  }

  /** The inner loop of the decoder: takes complete fields out of the accumulator. */
  method TakeFields(x: array<I16>, bits: nat, input: seq<U8>, v: nat, acc: U32, len0: nat, u0: nat, ghost xs0: seq<int>)
    returns (ok: bool, len: nat, u: nat, ghost xs: seq<int>)
    requires 1 <= bits <= 16 && u0 <= x.Length && x[..u0] == xs0 && len0 < bits + 8
    requires Read(Trim(bits), input, v, xs0, acc, len0)
    modifies x
    ensures ok ==> u0 <= u <= x.Length && x[..u] == xs && (u < x.Length ==> len < bits) && Read(Trim(bits), input, v, xs, acc, len)
    ensures !ok ==> forall y: seq<int>, k: nat :: |y| == x.Length && k <= |input| ==> !Encodes(Trim(bits), y, input[..k])
  {
    hide Unpack, ToBits, Encodes, Read, Encoding, Shr, Pow2, InRange, Field, SignExtend;
    len, u, xs := len0, u0, xs0;
    while len >= bits && u < x.Length
      invariant u0 <= u <= x.Length && x[..u] == xs && len < bits + 8
      invariant Read(Trim(bits), input, v, xs, acc, len)
      decreases len
    {
      var w := Shr(acc, len - bits) % Pow2(bits);
      PopBits(acc, len - bits, bits);
      SignExtendMeaning(w, bits);
      var s := SignExtend(w, bits);
      if s == -(Pow2(bits - 1) as int) {
        ReadNothing(Trim(bits), input, v, xs, acc, len, x.Length);
        return false, len, u, xs;
      }
      ReadField(Trim(bits), input, v, xs, acc, len, s);
      len := len - bits;
      x[u] := s;
      assert x[..u + 1] == x[..u] + [s];
      xs := xs + [s];
      u := u + 1;
    }
    ok := true;
  }

  /** Decoding of signed integers of a fixed width, likewise. */
  method TrimDecode(x: array<I16>, logn: nat, bits: nat, input: seq<U8>) returns (r: nat)
    requires x.Length == Pow2(logn) && 1 <= bits <= 16
    modifies x
    ensures r > 0 ==> r == PackedSize(x.Length, bits) <= |input| && Encodes(Trim(bits), x[..], input[..r])
    ensures r == 0 ==> forall y: seq<int>, k: nat :: |y| == x.Length && k <= |input| ==> !Encodes(Trim(bits), y, input[..k])
  {
    hide Unpack, ToBits, Encodes, Read, Encoding, Shr, InRange, Pushed;
    var n := Pow2(logn);
    var size := PackedSize(n, bits);
    SizePositive(n, bits);
    if size > |input| {
      TooShort(Trim(bits), input, n);
      return 0;
    }
    var v: nat, acc: U32, len: nat, u: nat := 0, 0, 0, 0;
    ReadStart(Trim(bits), input);
    ghost var xs: seq<int> := [];
    while u < n
      invariant 0 <= u <= n && x[..u] == xs && v <= size && 8 * v < n * bits + 8
      invariant Read(Trim(bits), input, v, xs, acc, len) && (u < n ==> len < bits)
      decreases n * bits + 8 - 8 * v
    {
      ReadLength(Trim(bits), input, v, xs, acc, len);
      RoomForField(u, n, bits);
      ReadByte(Trim(bits), input, v, xs, acc, len);
      acc := Pushed(acc, input[v], 8);
      v := v + 1;
      var ok;
      ok, len, u, xs := TakeFields(x, bits, input, v, acc, len + 8, u, xs);
      if !ok { return 0; }
    }
    assert x[..u] == x[..];
    ReadLength(Trim(bits), input, v, xs, acc, len);
    ReadAll(Trim(bits), input, v, xs, acc, len);
    if acc % Pow2(len) != 0 { return 0; }
    r := size;
  }

  /** The same inner loop for 8-bit elements. */
  method TakeSmallFields(x: array<I8>, bits: nat, input: seq<U8>, v: nat, acc: U32, len0: nat, u0: nat, ghost xs0: seq<int>)
    returns (ok: bool, len: nat, u: nat, ghost xs: seq<int>)
    requires 1 <= bits <= 8 && u0 <= x.Length && x[..u0] == xs0 && len0 < bits + 8
    requires Read(Trim(bits), input, v, xs0, acc, len0)
    modifies x
    ensures ok ==> u0 <= u <= x.Length && x[..u] == xs && (u < x.Length ==> len < bits) && Read(Trim(bits), input, v, xs, acc, len)
    ensures !ok ==> forall y: seq<int>, k: nat :: |y| == x.Length && k <= |input| ==> !Encodes(Trim(bits), y, input[..k])
  {
    hide Unpack, ToBits, Encodes, Read, Encoding, Shr, Pow2, InRange, Field, SignExtend;
    len, u, xs := len0, u0, xs0;
    while len >= bits && u < x.Length
      invariant u0 <= u <= x.Length && x[..u] == xs && len < bits + 8
      invariant Read(Trim(bits), input, v, xs, acc, len)
      decreases len
    {
      var w := Shr(acc, len - bits) % Pow2(bits);
      PopBits(acc, len - bits, bits);
      SignExtendMeaning(w, bits);
      SignExtendSmall(w, bits);
      var s := SignExtend(w, bits);
      if s == -(Pow2(bits - 1) as int) {
        ReadNothing(Trim(bits), input, v, xs, acc, len, x.Length);
        return false, len, u, xs;
      }
      ReadField(Trim(bits), input, v, xs, acc, len, s);
      len := len - bits;
      x[u] := s;
      assert x[..u + 1] == x[..u] + [s];
      xs := xs + [s];
      u := u + 1;
    }
    ok := true;
  }

  /** Decoding of signed integers of at most 8 bits into 8-bit elements. */
  method TrimDecodeSmall(x: array<I8>, logn: nat, bits: nat, input: seq<U8>) returns (r: nat)
    requires x.Length == Pow2(logn) && 1 <= bits <= 8
    modifies x
    ensures r > 0 ==> r == PackedSize(x.Length, bits) <= |input| && Encodes(Trim(bits), x[..], input[..r])
    ensures r == 0 ==> forall y: seq<int>, k: nat :: |y| == x.Length && k <= |input| ==> !Encodes(Trim(bits), y, input[..k])
  {
    hide Unpack, ToBits, Encodes, Read, Encoding, Shr, InRange, Pushed;
    var n := Pow2(logn);
    var size := PackedSize(n, bits);
    SizePositive(n, bits);
    if size > |input| {
      TooShort(Trim(bits), input, n);
      return 0;
    }
    var v: nat, acc: U32, len: nat, u: nat := 0, 0, 0, 0;
    ReadStart(Trim(bits), input);
    ghost var xs: seq<int> := [];
    while u < n
      invariant 0 <= u <= n && x[..u] == xs && v <= size && 8 * v < n * bits + 8
      invariant Read(Trim(bits), input, v, xs, acc, len) && (u < n ==> len < bits)
      decreases n * bits + 8 - 8 * v
    {
      ReadLength(Trim(bits), input, v, xs, acc, len);
      RoomForField(u, n, bits);
      ReadByte(Trim(bits), input, v, xs, acc, len);
      acc := Pushed(acc, input[v], 8);
      v := v + 1;
      var ok;
      ok, len, u, xs := TakeSmallFields(x, bits, input, v, acc, len + 8, u, xs);
      if !ok { return 0; }
    }
    assert x[..u] == x[..];
    ReadLength(Trim(bits), input, v, xs, acc, len);
    ReadAll(Trim(bits), input, v, xs, acc, len);
    if acc % Pow2(len) != 0 { return 0; }
    r := size;
  }

  lemma RoomForField(u: nat, n: nat, w: nat)
    requires u < n
    ensures u * w + w <= n * w
  {
    MulLe(w, u + 1, n);
    MulAdd(w, u, 1);
  }
}
