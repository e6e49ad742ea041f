/** Words as strings of bits, most significant bit first, and how an accumulator moves them. */
module BitStrings {
  import opened Words
  import opened Residues

  type Bits = seq<nat>

  /** The w low bits of v. */
  function ToBits(v: nat, w: nat): (b: Bits)
    ensures |b| == w
  {
    if w == 0 then [] else ToBits(v / 2, w - 1) + [v % 2]
  }

  function ZeroBits(k: nat): (b: Bits)
    ensures |b| == k
  {
    seq(k, i => 0)
  }

  /** All bits of a byte string. */
  function Unpack(bytes: seq<U8>): (b: Bits)
    ensures |b| == 8 * |bytes|
  {
    if |bytes| == 0 then [] else Unpack(bytes[..|bytes| - 1]) + ToBits(bytes[|bytes| - 1], 8)
  }

  lemma HalfSum(v: nat, c: nat)
    ensures (v + 2 * c) / 2 == v / 2 + c && (v + 2 * c) % 2 == v % 2
  {}

  lemma Concat(a: Bits, b: Bits, c: Bits)
    ensures (a + b) + c == a + (b + c)
  {}

  /** High bits, then low bits. */
  lemma {:induction false} ToBitsSplit(v: nat, j: nat, k: nat)
    ensures ToBits(v, j + k) == ToBits(Shr(v, k), j) + ToBits(v, k)
    decreases k
  {
    if k > 0 {
      ToBitsSplit(v / 2, j, k - 1);
      Concat(ToBits(Shr(v, k), j), ToBits(v / 2, k - 1), [v % 2]);
    }
  }

  /** Multiples of 2^w do not change the w low bits. */
  lemma {:induction false} ToBitsShift(v: nat, c: nat, w: nat)
    ensures v + c * Pow2(w) >= 0 && ToBits(v + c * Pow2(w), w) == ToBits(v, w)
    decreases w
  {
    assert c * Pow2(w) >= 0;
    if w > 0 {
      var h := Pow2(w - 1);
      assert c * Pow2(w) == 2 * (c * h) by { DoubleProduct(h, c); }
      HalfSum(v, c * h);
      ToBitsShift(v / 2, c, w - 1);
    }
  }

  /** Wrapping to 32 bits keeps up to 32 low bits. */
  lemma ToBitsWrap(x: nat, w: nat)
    requires w <= 32
    ensures ToBits(Wrap32(x), w) == ToBits(x, w)
  {
    hide *;
    var k := x / 0x1_0000_0000;
    Pow2Add(32 - w, w);
    Pow2Values();
    MulAssoc(k, Pow2(32 - w), Pow2(w));
    WrapParts(x);
    ToBitsShift(Wrap32(x), k * Pow2(32 - w), w);
  }

  lemma WrapParts(x: nat)
    ensures x == Wrap32(x) + (x / 0x1_0000_0000) * 0x1_0000_0000
  {}

  lemma {:induction false} ShrPushed(v: nat, c: nat, w: nat)
    requires v < Pow2(w)
    ensures v + c * Pow2(w) >= 0 && Shr(v + c * Pow2(w), w) == c
  {
    if w > 0 {
      var h := Pow2(w - 1);
      assert c * Pow2(w) == 2 * (c * h) by { DoubleProduct(h, c); }
      HalfSum(v, c * h);
      ShrPushed(v / 2, c, w - 1);
    }
  }

  /** The accumulator after pushing the w bits of v. */
  function Pushed(acc: U32, v: nat, w: nat): U32 { Wrap32(acc * Pow2(w) + v) }

  /** Pushing w bits of v into the accumulator puts them below its j low bits. */
  lemma PushBits(acc: U32, j: nat, v: nat, w: nat)
    requires j + w <= 32 && v < Pow2(w)
    ensures ToBits(Pushed(acc, v, w), j + w) == ToBits(acc, j) + ToBits(v, w)
  {
    hide *;
    ToBitsShift(v, acc, w);
    var x: nat := v + acc * Pow2(w);
    ToBitsWrap(x, j + w);
    ToBitsSplit(x, j, w);
    ShrPushed(v, acc, w);
    PushedMeaning(acc, v, w, x);
  }

  lemma PushedMeaning(acc: U32, v: nat, w: nat, x: nat)
    requires x == v + acc * Pow2(w)
    ensures Pushed(acc, v, w) == Wrap32(x)
  {}

  /** The value with the high bits dropped. */
  lemma LowBits(acc: nat, k: nat)
    ensures acc % Pow2(k) < Pow2(k) && ToBits(acc % Pow2(k), k) == ToBits(acc, k)
  {
    hide *;
    ShrValue(acc, k);
    RemainderBound(acc, Pow2(k));
    ToBitsShift(acc % Pow2(k), Shr(acc, k), k);
  }

  /** A shift is a division by a power of two. */
  lemma {:induction false} ShrValue(v: nat, k: nat)
    ensures v == Shr(v, k) * Pow2(k) + v % Pow2(k)
  {
    if k > 0 {
      var q, w := Shr(v, k), Pow2(k - 1);
      ShrValue(v / 2, k - 1);
      var r := v / 2 % w;
      RemainderBound(v / 2, w);
      DoubleProduct(w, q);
      assert q * (2 * w) == 2 * (q * w);
      RemainderUnique(v, q, 2 * r + v % 2, 2 * w);
    }
  }

  /** The field of w bits above the k low ones. */
  lemma PopBits(acc: nat, k: nat, w: nat)
    ensures var f := Shr(acc, k) % Pow2(w);
      0 <= f < Pow2(w) && ToBits(acc, w + k) == ToBits(f, w) + ToBits(acc, k)
  {
    hide *;
    ToBitsSplit(acc, w, k);
    LowBits(Shr(acc, k), w);
  }

  lemma {:induction false} ToBitsInjective(a: nat, b: nat, w: nat)
    requires a < Pow2(w) && b < Pow2(w) && ToBits(a, w) == ToBits(b, w)
    ensures a == b
    decreases w
  {
    if w > 0 {
      var s, t := ToBits(a, w), ToBits(b, w);
      assert s[..w - 1] == ToBits(a / 2, w - 1) && t[..w - 1] == ToBits(b / 2, w - 1);
      assert s[w - 1] == a % 2 && t[w - 1] == b % 2;
      ToBitsInjective(a / 2, b / 2, w - 1);
    }
  }

  lemma {:induction false} ToBitsZero(w: nat)
    ensures ToBits(0, w) == ZeroBits(w)
  {
    if w > 0 { ToBitsZero(w - 1); }
  }

  /** The low bits are zero exactly when the value is a multiple. */
  lemma ZeroTail(acc: nat, k: nat)
    ensures acc % Pow2(k) == 0 <==> ToBits(acc, k) == ZeroBits(k)
  {
    LowBits(acc, k);
    ToBitsZero(k);
    if ToBits(acc, k) == ZeroBits(k) { ToBitsInjective(acc % Pow2(k), 0, k); }
  }

  lemma UnpackAppend(bytes: seq<U8>, b: U8)
    ensures Unpack(bytes + [b]) == Unpack(bytes) + ToBits(b, 8)
  {
    assert (bytes + [b])[..|bytes|] == bytes;
  }

  lemma {:induction false} UnpackConcat(a: seq<U8>, b: seq<U8>)
    ensures Unpack(a + b) == Unpack(a) + Unpack(b)
    decreases |b|
  {
    if |b| == 0 {
      assert a + b == a;
    } else {
      var b', w := b[..|b| - 1], b[|b| - 1];
      UnpackConcat(a, b');
      UnpackAppend(a + b', w);
      assert (a + b') + [w] == a + b;
      Concat(Unpack(a), Unpack(b'), ToBits(w, 8));
    }
  }

  lemma {:induction false} UnpackInjective(a: seq<U8>, b: seq<U8>)
    requires Unpack(a) == Unpack(b)
    ensures a == b
  {
    assert |a| == |b|;
    if |a| > 0 {
      var n := |a| - 1;
      var s, t := Unpack(a), Unpack(b);
      assert s[..8 * n] == Unpack(a[..n]) && t[..8 * n] == Unpack(b[..n]);
      assert s[8 * n..] == ToBits(a[n], 8) && t[8 * n..] == ToBits(b[n], 8);
      UnpackInjective(a[..n], b[..n]);
      Pow2Values();
      ToBitsInjective(a[n], b[n], 8);
      assert a == a[..n] + [a[n]] && b == b[..n] + [b[n]];
    }
  }
}
