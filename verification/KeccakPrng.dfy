/** The counter-mode generator over Keccak-256, as in crypto/keccak_prng.c. */
module KeccakPrng {
  import opened Words
  import opened KeccakSponge

  /** The number whose bytes, most significant first, are b. */
  function WordOf(b: seq<U8>): nat {
    if |b| == 0 then 0 else WordOf(b[..|b| - 1]) * 0x100 + b[|b| - 1]
  }

  /** A number in k bytes, most significant first. */
  function BigEndian(c: nat, k: nat): (b: seq<U8>)
    ensures |b| == k
  {
    if k == 0 then [] else BigEndian(c / 0x100, k - 1) + [c % 0x100]
  }

  /** Reading the bytes gives the number back. */
  lemma {:induction false} WordOfBytes(c: nat, k: nat)
    requires c < Pow2(8 * k)
    ensures WordOf(BigEndian(c, k)) == c
  {
    if k > 0 {
      var b := BigEndian(c, k);
      assert b[..k - 1] == BigEndian(c / 0x100, k - 1);
      DropByte(c, k);
      WordOfBytes(c / 0x100, k - 1);
    }
  }

  lemma DropByte(c: nat, k: nat)
    requires k > 0 && c < Pow2(8 * k)
    ensures c / 0x100 < Pow2(8 * (k - 1))
  {
    Pow2Values();
    Pow2Add(8 * (k - 1), 8);
    var p := Pow2(8 * (k - 1));
    assert c < p * 0x100;
  }

  /** The bytes of a 64-bit counter stand for the counter. */
  lemma CounterBytesMeaning(c: U64)
    ensures WordOf(BigEndian(c, 8)) == c
  {
    hide *;
    Pow2Values();
    Pow2Add(32, 32);
    WordOfBytes(c, 8);
  }

  /** Byte i of a number in k bytes. */
  lemma {:induction false} BigEndianByte(c: nat, k: nat, i: nat)
    requires i < k
    ensures BigEndian(c, k)[i] == Shr(c, 8 * (k - 1 - i)) % 0x100
  {
    if i < k - 1 {
      BigEndianByte(c / 0x100, k - 1, i);
      EightBits(c, 8 * (k - 2 - i));
    }
  }

  /** Block j of the output. */
  ghost function OutputBlock(f: Process, state: seq<U8>, j: nat): (b: seq<U8>)
    ensures |b| == 32
  {
    Digest(f, state + BigEndian(Wrap64(j), 8))
  }

  /** Byte i of the output: the blocks one after the other. */
  ghost function StreamByte(f: Process, state: seq<U8>, i: nat): U8 {
    OutputBlock(f, state, i / 32)[i % 32]
  }

  /** A section of the output. */
  ghost function StreamBytes(f: Process, state: seq<U8>, first: nat, count: nat): (b: seq<U8>)
    ensures |b| == count
  {
    if count == 0 then [] else StreamBytes(f, state, first, count - 1) + [StreamByte(f, state, first + count - 1)]
  }

  lemma {:induction false} StreamAppend(f: Process, state: seq<U8>, first: nat, n: nat, m: nat)
    ensures StreamBytes(f, state, first, n) + StreamBytes(f, state, first + n, m) == StreamBytes(f, state, first, n + m)
    decreases m
  {
    hide StreamByte;
    if m > 0 { StreamAppend(f, state, first, n, m - 1); }
  }

  /** A section within one block. */
  lemma {:induction false} SectionOfBlock(f: Process, state: seq<U8>, block: nat, at: nat, count: nat)
    requires at + count <= 32
    ensures StreamBytes(f, state, 32 * block + at, count) == OutputBlock(f, state, block)[at..at + count]
    decreases count
  {
    hide OutputBlock;
    if count > 0 {
      SectionOfBlock(f, state, block, at, count - 1);
      SplitIndex(block, at + count - 1);
    }
  }

  lemma SplitIndex(block: nat, i: nat)
    requires i < 32
    ensures (32 * block + i) / 32 == block && (32 * block + i) % 32 == i
  {}

  /** The generator: input is injected, the state is fixed by flipping it, and then output is extracted. */
  class Prng {
    const f: Process
    const buffer: array<U8>
    var bufferLen: nat
    var state: seq<U8>
    var counter: U64
    var finalized: bool
    const outBuffer: array<U8>
    var outPos: nat
    var outLen: nat
    /** The number of bytes extracted and of blocks generated so far. */
    ghost var emitted: nat
    ghost var blocks: nat

    ghost predicate Valid()
      reads this, buffer, outBuffer
    {
      && buffer != outBuffer && buffer.Length == 4096 && bufferLen <= 4096 && outBuffer.Length == 32
      && counter == Wrap64(blocks) && outPos <= outLen && (outLen == 0 || outLen == 32)
      && (!finalized ==> blocks == 0 && emitted == 0 && outLen == 0)
      && (finalized ==>
          && |state| == 32 && state == Digest(f, buffer[..bufferLen])
          && emitted + (outLen - outPos) == 32 * blocks
          && (outLen == 32 <==> blocks > 0)
          && (blocks > 0 ==> outBuffer[..] == OutputBlock(f, state, blocks - 1)))
    }

    /** All input so far. */
    ghost function Injected(): seq<U8>
      requires Valid()
      reads this, buffer, outBuffer
    {
      buffer[..bufferLen]
    }

    constructor (f: Process)
      ensures Valid() && fresh(buffer) && fresh(outBuffer) && this.f == f && !finalized && Injected() == []
    {
      this.f := f;
      buffer := new U8[4096];
      bufferLen := 0;
      state := seq(32, i => 0);
      counter := 0;
      finalized := false;
      outBuffer := new U8[32];
      outPos := 0;
      outLen := 0;
      emitted := 0;
      blocks := 0;
    }

    /** Appends input; refused after flipping or when the buffer would overflow. */
    method Inject(data: seq<U8>) returns (r: int)
      requires Valid()
      modifies this, buffer
      ensures Valid() && finalized == old(finalized) && emitted == old(emitted)
      ensures r == if old(finalized) then -2 else if |old(Injected())| + |data| > 4096 then -3 else 0
      ensures Injected() == if r == 0 then old(Injected()) + data else old(Injected())
    {
      if finalized { return -2; }
      if bufferLen + |data| > 4096 { return -3; }
      CopyBytes(buffer, bufferLen, data);
      assert buffer[..bufferLen + |data|] == old(buffer[..bufferLen]) + data;
      bufferLen := bufferLen + |data|;
      r := 0;
    }

    /** Hashes the input into the state. */
    method Flip() returns (r: int)
      requires Valid()
      modifies this
      ensures Valid() && finalized && Injected() == old(Injected())
      ensures r == if old(finalized) then -2 else 0
      ensures r == 0 ==> state == Digest(f, Injected()) && emitted == 0
      ensures r != 0 ==> emitted == old(emitted)
    {
      hide Digest, OutputBlock;
      if finalized { return -2; }
      state := HashOf(buffer[..bufferLen]);
      finalized := true;
      outPos, outLen := 0, 0;
      r := 0;
    }

    /** Generates the next block of output. */
    method BlockAfter()
      requires Valid() && finalized && outPos == outLen
      modifies this, outBuffer
      ensures Valid() && finalized && Injected() == old(Injected()) && state == old(state)
      ensures outPos == 0 && outLen == 32 && emitted == old(emitted) && blocks == old(blocks) + 1
    {
      hide Digest, BigEndian, Wrap64;
      var tail := CounterBytes();
      var digest := HashOf(state + tail);
      CopyBytes(outBuffer, 0, digest);
      assert outBuffer[..] == outBuffer[0..0 + |digest|] == digest;
      outLen, outPos := 32, 0;
      NextCounter(blocks);
      counter := Wrap64(counter + 1);
      blocks := blocks + 1;
      assert buffer[..bufferLen] == old(buffer[..bufferLen]);
    }

    /** The bytes of the counter, most significant first. */
    method CounterBytes() returns (b: seq<U8>)
      ensures |b| == 8 && b == BigEndian(counter, 8) && WordOf(b) == counter
    {
      hide BigEndian, WordOf, Shr;
      b := [];
      var i := 0;
      while i < 8
        invariant 0 <= i == |b| <= 8
        invariant forall k :: 0 <= k < i ==> b[k] == BigEndian(counter, 8)[k]
      {
        BigEndianByte(counter, 8, i);
        b := b + [Shr(counter, 56 - 8 * i) % 0x100];
        i := i + 1;
      }
      CounterBytesMeaning(counter);
    }

    /** One hash computation. */
    method HashOf(block: seq<U8>) returns (digest: seq<U8>)
      requires |block| < 0x1_0000
      ensures digest == Digest(f, block) && |digest| == 32
    {
      hide Digest;
      var ctx := new Sha3Ctx(f);
      ctx.Update(block);
      assert [] + block == block;
      digest := ctx.Final();
    }

    /** Takes the next k bytes of the current block. */
    method Take(out: array<U8>, offset: nat, k: nat)
      requires Valid() && finalized && outPos + k <= outLen && offset + k <= out.Length && out != buffer && out != outBuffer
      modifies out, this`outPos, this`emitted
      ensures Valid() && finalized && emitted == old(emitted) + k && outPos == old(outPos) + k && Injected() == old(Injected())
      ensures out[..offset + k] == old(out[..offset]) + StreamBytes(f, state, old(emitted), k)
    {
      hide Digest, StreamBytes, OutputBlock, Wrap64;
      if k > 0 { SectionOfBlock(f, state, blocks - 1, outPos, k); }
      var section := outBuffer[outPos..outPos + k];
      assert section == StreamBytes(f, state, emitted, k);
      CopyBytes(out, offset, section);
      assert out[..offset + k] == out[..offset] + out[offset..offset + k];
      outPos := outPos + k;
      emitted := emitted + k;
    }

    /** The first part of a request: what is left of the current block. */
    method TakeLeftover(out: array<U8>) returns (offset: nat)
      requires Valid() && finalized && out != buffer && out != outBuffer
      modifies out, this`outPos, this`emitted
      ensures Valid() && finalized && Injected() == old(Injected())
      ensures offset <= out.Length && emitted == old(emitted) + offset && (offset < out.Length ==> outPos == outLen)
      ensures out[..offset] == StreamBytes(f, state, old(emitted), offset)
    {
      hide Valid, StreamBytes;
      ValidBounds();
      offset := 0;
      if outLen > outPos {
        var available := outLen - outPos;
        offset := if out.Length < available then out.Length else available;
        Take(out, 0, offset);
        assert out[..offset] == [] + StreamBytes(f, state, old(emitted), offset);
      } else {
        NoBytes(f, state, emitted);
      }
    }

    /** One more part of a request: a new block, or its beginning. */
    method TakeFresh(out: array<U8>, offset: nat) returns (next: nat)
      requires Valid() && finalized && out != buffer && out != outBuffer && offset < out.Length && outPos == outLen
      modifies this, outBuffer, out
      ensures Valid() && finalized && Injected() == old(Injected()) && state == old(state)
      ensures offset < next <= out.Length && emitted == old(emitted) + next - offset && (next < out.Length ==> outPos == outLen)
      ensures out[..next] == old(out[..offset]) + StreamBytes(f, state, old(emitted), next - offset)
    {
      hide Valid, StreamBytes;
      BlockAfter();
      var remaining := out.Length - offset;
      var toCopy := if remaining < 32 then remaining else 32;
      assert out[..offset] == old(out[..offset]);
      Take(out, offset, toCopy);
      next := offset + toCopy;
      ValidBounds();
    }

    /** Writes the next bytes of the stream, whatever the sizes of this and earlier requests. */
    method Extract(out: array<U8>) returns (r: int)
      requires Valid() && out != buffer && out != outBuffer
      modifies this, outBuffer, out
      ensures Valid() && finalized == old(finalized) && Injected() == old(Injected())
      ensures r == if old(finalized) then 0 else -2
      ensures r == 0 ==> state == old(state) && emitted == old(emitted) + out.Length
      ensures r == 0 ==> out[..] == StreamBytes(f, state, old(emitted), out.Length)
    {
      hide Valid, StreamBytes;
      if !finalized { return -2; }
      ghost var e0, s0 := emitted, state;
      var offset := TakeLeftover(out);
      while offset < out.Length
        invariant 0 <= offset <= out.Length && Valid() && finalized && Injected() == old(Injected()) && state == s0
        invariant emitted == e0 + offset && (offset < out.Length ==> outPos == outLen)
        invariant out[..offset] == StreamBytes(f, s0, e0, offset)
      {
        var next := TakeFresh(out, offset);
        StreamAppend(f, s0, e0, offset, next - offset);
        offset := next;
      }
      assert out[..offset] == out[..];
      r := 0;
    }

    lemma ValidBounds()
      requires Valid()
      ensures outPos <= outLen <= 32
    {}
  }

  lemma NoBytes(f: Process, state: seq<U8>, first: nat)
    ensures StreamBytes(f, state, first, 0) == []
  {}

  lemma NextCounter(j: nat)
    ensures Wrap64(Wrap64(j) + 1) == Wrap64(j + 1)
  {}
}
