/**
 Hashing to a point with the Keccak generator, as in crypto/common.c, and the same on the
 Ethereum virtual machine, as in contracts/DFVRF_HashToPoint.sol.
 */
module KeccakPoint {
  import opened Words
  import opened Residues
  import opened BitStrings
  import opened KeccakSponge
  import opened KeccakPrng
  import opened HashToPoint

  /** The samples that start at byte first of the output. */
  ghost function StreamSamples(f: Process, state: seq<U8>, first: nat, count: nat): (s: seq<U16>)
    ensures |s| == count
  {
    if count == 0 then []
    else StreamSamples(f, state, first, count - 1) + [SampleAt(f, state, first + 2 * (count - 1))]
  }

  ghost function SampleAt(f: Process, state: seq<U8>, i: nat): U16 {
    StreamByte(f, state, i) as int * 0x100 + StreamByte(f, state, i + 1)
  }

  lemma SampleBytes(f: Process, state: seq<U8>, i: nat)
    ensures StreamBytes(f, state, i, 2)[0] as int * 0x100 + StreamBytes(f, state, i, 2)[1] == SampleAt(f, state, i)
  {
    hide StreamByte;
    assert StreamBytes(f, state, i, 1) == [] + [StreamByte(f, state, i)];
    assert StreamBytes(f, state, i, 2) == StreamBytes(f, state, i, 1) + [StreamByte(f, state, i + 1)];
  }

  /** The residues accepted among the first count samples. */
  ghost function Found(f: Process, state: seq<U8>, first: nat, count: nat): seq<U16> {
    Accepted(StreamSamples(f, state, first, count))
  }

  lemma FoundNext(f: Process, state: seq<U8>, first: nat, count: nat)
    ensures Found(f, state, first, 0) == []
    ensures var w := SampleAt(f, state, first + 2 * count);
      Found(f, state, first, count + 1) == Found(f, state, first, count) + (if w < 61445 then [w % 12289] else [])
  {
    hide Accepted, SampleAt;
    var s := StreamSamples(f, state, first, count + 1);
    AcceptedStep(s, count);
    AcceptedNone(s);
    assert s[..count + 1] == s && s[..count] == StreamSamples(f, state, first, count);
    assert s[..0] == StreamSamples(f, state, first, 0);
  }

  /** More samples only append. */
  lemma {:induction false} FoundMonotone(f: Process, state: seq<U8>, first: nat, m: nat, n: nat)
    requires m <= n
    ensures Found(f, state, first, m) <= Found(f, state, first, n)
    decreases n
  {
    hide Found, SampleAt;
    if m < n {
      FoundMonotone(f, state, first, m, n - 1);
      FoundNext(f, state, first, n - 1);
    }
  }

  /** The rejection loop over the generator: the first n accepted residues of what it emits next. */
  method KeccakHashToPointVartime(kc: Prng, x: array<U16>, ghost bound: nat)
    requires kc.Valid() && kc.finalized
    requires |Found(kc.f, kc.state, kc.emitted, bound)| >= x.Length
    modifies kc, kc.outBuffer, x
    ensures kc.Valid() && kc.state == old(kc.state)
    ensures x[..] == Found(kc.f, old(kc.state), old(kc.emitted), bound)[..x.Length]
  {
    hide Prng.Valid, Found, SampleAt, StreamBytes;
    ghost var state, first := kc.state, kc.emitted;
    ghost var used: nat := 0;
    var buf := new U8[2];
    var i := 0;
    FoundNext(kc.f, state, first, 0);
    while i < x.Length
      invariant 0 <= i <= x.Length && kc.Valid() && kc.finalized && kc.state == state && kc.emitted == first + 2 * used
      invariant x[..i] == Found(kc.f, state, first, used) && fresh(buf) && buf.Length == 2
      decreases bound - used
    {
      if used >= bound { FoundMonotone(kc.f, state, first, bound, used); }
      var r := kc.Extract(buf);
      SampleBytes(kc.f, state, first + 2 * used);
      FoundNext(kc.f, state, first, used);
      assert buf[0] == buf[..][0] && buf[1] == buf[..][1];
      var w: U16 := buf[0] as int * 0x100 + buf[1];
      used := used + 1;
      if w < 61445 {
        var v := SubtractQ(w);
        x[i] := v;
        assert x[..i + 1] == x[..i] + [w % 12289];
        i := i + 1;
      }
    }
    if used <= bound {
      FoundMonotone(kc.f, state, first, used, bound);
    } else {
      FoundMonotone(kc.f, state, first, bound, used);
    }
    assert x[..i] == x[..];
  }

  /** Shifting out the last k bytes. */
  lemma {:induction false} ShiftBytes(b: seq<U8>, k: nat)
    requires k <= |b|
    ensures Shr(WordOf(b), 8 * k) == WordOf(b[..|b| - k])
    decreases k
  {
    if k == 0 {
      assert b[..|b|] == b;
    } else {
      var c := b[..|b| - 1];
      ShiftBytes(c, k - 1);
      assert c[..|c| - (k - 1)] == b[..|b| - k];
      Pow2Values();
      ShrPushed(b[|b| - 1], WordOf(c), 8);
      ShrAdd(WordOf(b), 8, 8 * (k - 1));
    }
  }

  /** The k-th 16-bit chunk of a word consists of bytes 2k and 2k + 1. */
  lemma Chunk(b: seq<U8>, k: nat)
    requires |b| == 32 && k < 16
    ensures Shr(WordOf(b), 240 - 16 * k) % 0x1_0000 == b[2 * k] as int * 0x100 + b[2 * k + 1]
  {
    hide Shr, WordOf;
    ShiftBytes(b, 30 - 2 * k);
    var c := b[..2 * k + 2];
    LastByte(c);
    LastByte(b[..2 * k + 1]);
    assert c[..2 * k + 1] == b[..2 * k + 1] && b[..2 * k + 1][..2 * k] == b[..2 * k];
    LastTwo(WordOf(b[..2 * k]), b[2 * k], b[2 * k + 1]);
  }

  lemma LastByte(b: seq<U8>)
    requires |b| > 0
    ensures WordOf(b) == WordOf(b[..|b| - 1]) * 0x100 + b[|b| - 1]
  {}

  lemma LastTwo(w: nat, h: U8, l: U8)
    ensures ((w * 0x100 + h) * 0x100 + l) % 0x1_0000 == h as int * 0x100 + l
  {
    RemainderUnique((w * 0x100 + h) * 0x100 + l, w, h as int * 0x100 + l, 0x1_0000);
  }

  /** 2^192: one step of the 64-bit counter at the top of a 256-bit word. */
  const COUNTER_STEP: nat := 6277101735386680763835789423207666416102355444464034512896

  lemma CounterStep()
    ensures COUNTER_STEP == Pow2(192)
  {
    Pow2Values();
    Pow2Add(32, 32);
    Pow2Add(64, 64);
    Pow2Add(128, 64);
  }

  /** The counter word after j blocks. */
  lemma CounterNext(c: nat, j: nat)
    requires c == Wrap64(j) * COUNTER_STEP
    ensures Shr(c, 192) == Wrap64(j) && COUNTER_STEP * 0x1_0000_0000_0000_0000 > 0
    ensures (c + COUNTER_STEP) % (COUNTER_STEP * 0x1_0000_0000_0000_0000) == Wrap64(j + 1) * COUNTER_STEP
  {
    CounterStep();
    ShrPushed(0, Wrap64(j), 192);
    WrapCounter(Wrap64(j), COUNTER_STEP);
    NextCounter(j);
  }

  lemma WrapCounter(c: U64, w: nat)
    requires w > 0
    ensures w * 0x1_0000_0000_0000_0000 > 0 && (c * w + w) % (w * 0x1_0000_0000_0000_0000) == Wrap64(c + 1) * w
  {
    var m := 0x1_0000_0000_0000_0000;
    MulAdd(w, c, 1);
    assert c * w + w == (c + 1) * w;
    if c + 1 == m {
      RemainderUnique(m * w, 1, 0, w * m);
    } else {
      MulLe(w, c + 2, m);
      MulAdd(w, c + 1, 1);
      assert (c + 1) * w < w * m;
      RemainderUnique((c + 1) * w, 0, (c + 1) * w, w * m);
    }
  }

  /** The first k of k + m bytes are those of the number without its last m bytes. */
  lemma {:induction false} FrontBytes(c: nat, k: nat, m: nat)
    ensures BigEndian(c, k + m)[..k] == BigEndian(Shr(c, 8 * m), k)
    decreases m
  {
    if m > 0 {
      var b := BigEndian(c / 0x100, k + m - 1);
      FrontBytes(c / 0x100, k, m - 1);
      EightBits(c, 8 * (m - 1));
      assert BigEndian(c, k + m) == b + [c % 0x100];
      assert BigEndian(c, k + m)[..k] == b[..k];
    }
  }

  /** Sample 16 * j + k of the output is chunk k of block j. */
  lemma SampleOfBlock(f: Process, state: seq<U8>, j: nat, k: nat)
    requires k < 16
    ensures Shr(WordOf(OutputBlock(f, state, j)), 240 - 16 * k) % 0x1_0000 == SampleAt(f, state, 2 * (16 * j + k))
  {
    hide OutputBlock, Shr;
    Chunk(OutputBlock(f, state, j), k);
    SplitIndex(j, 2 * k);
    SplitIndex(j, 2 * k + 1);
    assert 2 * (16 * j + k) == 32 * j + 2 * k;
  }

  /** The chunks of one block, up to the one that completes the output. */
  method TakeChunks(output: array<nat>, i0: nat, buffer: nat, ghost f: Process, ghost state: seq<U8>, ghost j: nat)
    returns (i: nat, ghost used: nat)
    requires output.Length == 512 && i0 < 512 && buffer == WordOf(OutputBlock(f, state, j))
    requires output[..i0] == Found(f, state, 0, 16 * j)
    modifies output
    ensures i <= 512 && output[..i] == Found(f, state, 0, used) && (i < 512 ==> used == 16 * j + 16)
  {
    hide Found, SampleAt, WordOf, OutputBlock, Shr;
    i := i0;
    var k := 0;
    used := 16 * j;
    while k < 16
      invariant 0 <= k <= 16 && i < 512 && used == 16 * j + k && output[..i] == Found(f, state, 0, used)
    {
      var shift := 240 - 16 * k;
      var chunk := Shr(buffer, shift) % 0x1_0000;
      SampleOfBlock(f, state, j, k);
      FoundNext(f, state, 0, used);
      used := used + 1;
      if chunk < 61445 {
        output[i] := chunk % 12289;
        assert output[..i + 1] == output[..i] + [chunk % 12289];
        i := i + 1;
        if i == 512 { return; }
      }
      k := k + 1;
    }
  }

  /** The virtual machine's form: one hash per block, sixteen chunks per hash. */
  method HashToPointEVM(f: Process, salt: seq<U8>, msgHash: seq<U8>, ghost bound: nat) returns (output: array<nat>)
    requires |Found(f, Digest(f, salt + msgHash), 0, bound)| >= 512
    ensures fresh(output) && output.Length == 512
    ensures output[..] == Found(f, Digest(f, salt + msgHash), 0, bound)[..512]
  {
    hide Found, Digest, WordOf, BigEndian, Shr, COUNTER_STEP;
    output := new nat[512];
    var state := Digest(f, salt + msgHash);
    var counter := 0;
    var i := 0;
    ghost var j, used: nat := 0, 0;
    FoundNext(f, state, 0, 0);
    WrapZero();
    while i < 512
      invariant 0 <= i <= 512 && counter == Wrap64(j) * COUNTER_STEP
      invariant output[..i] == Found(f, state, 0, used) && (i < 512 ==> used == 16 * j)
      decreases if i < 512 then bound - j else -1
    {
      NotEnough(f, state, bound, used, i);
      CounterNext(counter, j);
      FrontBytes(counter, 8, 24);
      var buffer := WordOf(Digest(f, state + BigEndian(counter, 32)[..8]));
      i, used := TakeChunks(output, i, buffer, f, state, j);
      counter := (counter + COUNTER_STEP) % (COUNTER_STEP * 0x1_0000_0000_0000_0000);
      j := j + 1;
    }
    SameFront(f, state, used, bound, 512);
    assert output[..i] == output[..];
  }

  /** While the output is incomplete, fewer than bound samples were used. */
  lemma NotEnough(f: Process, state: seq<U8>, bound: nat, used: nat, i: nat)
    requires |Found(f, state, 0, bound)| >= 512 && |Found(f, state, 0, used)| == i < 512
    ensures used < bound
  {
    if bound <= used { FoundMonotone(f, state, 0, bound, used); }
  }

  /** Two runs that both found n residues found the same first n. */
  lemma SameFront(f: Process, state: seq<U8>, m: nat, bound: nat, n: nat)
    requires |Found(f, state, 0, m)| >= n && |Found(f, state, 0, bound)| >= n
    ensures Found(f, state, 0, m)[..n] == Found(f, state, 0, bound)[..n]
  {
    hide Found;
    if m <= bound { FoundMonotone(f, state, 0, m, bound); } else { FoundMonotone(f, state, 0, bound, m); }
  }

  lemma WrapZero()
    ensures Wrap64(0) * COUNTER_STEP == 0
  {}

  /** Runs both forms: injecting the salt and then the message makes the generator produce what the virtual machine computes. */
  method HashByBothForms(f: Process, salt: seq<U8>, msgHash: seq<U8>, ghost bound: nat) returns (x: array<U16>, output: array<nat>)
    requires |salt| + |msgHash| <= 4096
    requires |Found(f, Digest(f, salt + msgHash), 0, bound)| >= 512
    ensures x[..] == output[..] && x.Length == 512
  {
    hide Prng.Valid, Found, Digest;
    var kc := new Prng(f);
    var r := kc.Inject(salt);
    assert [] + salt == salt;
    r := kc.Inject(msgHash);
    r := kc.Flip();
    x := new U16[512];
    KeccakHashToPointVartime(kc, x, bound);
    output := HashToPointEVM(f, salt, msgHash, bound);
  }

  /** The constant-time form over the generator. */
  method KeccakHashToPointCt(kc: Prng, x: array<U16>, tmp: array<U16>, logn: nat)
    requires 1 <= logn <= 10 && x.Length == tmp.Length == Pow2(logn) && x != tmp && kc.Valid() && kc.finalized
    modifies kc, kc.outBuffer, x, tmp
    ensures var found := Found(kc.f, old(kc.state), old(kc.emitted), Pow2(logn) + Over(logn));
      if |found| >= x.Length then x[..] == found[..x.Length] else exists i :: 0 <= i < x.Length && !Kept(x[i])
  {
    hide Prng.Valid, SampleAt, StreamBytes, Over, Accepted;
    ghost var state, first := kc.state, kc.emitted;
    var m := Pow2(logn) + Over(logn);
    var samples: seq<U16> := [];
    var buf := new U8[2];
    while |samples| < m
      invariant |samples| <= m && kc.Valid() && kc.finalized && kc.state == state && kc.emitted == first + 2 * |samples|
      invariant samples == StreamSamples(kc.f, state, first, |samples|) && fresh(buf) && buf.Length == 2
    {
      var r := kc.Extract(buf);
      SampleBytes(kc.f, state, first + 2 * |samples|);
      assert buf[0] == buf[..][0] && buf[1] == buf[..][1];
      samples := samples + [buf[0] as int * 0x100 + buf[1]];
    }
    assert samples[..m] == samples;
    HashToPointCt(x, tmp, samples, logn);
  }
}
