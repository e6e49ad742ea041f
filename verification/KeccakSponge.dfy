/** Block buffering and padding of the Keccak-256 hash, as in crypto/keccak256.c; the permutation is a parameter. */
module KeccakSponge {
  import opened Words

  /** The state: 25 words. */
  type State = s: seq<U64> | |s| == 25 witness seq(25, i => 0)

  /** Absorption of one block into the state. */
  type Process = (State, seq<U8>) -> State

  function InitialState(): State { seq(25, i => 0) }

  /** Absorption of whole blocks. */
  function Absorb(f: Process, s: State, m: seq<U8>): State
    requires |m| % 136 == 0
  {
    if |m| == 0 then s else f(Absorb(f, s, m[..|m| - 136]), m[|m| - 136..])
  }

  /** Padding: a first bit after the message, a last bit at the end of the block. */
  function Pad(m: seq<U8>): (p: seq<U8>)
    ensures |p| % 136 == 0
  {
    var k := 136 - |m| % 136;
    if k == 1 then m + [0x81] else m + [0x01] + seq(k - 2, i => 0) + [0x80]
  }

  /** A number in k bytes, least significant first. */
  function LittleEndian(w: nat, k: nat): (b: seq<U8>)
    ensures |b| == k
  {
    if k == 0 then [] else [w % 0x100] + LittleEndian(w / 0x100, k - 1)
  }

  /** The first 32 bytes of the state: four words. */
  function OutputBytes(s: State): (r: seq<U8>)
    ensures |r| == 32
  {
    LittleEndian(s[0], 8) + LittleEndian(s[1], 8) + LittleEndian(s[2], 8) + LittleEndian(s[3], 8)
  }

  /** Byte i of a number. */
  lemma {:induction false} LittleEndianByte(w: nat, k: nat, i: nat)
    requires i < k
    ensures LittleEndian(w, k)[i] == Shr(w, 8 * i) % 0x100
  {
    if i > 0 {
      LittleEndianByte(w / 0x100, k - 1, i - 1);
      EightBits(w, 8 * (i - 1));
    }
  }

  lemma EightBits(w: nat, k: nat)
    ensures Shr(w, k + 8) == Shr(w / 0x100, k)
  {
    SixteenTimes(w, k + 4);
    SixteenTimes(w / 0x10, k);
  }

  lemma SixteenTimes(w: nat, k: nat)
    ensures Shr(w, k + 4) == Shr(w / 0x10, k)
  {
    assert Shr(w, k + 4) == Shr(w / 2, k + 3) == Shr(w / 2 / 2, k + 2) == Shr(w / 2 / 2 / 2, k + 1) == Shr(w / 2 / 2 / 2 / 2, k);
  }

  /** Byte j of word i of the output. */
  lemma OutputByte(s: State, i: nat, j: nat)
    requires i < 4 && j < 8
    ensures OutputBytes(s)[8 * i + j] == Shr(s[i], 8 * j) % 0x100
  {
    hide LittleEndian;
    LittleEndianByte(s[i], 8, j);
  }

  /** The eight bytes of word i, least significant first, sum to the word. */
  lemma OutputWord(s: State, i: nat)
    requires i < 4
    ensures var b: seq<int> := OutputBytes(s)[8 * i..8 * i + 8];
      s[i] == b[0] + 0x100 * b[1] + 0x1_0000 * b[2] + 0x100_0000 * b[3] + 0x1_0000_0000 * b[4]
              + 0x100_0000_0000 * b[5] + 0x1_0000_0000_0000 * b[6] + 0x100_0000_0000_0000 * b[7]
  {
    var w := s[i];
    var b: seq<int> := LittleEndian(w, 8);
    assert OutputBytes(s)[8 * i..8 * i + 8] == b by { hide LittleEndian; }
    LittleEndianSum(w);
  }

  lemma LittleEndianSum(w: U64)
    ensures var b: seq<int> := LittleEndian(w, 8);
      w == b[0] + 0x100 * b[1] + 0x1_0000 * b[2] + 0x100_0000 * b[3] + 0x1_0000_0000 * b[4]
           + 0x100_0000_0000 * b[5] + 0x1_0000_0000_0000 * b[6] + 0x100_0000_0000_0000 * b[7]
  {
    var w1 := w / 0x100;
    var w2 := w1 / 0x100;
    var w3 := w2 / 0x100;
    var w4 := w3 / 0x100;
    var w5 := w4 / 0x100;
    var w6 := w5 / 0x100;
    var w7 := w6 / 0x100;
    assert LittleEndian(w7, 1) == [w7 % 0x100];
    assert LittleEndian(w6, 2) == [w6 % 0x100, w7 % 0x100];
    assert LittleEndian(w5, 3) == [w5 % 0x100, w6 % 0x100, w7 % 0x100];
    assert LittleEndian(w4, 4) == [w4 % 0x100, w5 % 0x100, w6 % 0x100, w7 % 0x100];
    assert LittleEndian(w3, 5) == [w3 % 0x100] + LittleEndian(w4, 4);
    assert LittleEndian(w2, 6) == [w2 % 0x100] + LittleEndian(w3, 5);
    assert LittleEndian(w1, 7) == [w1 % 0x100] + LittleEndian(w2, 6);
    assert LittleEndian(w, 8) == [w % 0x100] + LittleEndian(w1, 7);
  }

  /** The hash of a message. */
  function Digest(f: Process, m: seq<U8>): (r: seq<U8>)
    ensures |r| == 32
  {
    OutputBytes(Absorb(f, InitialState(), Pad(m)))
  }

  lemma AbsorbBlock(f: Process, s: State, m: seq<U8>, b: seq<U8>)
    requires |m| % 136 == 0 && |b| == 136
    ensures Absorb(f, s, m + b) == f(Absorb(f, s, m), b)
  {
    assert (m + b)[..|m|] == m && (m + b)[|m|..] == b;
  }

  method CopyBytes(a: array<U8>, at: nat, s: seq<U8>)
    requires at + |s| <= a.Length
    modifies a
    ensures a[..at] == old(a[..at]) && a[at..at + |s|] == s && a[at + |s|..] == old(a[at + |s|..])
  {
    var i := 0;
    while i < |s|
      invariant 0 <= i <= |s| && a[..at] == old(a[..at])
      invariant forall k :: at <= k < at + i ==> a[k] == s[k - at]
      invariant forall k :: at + i <= k < a.Length ==> a[k] == old(a[k])
    {
      a[at + i] := s[i];
      i := i + 1;
    }
  }

  /** A hash computation in progress; contents is the message so far. */
  class Sha3Ctx {
    const f: Process
    var hash: State
    const message: array<U8>
    var rest: nat
    ghost var contents: seq<U8>

    ghost predicate Valid()
      reads this, message
    {
      && message.Length == 136 && rest == |contents| % 136
      && Buffered(f, hash, message[..rest], contents)
    }

    constructor (f: Process)
      ensures Valid() && fresh(message) && this.f == f && contents == []
    {
      this.f := f;
      hash := seq(25, i => 0);
      message := new U8[136];
      rest := 0;
      contents := [];
      new;
      assert message[..0] == [];
    }

    /** Saves bytes that do not complete the block. */
    method Save(more: seq<U8>)
      requires Valid() && rest + |more| < 136
      modifies this, message
      ensures Valid() && contents == old(contents) + more && rest == old(rest) + |more|
    {
      hide Buffered;
      var idx := rest;
      BufferMore(f, hash, message[..idx], contents, more);
      CopyBytes(message, idx, more);
      assert message[..idx + |more|] == old(message[..idx]) + more;
      contents := contents + more;
      rest := idx + |more|;
    }

    /** Completes the block and absorbs it. */
    method Complete(more: seq<U8>)
      requires Valid() && rest + |more| == 136
      modifies this, message
      ensures Valid() && contents == old(contents) + more && rest == 0
    {
      hide Buffered;
      var idx := rest;
      BufferFull(f, hash, message[..idx], contents, more);
      CopyBytes(message, idx, more);
      assert message[..] == old(message[..idx]) + more;
      hash := f(hash, message[..]);
      contents := contents + more;
      rest := 0;
      assert message[..0] == [];
    }

    /** Appends to the message, whatever the sizes of this and earlier pieces. */
    method Update(msg: seq<U8>)
      requires Valid() && |msg| < 0x1_0000
      modifies this, message
      ensures Valid() && contents == old(contents) + msg
    {
      hide Buffered;
      var off := 0;
      assert msg[..0] == [] && contents + [] == contents;
      if rest != 0 {
        var left := 136 - rest;
        if |msg| < left {
          Save(msg);
          return;
        }
        Complete(msg[..left]);
        off := left;
      }
      while |msg| - off >= 136
        invariant 0 <= off <= |msg| && rest == 0 && Valid() && contents == old(contents) + msg[..off]
      {
        Complete(msg[off..off + 136]);
        assert msg[..off] + msg[off..off + 136] == msg[..off + 136];
        off := off + 136;
      }
      Save(msg[off..]);
      assert msg[..off] + msg[off..] == msg;
    }

    /** The digest of the message, after padding the last block. */
    method Final() returns (r: seq<U8>)
      requires Valid()
      modifies this, message
      ensures r == Digest(f, old(contents))
    {
      hide Buffered;
      ghost var tail := message[..rest];
      TailMeaning(f, hash, tail, contents);
      var k := rest;
      while k < 136
        invariant rest <= k <= 136 && message[..rest] == tail
        invariant forall i :: rest <= i < k ==> message[i] == 0
        modifies message
      {
        message[k] := 0;
        k := k + 1;
      }
      message[rest] := 0x01;
      message[135] := SetTop(message[135]);
      assert message[..rest] == tail;
      PaddedBlock(message[..], tail, contents);
      DigestMeaning(f, hash, tail, contents, message[..]);
      hash := f(hash, message[..]);
      r := CopyOut();
    }

    /** The first bytes of the state as they lie in memory. */
    method CopyOut() returns (r: seq<U8>)
      ensures r == OutputBytes(hash)
    {
      hide OutputBytes;
      r := [];
      var i := 0;
      while i < 32
        invariant 0 <= i == |r| <= 32
        invariant forall k :: 0 <= k < i ==> r[k] == OutputBytes(hash)[k]
      {
        OutputByte(hash, i / 8, i % 8);
        r := r + [Shr(hash[i / 8], 8 * (i % 8)) % 0x100];
        i := i + 1;
      }
    }
  }

  lemma TailMeaning(f: Process, hash: State, tail: seq<U8>, contents: seq<U8>)
    requires Buffered(f, hash, tail, contents)
    ensures |tail| == |contents| % 136 && tail == contents[|contents| - |tail|..]
  {}

  /** Setting the top bit of a byte. */
  function SetTop(b: U8): U8 { if b < 0x80 then b + 0x80 else b }

  /** The state has absorbed all complete blocks of the contents, and tail is the remainder. */
  ghost predicate Buffered(f: Process, hash: State, tail: seq<U8>, contents: seq<U8>) {
    && |tail| == |contents| % 136 && tail == contents[|contents| - |tail|..]
    && hash == Absorb(f, InitialState(), contents[..|contents| - |tail|])
  }

  lemma BufferMore(f: Process, hash: State, tail: seq<U8>, contents: seq<U8>, more: seq<U8>)
    requires Buffered(f, hash, tail, contents) && |tail| + |more| < 136
    ensures Buffered(f, hash, tail + more, contents + more)
  {
    var c := contents + more;
    assert c[..|c| - |tail + more|] == contents[..|contents| - |tail|];
    assert c[|c| - |tail + more|..] == tail + more;
  }

  lemma BufferFull(f: Process, hash: State, tail: seq<U8>, contents: seq<U8>, more: seq<U8>)
    requires Buffered(f, hash, tail, contents) && |tail| + |more| == 136
    ensures Buffered(f, f(hash, tail + more), [], contents + more)
  {
    hide Absorb;
    var done := contents[..|contents| - |tail|];
    AbsorbBlock(f, InitialState(), done, tail + more);
    assert contents == done + tail;
    WholeContents(done, tail, contents, more);
  }

  lemma WholeContents(done: seq<U8>, tail: seq<U8>, contents: seq<U8>, more: seq<U8>)
    requires contents == done + tail
    ensures var c := contents + more; c[..|c| - 0] == done + (tail + more) && c[|c| - 0..] == []
  {}

  lemma PaddedBlock(block: seq<U8>, tail: seq<U8>, contents: seq<U8>)
    requires |block| == 136 && |tail| == |contents| % 136 && block[..|tail|] == tail
    requires tail == contents[|contents| - |tail|..]
    requires |tail| == 135 ==> block[135] == 0x81
    requires |tail| < 135 ==> block[|tail|] == 0x01 && block[135] == 0x80
    requires forall i :: |tail| < i < 135 ==> block[i] == 0
    ensures Pad(contents) == contents[..|contents| - |tail|] + block
  {
    var k := 136 - |tail|;
    assert block == tail + block[|tail|..];
    assert contents == contents[..|contents| - |tail|] + tail;
    if k == 1 {
      assert block[|tail|..] == [0x81];
    } else {
      assert block[|tail|..] == [0x01] + seq(k - 2, i => 0) + [0x80];
    }
  }

  lemma DigestMeaning(f: Process, hash: State, tail: seq<U8>, contents: seq<U8>, block: seq<U8>)
    requires Buffered(f, hash, tail, contents) && |block| == 136 && Pad(contents) == contents[..|contents| - |tail|] + block
    ensures Digest(f, contents) == OutputBytes(f(hash, block))
  {
    AbsorbBlock(f, InitialState(), contents[..|contents| - |tail|], block);
  }
}
