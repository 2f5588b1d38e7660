/** libspider/MD5.cpp: the buffering, padding and counting around the MD5
    transform, which is a parameter here. */
module Md5s {
  import opened Bytes
  import opened Seqs

  datatype Hash = Hash(a: word, b: word, c: word, d: word)

  type Transform = (Hash, seq<word>) -> Hash

  const INIT: Hash := Hash(0x67452301, 0xefcdab89, 0x98badcfe, 0x10325476)

  // ----- one message at a time --------------------------------------------

  /** The i-th word of a block, low byte first. */
  function WordAt(block: seq<byte>, i: nat): word
    requires 4 * i + 4 <= |block|
  {
    var a: int, b: int, c: int, d: int := block[4*i], block[4*i+1], block[4*i+2], block[4*i+3];
    a + 0x100 * b + 0x1_0000 * c + 0x100_0000 * d
  }

  function Words(block: seq<byte>): (r: seq<word>)
    ensures |r| == |block| / 4
  {
    seq(|block| / 4, i requires 0 <= i < |block| / 4 => WordAt(block, i))
  }

  function Bytes4(w: word): (r: seq<byte>)
    ensures |r| == 4
  {
    LittleEndian(w, 4)
  }

  function Step(transform: Transform): (Hash, seq<byte>) -> Hash {
    (h, block) => transform(h, Words(block))
  }

  /** The padding of sections 3.1 and 3.2 of RFC 1321: a 1 bit, 0 bits up to
      448 modulo 512, and the length in bits modulo 2^64, low word first. */
  function Padding(n: nat): (r: seq<byte>)
    ensures |r| == ZeroCount(n) + 9
  {
    [0x80] + Zeros(ZeroCount(n)) + LittleEndian(8 * n % TWO_64, 8)
  }

  function Output(h: Hash): seq<byte> {
    Bytes4(h.a) + Bytes4(h.b) + Bytes4(h.c) + Bytes4(h.d)
  }

  lemma WholeBlocks(n: nat)
    ensures (n + |Padding(n)|) % 64 == 0
  {
    hide ZeroCount;
    PaddedLength(n);
  }

  function Digest(transform: Transform, m: seq<byte>): seq<byte> {
    WholeBlocks(|m|);
    Output(Fold(Step(transform), INIT, m + Padding(|m|)))
  }

  // ----- arithmetic of the counters ---------------------------------------

  lemma AddTwice(c: word, x: nat, y: nat)
    ensures ((c + x) % TWO_32 + y) % TWO_32 == (c + x + y) % TWO_32
  {
  }

  // ----- the context ------------------------------------------------------

  const PADDING: seq<byte> := [0x80] + Zeros(63)

  class Context {
    const transform: Transform
    const buffer: array<byte>
    var state: Hash
    var count0: word
    var count1: word
    // What has been put in so far.
    ghost var message: seq<byte>

    /** How much of the message has been transformed. */
    ghost function Done(): (r: nat)
      reads this`message
      ensures r <= |message| && r % 64 == 0 && |message| - r == |message| % 64
    {
      |message| - |message| % 64
    }

    ghost predicate Counted()
      reads this
    {
      count0 + TWO_32 * count1 == 8 * |message| % TWO_64
    }

    /** Whole blocks are in the state, the rest is in the buffer. */
    ghost predicate Valid()
      reads this, buffer
    {
      && buffer.Length == 64 && Counted()
      && state == Fold(Step(transform), INIT, message[..Done()])
      && buffer[..|message| % 64] == message[Done()..]
    }

    /** MD5Init. */
    constructor (transform: Transform)
      ensures Valid() && message == [] && fresh(buffer) && this.transform == transform
    {
      this.transform := transform;
      buffer := new byte[64];
      count0, count1 := 0, 0;
      state := INIT;
      message := [];
    }

    /** MD5_memcpy into the buffer. */
    method CopyIn(at: nat, input: seq<byte>)
      requires at + |input| <= buffer.Length
      modifies buffer
      ensures buffer[..] == old(buffer[..at]) + input + old(buffer[at+|input|..])
    {
      for i := 0 to |input|
        invariant buffer[..] == old(buffer[..at]) + input[..i] + old(buffer[at+i..])
      {
        buffer[at+i] := input[i];
      }
    }

    method CountUp(len: nat)
      requires Counted() && len < TWO_32
      modifies this`count0, this`count1
      ensures count0 + TWO_32 * count1 == 8 * (|message| + len) % TWO_64
    {
      CountAdds(|message|, len, count0, count1);
      var shifted := 8 * len % TWO_32;
      ghost var c := count1;
      count0 := (count0 + shifted) % TWO_32;
      if count0 < shifted {
        count1 := (count1 + 1) % TWO_32;
        AddTwice(c, 1, len / 0x2000_0000);
      }
      count1 := (count1 + len / 0x2000_0000) % TWO_32;
    }

    /** MD5Transform: the block is decoded first. */
    method TransformBlock(block: seq<byte>)
      requires |block| == 64
      modifies this`state
      ensures state == Step(transform)(old(state), block)
    {
      var x := Decode(block);
      state := transform(state, x);
    }

    /** The next whole block of the message. */
    lemma FoldNext(all: seq<byte>, k: nat, h: Hash)
      requires k % 64 == 0 && k + 64 <= |all| && h == Fold(Step(transform), INIT, all[..k])
      ensures (k + 64) % 64 == 0
      ensures Fold(Step(transform), INIT, all[..k+64]) == Step(transform)(h, all[k..k+64])
    {
      FoldOne(Step(transform), INIT, all[..k], all[k..k+64]);
      assert all[..k+64] == all[..k] + all[k..k+64];
    }

    /** The block that the buffer and the start of input make. */
    lemma FirstBlock(input: seq<byte>, block: seq<byte>)
      requires state == Fold(Step(transform), INIT, message[..Done()])
      requires 64 - |message| % 64 <= |input| && block == message[Done()..] + input[..64 - |message| % 64]
      ensures |block| == 64 && (|message| + 64 - |message| % 64) % 64 == 0
      ensures Fold(Step(transform), INIT, (message + input)[..|message| + 64 - |message| % 64])
              == Step(transform)(state, block)
    {
      FoldOne(Step(transform), INIT, message[..Done()], block);
      assert (message + input)[..|message| + 64 - |message| % 64] == message[..Done()] + block;
    }

    /** The whole blocks of input from i on. */
    method TransformAll(input: seq<byte>, start: nat) returns (i: nat)
      requires start <= |input| < TWO_32 - 63 && (|message| + start) % 64 == 0
      requires state == Fold(Step(transform), INIT, (message + input)[..|message| + start])
      modifies this`state
      ensures start <= i <= |input| && |input| - i < 64 && (|message| + i) % 64 == 0
      ensures state == Fold(Step(transform), INIT, (message + input)[..|message| + i])
    {
      hide Fold;
      i := start;
      ghost var all := message + input;
      while (i + 63) % TWO_32 < |input|
        invariant start <= i <= |input| && (|message| + i) % 64 == 0
        invariant state == Fold(Step(transform), INIT, all[..|message| + i])
        decreases |input| - i
      {
        FoldNext(all, |message| + i, state);
        SliceRight(message, input, i, i + 64);
        TransformBlock(input[i..i+64]);
        i := i + 64;
      }
    }

    /** MD5Update. */
    method Update(input: seq<byte>)
      requires Valid() && |input| < TWO_32 - 63
      modifies this, buffer
      ensures Valid() && message == old(message) + input
    {
      hide Fold;
      hide Counted;
      CountIndex();
      var index := count0 / 8 % 64;
      CountUp(|input|);
      var partLen := 64 - index;
      ghost var all, k := message + input, Done();
      var i := 0;
      if |input| >= partLen {
        CopyIn(index, input[..partLen]);
        FirstBlock(input, buffer[..]);
        TransformBlock(buffer[..]);
        i := TransformAll(input, partLen);
        k := |message| + i;
        index := 0;
        SliceRight(message, input, i, |input|);
      } else {
        SliceLeft(message, input, k);
      }
      KeepRest(input, i, index, k);
    }

    /** The end of MD5Update: what is behind the last whole block goes into the
        buffer. */
    method KeepRest(input: seq<byte>, i: nat, index: nat, ghost k: nat)
      requires buffer.Length == 64 && i <= |input| && index + |input| - i < 64
      requires k % 64 == 0 && k + index + |input| - i == |message| + |input|
      requires state == Fold(Step(transform), INIT, (message + input)[..k])
      requires buffer[..index] + input[i..] == (message + input)[k..]
      requires count0 + TWO_32 * count1 == 8 * (|message| + |input|) % TWO_64
      modifies this`message, buffer
      ensures Valid() && message == old(message) + input
    {
      hide Fold;
      CopyIn(index, input[i..]);
      ghost var all := message + input;
      assert buffer[..index + |input| - i] == all[k..];
      LastBlock(|all|, k);
      message := all;
    }

    /** The part of MD5Final that pads the message. */
    method Pad()
      requires Valid()
      modifies this, buffer
      ensures Valid() && message == old(message) + Padding(|old(message)|)
    {
      hide Fold, Counted, Padding, EncodeAll, Valid, LittleEndian, Zeros, ZeroCount;
      ValidCounted();
      CountIs();
      FinalBits(|message|, count0, count1);
      var bits := Encode([count0, count1], 8);
      CountIndex();
      var index := count0 / 8 % 64;
      var padLen := if index < 56 then 56 - index else 120 - index;
      PaddingIs(|message|);
      Regroup(message, PADDING[..padLen], bits);
      Update(PADDING[..padLen]);
      Update(bits);
    }

    lemma ValidCounted()
      requires Valid()
      ensures Counted()
    {
    }

    /** MD5Final: the digest of the whole message, and an empty context. */
    method Final() returns (digest: seq<byte>)
      requires Valid()
      modifies this, buffer
      ensures digest == Digest(transform, old(message))
      ensures state == Hash(0, 0, 0, 0) && count0 == count1 == 0 && buffer[..] == Zeros(64)
    {
      hide Fold, Counted, Padding;
      ghost var m := message;
      Pad();
      WholeBlocks(|m|);
      DoneAll();
      OutputIs(state);
      digest := Encode([state.a, state.b, state.c, state.d], 16);
      state, count0, count1 := Hash(0, 0, 0, 0), 0, 0;
      Wipe();
    }

    /** MD5_memset. */
    method Wipe()
      requires buffer.Length == 64
      modifies buffer
      ensures buffer[..] == Zeros(64)
    {
      for i := 0 to 64
        invariant buffer[..i] == Zeros(i)
      {
        buffer[i] := 0;
      }
    }

    lemma CountIs()
      requires Counted()
      ensures count0 + TWO_32 * count1 == 8 * |message| % TWO_64
    {
    }

    lemma DoneAll()
      requires Valid() && |message| % 64 == 0
      ensures state == Fold(Step(transform), INIT, message)
    {
      assert message[..Done()] == message;
    }

    lemma CountIndex()
      requires Counted()
      ensures count0 / 8 % 64 == |message| % 64
    {
      IndexIs(|message|, count0);
    }
  }

  lemma SliceRight(m: seq<byte>, input: seq<byte>, i: nat, j: nat)
    requires i <= j <= |input|
    ensures (m + input)[|m| + i..|m| + j] == input[i..j]
    ensures j == |input| ==> (m + input)[|m| + i..] == input[i..]
  {
  }

  lemma SliceLeft(m: seq<byte>, input: seq<byte>, k: nat)
    requires k <= |m|
    ensures (m + input)[..k] == m[..k] && (m + input)[k..] == m[k..] + input
  {
  }

  lemma FinalBits(n: nat, lo: word, hi: word)
    requires lo + TWO_32 * hi == 8 * n % TWO_64
    ensures EncodeAll([lo, hi]) == LittleEndian(8 * n % TWO_64, 8)
  {
    assert [lo, hi][..1] == [lo] && [lo][..0] == [];
    TwoWords(lo, hi);
  }

  /** Decode. */
  method Decode(input: seq<byte>) returns (x: seq<word>)
    requires |input| == 64
    ensures x == Words(input)
  {
    var output := new word[16];
    var i, j := 0, 0;
    while j < 64
      invariant 0 <= i <= 16 && j == 4 * i
      invariant output[..i] == Words(input)[..i]
    {
      output[i] := WordAt(input, i);
      i := i + 1;
      j := j + 4;
    }
    x := output[..];
  }

  /** Words as bytes, low byte first. */
  function EncodeAll(ws: seq<word>): (r: seq<byte>)
    ensures |r| == 4 * |ws|
  {
    if ws == [] then [] else EncodeAll(ws[..|ws|-1]) + Bytes4(ws[|ws|-1])
  }

  lemma OutputIs(h: Hash)
    ensures EncodeAll([h.a, h.b, h.c, h.d]) == Output(h)
  {
    hide Bytes4;
    EncodeMore([], h.a);
    assert [] + [h.a] == [h.a] && [h.a] + [h.b] == [h.a, h.b];
    assert [h.a, h.b] + [h.c] == [h.a, h.b, h.c] && [h.a, h.b, h.c] + [h.d] == [h.a, h.b, h.c, h.d];
    EncodeMore([h.a], h.b);
    EncodeMore([h.a, h.b], h.c);
    EncodeMore([h.a, h.b, h.c], h.d);
    assert [] + Bytes4(h.a) == Bytes4(h.a);
  }

  lemma EncodeMore(ws: seq<word>, w: word)
    ensures EncodeAll(ws + [w]) == EncodeAll(ws) + Bytes4(w)
  {
    assert (ws + [w])[..|ws|] == ws;
  }

  lemma PaddingIs(n: nat)
    ensures var padLen := if n % 64 < 56 then 56 - n % 64 else 120 - n % 64;
            && padLen <= 64 && |PADDING| == 64 && |Padding(n)| == padLen + 8
            && PADDING[..padLen] + LittleEndian(8 * n % TWO_64, 8) == Padding(n)
  {
    var z := ZeroCount(n);
    assert Zeros(63)[..z] == Zeros(z);
    assert PADDING[..1 + z] == [0x80] + Zeros(63)[..z];
  }

  /** Encode. */
  method Encode(input: seq<word>, len: nat) returns (bytes: seq<byte>)
    requires len == 4 * |input|
    ensures bytes == EncodeAll(input)
  {
    var output := new byte[len];
    var i, j := 0, 0;
    while j < len
      invariant 0 <= i <= |input| && j == 4 * i
      invariant output[..j] == EncodeAll(input[..i])
    {
      assert input[..i+1][..i] == input[..i];
      EncodeWord(input[i]);
      output[j] := input[i] % 0x100;
      output[j+1] := input[i] / 0x100 % 0x100;
      output[j+2] := input[i] / 0x1_0000 % 0x100;
      output[j+3] := input[i] / 0x100_0000 % 0x100;
      i := i + 1;
      j := j + 4;
    }
    assert input[..i] == input;
    bytes := output[..];
  }

  lemma EncodeWord(w: word)
    ensures Bytes4(w) == [w % 0x100, w / 0x100 % 0x100, w / 0x1_0000 % 0x100, w / 0x100_0000 % 0x100]
  {
    assert w / 0x100 / 0x100 == w / 0x1_0000 && w / 0x1_0000 / 0x100 == w / 0x100_0000;
    assert LittleEndian(w, 4) == [w % 256] + LittleEndian(w / 256, 3);
    assert LittleEndian(w / 0x100, 3) == [w / 0x100 % 256] + LittleEndian(w / 0x1_0000, 2);
    assert LittleEndian(w / 0x1_0000, 2) == [w / 0x1_0000 % 256] + LittleEndian(w / 0x100_0000, 1);
  }

  /** Decode undoes Encode. */
  lemma {:induction false} DecodeEncode(ws: seq<word>)
    ensures Words(EncodeAll(ws)) == ws
  {
    if ws != [] {
      var front, w := ws[..|ws|-1], ws[|ws|-1];
      DecodeEncode(front);
      WordOfBytes(EncodeAll(front), w);
      WordsMore(EncodeAll(front), Bytes4(w));
      assert ws == front + [w];
    }
  }

  lemma Recompose(w: word)
    ensures w % 0x100 + 0x100 * (w / 0x100 % 0x100) + 0x1_0000 * (w / 0x1_0000 % 0x100)
            + 0x100_0000 * (w / 0x100_0000 % 0x100) == w
  {
    var a := w / 0x100;
    var b := a / 0x100;
    var c := b / 0x100;
    assert b == w / 0x1_0000 && c == w / 0x100_0000 && c < 0x100;
  }

  lemma WordBehind(s: seq<byte>, t: seq<byte>)
    requires |s| % 4 == 0 && |t| == 4
    ensures 4 * (|s| / 4) == |s|
    ensures WordAt(s + t, |s| / 4) == WordAt(t, 0)
  {
    var i, all := |s| / 4, s + t;
    assert all[4*i] == t[0] && all[4*i+1] == t[1] && all[4*i+2] == t[2] && all[4*i+3] == t[3];
  }

  lemma WordOfBytes(s: seq<byte>, w: word)
    requires |s| % 4 == 0
    ensures WordAt(s + Bytes4(w), |s| / 4) == w
  {
    hide Bytes4;
    EncodeWord(w);
    WordBehind(s, Bytes4(w));
    Recompose(w);
  }

  lemma WordsMore(s: seq<byte>, t: seq<byte>)
    requires |s| % 4 == 0 && |t| == 4
    ensures Words(s + t) == Words(s) + [WordAt(s + t, |s| / 4)]
  {
  }

  function Concat(chunks: seq<seq<byte>>): seq<byte> {
    if chunks == [] then [] else Concat(chunks[..|chunks|-1]) + chunks[|chunks|-1]
  }

  /** The digest does not depend on how the message is cut into calls. */
  method DigestOf(transform: Transform, chunks: seq<seq<byte>>) returns (digest: seq<byte>)
    requires forall i {:trigger chunks[i]} :: 0 <= i < |chunks| ==> |chunks[i]| < TWO_32 - 63
    ensures digest == Digest(transform, Concat(chunks))
  {
    hide Digest;
    var context := new Context(transform);
    for i := 0 to |chunks|
      invariant context.Valid() && context.message == Concat(chunks[..i]) && context.transform == transform
      invariant fresh(context) && fresh(context.buffer)
    {
      assert chunks[..i+1][..i] == chunks[..i];
      context.Update(chunks[i]);
    }
    assert chunks[..|chunks|] == chunks;
    digest := context.Final();
  }
}
