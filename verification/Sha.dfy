/** libspider/Sha.cpp, with words of 32 bits. */
module Shas {
  import opened Bytes

  // ----- the compression function -----------------------------------------

  datatype Registers = Registers(a: bv32, b: bv32, c: bv32, d: bv32, e: bv32)

  const INIT: Registers := Registers(0x67452301, 0xefcdab89, 0x98badcfe, 0x10325476, 0xc3d2e1f0)

  function Rotl1(x: bv32): bv32 { (x << 1) | (x >> 31) }

  function Rotl5(x: bv32): bv32 { (x << 5) | (x >> 27) }

  function Rotl30(x: bv32): bv32 { (x << 30) | (x >> 2) }

  function Mix(x: bv32, y: bv32, z: bv32, w: bv32): bv32 {
    Rotl1(x ^ y ^ z ^ w)
  }

  /** The message schedule: 16 words of the block, then 64 that are mixed from
      those before them. */
  function Schedule(w: seq<bv32>): (r: seq<bv32>)
    requires 16 <= |w| <= 80
    ensures |r| == 80 && r[..|w|] == w
    decreases 80 - |w|
  {
    var t := |w|;
    if t == 80 then w else Schedule(w + [Mix(w[t-3], w[t-8], w[t-14], w[t-16])])
  }

  function Select(b: bv32, c: bv32, d: bv32): bv32 { ((c ^ d) & b) ^ d }

  function Parity(b: bv32, c: bv32, d: bv32): bv32 { b ^ c ^ d }

  function Majority(b: bv32, c: bv32, d: bv32): bv32 { (b & c) | (d & (b | c)) }

  function Choose(b: bv32, c: bv32, d: bv32, t: nat): bv32 {
    if t <= 19 then Select(b, c, d) else if 40 <= t <= 59 then Majority(b, c, d) else Parity(b, c, d)
  }

  function Add(x: bv32, y: bv32): bv32 { x + y }

  function Sum(a: bv32, f: bv32, e: bv32, w: bv32, k: bv32): bv32 { Rotl5(a) + f + e + w + k }

  function Constant(t: nat): bv32 {
    if t <= 19 then 0x5a827999 else if t <= 39 then 0x6ed9eba1 else if t <= 59 then 0x8f1bbcdc else 0xca62c1d6
  }

  function Round(v: Registers, w: bv32, t: nat): Registers {
    Registers(Sum(v.a, Choose(v.b, v.c, v.d, t), v.e, w, Constant(t)), v.a, Rotl30(v.b), v.c, v.d)
  }

  /** The registers after the first t rounds. */
  function Rounds(v: Registers, w: seq<bv32>, t: nat): Registers
    requires t <= |w|
  {
    if t == 0 then v else Round(Rounds(v, w, t - 1), w[t-1], t - 1)
  }

  function AddAll(h: Registers, v: Registers): Registers {
    Registers(Add(h.a, v.a), Add(h.b, v.b), Add(h.c, v.c), Add(h.d, v.d), Add(h.e, v.e))
  }

  function Compress(h: Registers, block: seq<bv32>): Registers
    requires |block| == 16
  {
    AddAll(h, Rounds(h, Schedule(block), 80))
  }

  // ----- bytes and words --------------------------------------------------

  /** What a word becomes when bytes are shifted into it. */
  function Push(w: bv32, bytes: seq<bv8>): bv32 {
    if bytes == [] then w else Shift(Push(w, bytes[..|bytes|-1]), bytes[|bytes|-1])
  }

  function Shift(w: bv32, b: bv8): bv32 {
    (w << 8) | (b as bv32)
  }

  /** Four bytes as a word, high byte first. */
  function Word(a: bv8, b: bv8, c: bv8, d: bv8): bv32 {
    ((a as bv32) << 24) | ((b as bv32) << 16) | ((c as bv32) << 8) | (d as bv32)
  }

  function WordAt(m: seq<bv8>, k: nat): bv32
    requires 4 * k + 4 <= |m|
  {
    Word(m[4*k], m[4*k+1], m[4*k+2], m[4*k+3])
  }

  function Words(m: seq<bv8>): (r: seq<bv32>)
    ensures |r| == |m| / 4
  {
    seq(|m| / 4, k requires 0 <= k < |m| / 4 => WordAt(m, k))
  }

  /** Four bytes push out whatever the word held before. */
  lemma FourBytes(w: bv32, a: bv8, b: bv8, c: bv8, d: bv8)
    ensures Push(w, [a, b, c, d]) == Word(a, b, c, d)
  {
    hide Shift, Word, Push;
    PushNone(w);
    PushMore(w, [], a);
    PushMore(w, [a], b);
    PushMore(w, [a, b], c);
    PushMore(w, [a, b, c], d);
    assert [] + [a] == [a] && [a] + [b] == [a, b] && [a, b] + [c] == [a, b, c] && [a, b, c] + [d] == [a, b, c, d];
    ShiftedOut(w, a, b, c, d);
  }

  lemma PushMore(w: bv32, bytes: seq<bv8>, b: bv8)
    ensures Push(w, bytes + [b]) == Shift(Push(w, bytes), b)
  {
    assert (bytes + [b])[..|bytes|] == bytes;
  }

  lemma ShiftedOut(w: bv32, a: bv8, b: bv8, c: bv8, d: bv8)
    ensures Shift(Shift(Shift(Shift(w, a), b), c), d) == Word(a, b, c, d)
  {
  }

  /** One of the low bytes of a number. */
  function ByteOf(x: nat): bv8 {
    (x % 256) as bv8
  }

  /** The k low bytes of x, highest first. */
  function BigEndian(x: nat, k: nat): (r: seq<bv8>)
    ensures |r| == k
  {
    if k == 0 then [] else BigEndian(x / 256, k - 1) + [ByteOf(x)]
  }

  function ZeroBytes(n: nat): (r: seq<bv8>)
    ensures |r| == n
  {
    if n == 0 then [] else ZeroBytes(n - 1) + [0 as bv8]
  }

  /** The padding of section 5.1.1 of FIPS 180-4. */
  function Padding(n: nat): (r: seq<bv8>)
    ensures |r| == ZeroCount(n) + 9
  {
    [0x80 as bv8] + ZeroBytes(ZeroCount(n)) + BigEndian(8 * n % TWO_64, 8)
  }

  lemma WholeBlocks(n: nat)
    ensures (n + |Padding(n)|) % 64 == 0
  {
    hide ZeroCount;
    PaddedLength(n);
  }

  function Step(h: Registers, block: seq<bv8>): Registers {
    if |block| == 64 then Compress(h, Words(block)) else h
  }

  function Top(h: bv32): bv8 {
    Narrow(h);
    (h >> 24) as bv8
  }

  lemma Narrow(x: bv32)
    ensures x >> 24 <= 255
  {
  }

  function Up(h: bv32): bv32 { h << 8 }

  /** A word after n rounds of "<<= 8". */
  function Shifted(h: bv32, n: nat): bv32 {
    if n == 0 then h else Up(Shifted(h, n - 1))
  }

  /** The j-th byte of a word, from the high end. */
  function ByteAt(h: bv32, j: nat): bv8 {
    Top(Shifted(h, j))
  }

  function Bytes4(h: bv32): seq<bv8> {
    [ByteAt(h, 0), ByteAt(h, 1), ByteAt(h, 2), ByteAt(h, 3)]
  }

  function Output(h: Registers): seq<bv8> {
    Bytes4(h.a) + Bytes4(h.b) + Bytes4(h.c) + Bytes4(h.d) + Bytes4(h.e)
  }

  /** The bytes of a word, high byte first, make the word. */
  lemma BytesMakeWord(h: bv32)
    ensures Word(ByteAt(h, 0), ByteAt(h, 1), ByteAt(h, 2), ByteAt(h, 3)) == h
  {
    hide Word, Up, Top;
    assert Shifted(h, 1) == Up(Shifted(h, 0)) && Shifted(h, 2) == Up(Shifted(h, 1));
    TopsMakeWord(h);
  }

  lemma TopsMakeWord(h: bv32)
    ensures Word(Top(h), Top(Up(h)), Top(Up(Up(h))), Top(Up(Up(Up(h))))) == h
  {
  }

  function Digest(m: seq<bv8>): seq<bv8> {
    WholeBlocks(|m|);
    Output(Fold(Step, INIT, m + Padding(|m|)))
  }

  class Context {
    const H: array<bv32>
    const W: array<bv32>
    var lenW: int
    var sizeHi: word
    var sizeLo: word
    // What has been put in so far, and what the word that is being filled
    // held before.
    ghost var message: seq<bv8>
    ghost var held: bv32

    /** How much of the message is in the hash. */
    ghost function Done(): (r: nat)
      reads this`message
      ensures r <= |message| && r % 64 == 0 && |message| - r == |message| % 64
    {
      |message| - |message| % 64
    }

    ghost function Hash(): Registers
      requires H.Length == 5
      reads H
    {
      Registers(H[0], H[1], H[2], H[3], H[4])
    }

    /** The bytes behind the last whole block are in W: whole words, and one
        that is being filled. */
    ghost predicate Loaded(tail: seq<bv8>)
      requires W.Length == 80 && |tail| < 64
      reads this`held, W
    {
      && (forall k {:trigger W[k]} :: 0 <= k < |tail| / 4 ==> W[k] == WordAt(tail, k))
      && (|tail| % 4 != 0 ==> W[|tail| / 4] == Push(held, tail[|tail| - |tail| % 4..]))
    }

    ghost predicate Counted(n: nat)
      reads this`sizeLo, this`sizeHi
    {
      sizeLo + TWO_32 * sizeHi == 8 * n % TWO_64
    }

    /** Of the message m, the first k bytes are in the hash, the rest in W. */
    ghost predicate Stored(m: seq<bv8>, k: nat)
      reads this`lenW, this`held, H, W
    {
      && H.Length == 5 && W.Length == 80 && H != W
      && k <= |m| < k + 64 && k % 64 == 0 && lenW == |m| - k
      && Hash() == Fold(Step, INIT, m[..k])
      && Loaded(m[k..])
    }

    ghost predicate Valid()
      reads this, H, W
    {
      Counted(|message|) && Stored(message, Done())
    }

    constructor ()
      ensures Valid() && message == [] && fresh(H) && fresh(W)
    {
      H := new bv32[5];
      W := new bv32[80];
      lenW, sizeHi, sizeLo, message, held := 0, 0, 0, [], 0;
      new;
      Init();
    }

    /** shaInit. */
    method Init()
      requires H.Length == 5 && W.Length == 80 && H != W
      modifies this`lenW, this`sizeHi, this`sizeLo, this`message, H, W
      ensures Valid() && message == []
    {
      lenW := 0;
      sizeHi, sizeLo := 0, 0;
      H[0], H[1], H[2], H[3], H[4] := 0x67452301, 0xefcdab89, 0x98badcfe, 0x10325476, 0xc3d2e1f0;
      for i := 0 to 80
        invariant Hash() == INIT && lenW == 0 && sizeHi == 0 && sizeLo == 0
      {
        W[i] := 0;
      }
      message := [];
      assert message[..Done()] == [] && message[Done()..] == [];
    }

    /** The first loop of shaHashBlock. */
    method Expand()
      requires W.Length == 80
      modifies W
      ensures W[..] == Schedule(old(W[..16]))
    {
      hide Mix;
      var t := 16;
      while t <= 79
        invariant 16 <= t <= 80 && Schedule(W[..t]) == Schedule(old(W[..16]))
      {
        ghost var w := W[..t];
        W[t] := Mix(W[t-3], W[t-8], W[t-14], W[t-16]);
        assert W[..t+1] == w + [Mix(w[t-3], w[t-8], w[t-14], w[t-16])];
        t := t + 1;
      }
      assert W[..80] == W[..];
    }

    // ----- the four round loops of shaHashBlock ---------------------------

    method Rounds19(v: Registers, ghost h: Registers) returns (u: Registers)
      requires W.Length == 80 && v == Rounds(h, W[..], 0)
      ensures u == Rounds(h, W[..], 20)
    {
      hide Sum, Select, Parity, Majority, Rotl30;
      var a, b, c, d, e := v.a, v.b, v.c, v.d, v.e;
      var t := 0;
      while t <= 19
        invariant 0 <= t <= 20 && Registers(a, b, c, d, e) == Rounds(h, W[..], t)
      {
        var temp := Sum(a, Select(b, c, d), e, W[t], 0x5a827999);
        e, d, c, b, a := d, c, Rotl30(b), a, temp;
        t := t + 1;
      }
      u := Registers(a, b, c, d, e);
    }

    method Rounds39(v: Registers, ghost h: Registers) returns (u: Registers)
      requires W.Length == 80 && v == Rounds(h, W[..], 20)
      ensures u == Rounds(h, W[..], 40)
    {
      hide Sum, Select, Parity, Majority, Rotl30;
      var a, b, c, d, e := v.a, v.b, v.c, v.d, v.e;
      var t := 20;
      while t <= 39
        invariant 20 <= t <= 40 && Registers(a, b, c, d, e) == Rounds(h, W[..], t)
      {
        var temp := Sum(a, Parity(b, c, d), e, W[t], 0x6ed9eba1);
        e, d, c, b, a := d, c, Rotl30(b), a, temp;
        t := t + 1;
      }
      u := Registers(a, b, c, d, e);
    }

    method Rounds59(v: Registers, ghost h: Registers) returns (u: Registers)
      requires W.Length == 80 && v == Rounds(h, W[..], 40)
      ensures u == Rounds(h, W[..], 60)
    {
      hide Sum, Select, Parity, Majority, Rotl30;
      var a, b, c, d, e := v.a, v.b, v.c, v.d, v.e;
      var t := 40;
      while t <= 59
        invariant 40 <= t <= 60 && Registers(a, b, c, d, e) == Rounds(h, W[..], t)
      {
        var temp := Sum(a, Majority(b, c, d), e, W[t], 0x8f1bbcdc);
        e, d, c, b, a := d, c, Rotl30(b), a, temp;
        t := t + 1;
      }
      u := Registers(a, b, c, d, e);
    }

    method Rounds79(v: Registers, ghost h: Registers) returns (u: Registers)
      requires W.Length == 80 && v == Rounds(h, W[..], 60)
      ensures u == Rounds(h, W[..], 80)
    {
      hide Sum, Select, Parity, Majority, Rotl30;
      var a, b, c, d, e := v.a, v.b, v.c, v.d, v.e;
      var t := 60;
      while t <= 79
        invariant 60 <= t <= 80 && Registers(a, b, c, d, e) == Rounds(h, W[..], t)
      {
        var temp := Sum(a, Parity(b, c, d), e, W[t], 0xca62c1d6);
        e, d, c, b, a := d, c, Rotl30(b), a, temp;
        t := t + 1;
      }
      u := Registers(a, b, c, d, e);
    }

    /** shaHashBlock. */
    method HashBlock()
      requires H.Length == 5 && W.Length == 80 && H != W
      modifies H, W
      ensures Hash() == Compress(old(Hash()), old(W[..16]))
    {
      hide Rounds, Schedule, Add;
      Expand();
      ghost var h := Hash();
      NoRounds(h, W[..]);
      var v := Registers(H[0], H[1], H[2], H[3], H[4]);
      v := Rounds19(v, h);
      v := Rounds39(v, h);
      v := Rounds59(v, h);
      v := Rounds79(v, h);
      H[0] := Add(H[0], v.a);
      H[1] := Add(H[1], v.b);
      H[2] := Add(H[2], v.c);
      H[3] := Add(H[3], v.d);
      H[4] := Add(H[4], v.e);
    }

    lemma NoRounds(h: Registers, w: seq<bv32>)
      ensures Rounds(h, w, 0) == h
    {
    }

    // ----- bytes ----------------------------------------------------------

    method ShiftIn(k: nat, b: bv8)
      requires k < W.Length
      modifies W
      ensures W[k] == Shift(old(W[k]), b) && forall i :: 0 <= i < W.Length && i != k ==> W[i] == old(W[i])
    {
      W[k] := W[k] << 8;
      W[k] := W[k] | (b as bv32);
    }

    /** The first two statements of shaUpdate's loop: one byte goes into W. */
    method PutByte(b: bv8, ghost tail: seq<bv8>)
      requires H.Length == 5 && W.Length == 80 && H != W && lenW == |tail| < 64 && Loaded(tail)
      modifies this`held, W
      ensures forall k {:trigger W[k]} :: 0 <= k < (|tail| + 1) / 4 ==> W[k] == WordAt(tail + [b], k)
      ensures (|tail| + 1) % 4 != 0 ==> W[(|tail| + 1) / 4] == Push(held, (tail + [b])[|tail| + 1 - (|tail| + 1) % 4..])
    {
      hide Push, Word, Shift;
      var k := lenW / 4;
      ghost var part := tail[4*k..];
      if lenW % 4 == 0 {
        held := W[k];
        PushNone(held);
        assert part == [];
      }
      ShiftIn(k, b);
      PushMore(held, part, b);
      assert (tail + [b])[4*k..] == part + [b];
      WordsStay(tail, b);
      if lenW % 4 == 3 {
        FourBytes(held, tail[4*k], tail[4*k+1], tail[4*k+2], b);
        assert part + [b] == [tail[4*k], tail[4*k+1], tail[4*k+2], b];
      }
    }

    method CountByte(ghost n: nat)
      requires Counted(n)
      modifies this`sizeLo, this`sizeHi
      ensures Counted(n + 1)
    {
      CountAdds(n, 1, sizeLo, sizeHi);
      sizeLo := (sizeLo + 8) % TWO_32;
      sizeHi := (sizeHi + if sizeLo < 8 then 1 else 0) % TWO_32;
    }

    /** One byte goes into W; a full block goes into the hash. */
    method StoreByte(b: bv8, ghost m: seq<bv8>, ghost k: nat) returns (ghost j: nat)
      requires Stored(m, k)
      modifies this`lenW, this`held, H, W
      ensures Stored(m + [b], j)
    {
      hide Fold, Push, WordAt;
      j := k;
      PutByte(b, m[k..]);
      Tails(m, b, k);
      lenW := lenW + 1;
      if lenW % 64 == 0 {
        BlockIs((m + [b])[k..]);
        FoldOne(Step, INIT, (m + [b])[..k], (m + [b])[k..]);
        HashBlock();
        lenW := 0;
        j := |m + [b]|;
      }
    }

    /** The body of shaUpdate's loop. */
    method UpdateByte(b: bv8)
      requires Valid()
      modifies this, H, W
      ensures Valid() && message == old(message) + [b]
    {
      hide Counted, Stored;
      ghost var j := StoreByte(b, message, Done());
      CountByte(|message|);
      message := message + [b];
      StoredAt(j);
    }

    lemma StoredAt(j: nat)
      requires Stored(message, j)
      ensures j == Done()
    {
      LastBlock(|message|, j);
    }

    /** The sixteen words of W are those of the block. */
    lemma BlockIs(block: seq<bv8>)
      requires W.Length == 80 && |block| == 64 && forall k {:trigger W[k]} :: 0 <= k < 16 ==> W[k] == WordAt(block, k)
      ensures W[..16] == Words(block)
    {
    }

    /** shaUpdate. */
    method Update(dataIn: seq<bv8>)
      requires Valid()
      modifies this, H, W
      ensures Valid() && message == old(message) + dataIn
    {
      hide Valid;
      for i := 0 to |dataIn|
        invariant Valid() && message == old(message) + dataIn[..i]
      {
        UpdateByte(dataIn[i]);
        assert dataIn[..i+1] == dataIn[..i] + [dataIn[i]];
      }
      assert dataIn[..|dataIn|] == dataIn;
    }

    /** The length in bits as eight bytes, high byte first. */
    method LengthBytes() returns (padlen: seq<bv8>)
      requires Counted(|message|)
      ensures padlen == BigEndian(8 * |message| % TWO_64, 8)
    {
      padlen := [ByteOf(sizeHi / 0x100_0000), ByteOf(sizeHi / 0x1_0000), ByteOf(sizeHi / 0x100), ByteOf(sizeHi),
                 ByteOf(sizeLo / 0x100_0000), ByteOf(sizeLo / 0x1_0000), ByteOf(sizeLo / 0x100), ByteOf(sizeLo)];
      LengthIs(sizeLo, sizeHi);
    }

    /** The loop of shaFinal that pads with zeros. */
    method PadZeros()
      requires Valid()
      modifies this, H, W
      ensures Valid() && message == old(message) + ZeroBytes((56 - |old(message)|) % 64)
    {
      hide Fold, Loaded, Counted;
      ghost var m, z := message, 0;
      assert m + ZeroBytes(0) == m;
      while lenW != 56
        invariant Valid() && message == m + ZeroBytes(z) && z <= (56 - |m|) % 64
        decreases (56 - |m|) % 64 - z
      {
        ZerosLeft(|m|, z);
        Update([0 as bv8]);
        z := z + 1;
        assert m + ZeroBytes(z - 1) + [0 as bv8] == m + ZeroBytes(z);
      }
      ZerosDone(|m|, z);
    }

    /** shaFinal: the digest of the whole message, and a context as new. */
    method Final() returns (hashout: seq<bv8>)
      requires Valid()
      modifies this, H, W
      ensures hashout == Digest(old(message))
      ensures Valid() && message == []
    {
      hide Fold, Loaded, BigEndian, Counted;
      ghost var m := message;
      CountIs();
      var padlen := LengthBytes();
      Update([0x80 as bv8]);
      PadZeros();
      Update(padlen);
      assert message == m + Padding(|m|) by { PaddingIs(m); }
      WholeBlocks(|m|);
      assert message[..Done()] == message;
      hashout := GiveHash();
      Init();
    }

    lemma CountIs()
      requires Valid()
      ensures Counted(|message|)
    {
    }

    /** The loop that hands out the hash, which shifts it away. */
    method GiveHash() returns (hashout: seq<bv8>)
      requires H.Length == 5
      modifies H
      ensures hashout == Output(old(Hash()))
    {
      hide Top, Up, Shifted, Output, ByteAt;
      var out := new bv8[20];
      ghost var h := H[..];
      NotShifted(h);
      for i := 0 to 20
        invariant forall j {:trigger H[j]} ::
                      0 <= j < 5 ==>
                        H[j] == Shifted(h[j], if 4 * j + 4 <= i then 4 else if 4 * j <= i then i - 4 * j else 0)
        invariant forall j {:trigger out[j]} :: 0 <= j < i ==> out[j] == ByteAt(h[j/4], j % 4)
      {
        ShiftedMore(h[i/4], i % 4);
        NextByte(h[i/4], i % 4);
        out[i] := ShiftOut(i / 4);
      }
      OutputIs(h, out[..]);
      hashout := out[..];
    }

    lemma NotShifted(h: seq<bv32>)
      ensures forall j {:trigger h[j]} :: 0 <= j < |h| ==> Shifted(h[j], 0) == h[j]
    {
    }

    method ShiftOut(k: nat) returns (b: bv8)
      requires k < H.Length
      modifies H
      ensures b == Top(old(H[k])) && H[k] == Up(old(H[k]))
      ensures forall j :: 0 <= j < H.Length && j != k ==> H[j] == old(H[j])
    {
      Narrow(H[k]);
      b := (H[k] >> 24) as bv8;
      H[k] := H[k] << 8;
    }
  }

  lemma ShiftedMore(h: bv32, n: nat)
    ensures Shifted(h, n + 1) == Up(Shifted(h, n))
  {
  }

  lemma NextByte(h: bv32, j: nat)
    ensures ByteAt(h, j) == Top(Shifted(h, j))
  {
  }

  lemma OutputIs(h: seq<bv32>, out: seq<bv8>)
    requires |h| == 5 && |out| == 20 && forall j {:trigger out[j]} :: 0 <= j < 20 ==> out[j] == ByteAt(h[j/4], j % 4)
    ensures out == Output(Registers(h[0], h[1], h[2], h[3], h[4]))
  {
    hide ByteAt, Bytes4;
    FourAt(h, out, 0);
    FourAt(h, out, 1);
    FourAt(h, out, 2);
    FourAt(h, out, 3);
    FourAt(h, out, 4);
    assert out == out[0..4] + out[4..8] + out[8..12] + out[12..16] + out[16..20];
  }

  lemma FourAt(h: seq<bv32>, out: seq<bv8>, j: nat)
    requires |h| == 5 && |out| == 20 && j < 5
    requires forall i {:trigger out[i]} :: 0 <= i < 20 ==> out[i] == ByteAt(h[i/4], i % 4)
    ensures out[4*j..4*j+4] == Bytes4(h[j])
  {
    hide ByteAt;
    assert (4*j) / 4 == j && (4*j+1) / 4 == j && (4*j+2) / 4 == j && (4*j+3) / 4 == j;
    assert out[4*j] == ByteAt(h[j], 0) && out[4*j+1] == ByteAt(h[j], 1);
    assert out[4*j+2] == ByteAt(h[j], 2) && out[4*j+3] == ByteAt(h[j], 3);
  }

  lemma ZerosLeft(n: nat, z: nat)
    requires (n + z) % 64 != 56 && z <= (56 - n) % 64
    ensures z < (56 - n) % 64
  {
  }

  lemma ZerosDone(n: nat, z: nat)
    requires (n + z) % 64 == 56 && z <= (56 - n) % 64
    ensures z == (56 - n) % 64
  {
  }

  lemma PaddingIs(m: seq<bv8>)
    ensures m + [0x80 as bv8] + ZeroBytes((56 - |m + [0x80 as bv8]|) % 64) + BigEndian(8 * |m| % TWO_64, 8)
            == m + Padding(|m|)
  {
    assert (56 - (|m| + 1)) % 64 == ZeroCount(|m|);
  }

  lemma {:induction false} BigEndianJoin(lo: nat, hi: nat, j: nat, k: nat)
    requires lo < Power256(j)
    ensures BigEndian(lo + Power256(j) * hi, k + j) == BigEndian(hi, k) + BigEndian(lo, j)
    decreases j
  {
    hide ByteOf;
    if j > 0 {
      var p := Power256(j - 1);
      assert Power256(j) * hi == 256 * (p * hi) by { Associate(p, hi); }
      var x := lo + 256 * (p * hi);
      assert x % 256 == lo % 256 && x / 256 == lo / 256 + p * hi;
      SameByte(x, lo);
      BigEndianJoin(lo / 256, hi, j - 1, k);
    }
  }

  lemma SameByte(x: nat, y: nat)
    requires x % 256 == y % 256
    ensures ByteOf(x) == ByteOf(y)
  {
  }

  lemma FourHigh(w: word)
    ensures BigEndian(w, 4) == [ByteOf(w / 0x100_0000), ByteOf(w / 0x1_0000), ByteOf(w / 0x100), ByteOf(w)]
  {
    hide ByteOf;
    assert w / 0x100 / 0x100 == w / 0x1_0000 && w / 0x1_0000 / 0x100 == w / 0x100_0000;
    assert BigEndian(w / 0x1_0000, 2) == BigEndian(w / 0x100_0000, 1) + [ByteOf(w / 0x1_0000)];
    assert BigEndian(w / 0x100, 3) == BigEndian(w / 0x1_0000, 2) + [ByteOf(w / 0x100)];
  }

  lemma LengthIs(lo: word, hi: word)
    ensures BigEndian(lo + TWO_32 * hi, 8) ==
      [ByteOf(hi / 0x100_0000), ByteOf(hi / 0x1_0000), ByteOf(hi / 0x100), ByteOf(hi),
       ByteOf(lo / 0x100_0000), ByteOf(lo / 0x1_0000), ByteOf(lo / 0x100), ByteOf(lo)]
  {
    hide ByteOf, BigEndian;
    assert Power256(4) == TWO_32;
    BigEndianJoin(lo, hi, 4, 4);
    FourHigh(lo);
    FourHigh(hi);
  }

  /** shaBlock. */
  method ShaBlock(dataIn: seq<bv8>) returns (hashout: seq<bv8>)
    ensures hashout == Digest(dataIn)
  {
    var ctx := new Context();
    ctx.Update(dataIn);
    assert ctx.message == dataIn;
    hashout := ctx.Final();
  }

  function Concat(chunks: seq<seq<bv8>>): seq<bv8> {
    if chunks == [] then [] else Concat(chunks[..|chunks|-1]) + chunks[|chunks|-1]
  }

  /** The digest does not depend on how the message is cut into calls. */
  method DigestOf(chunks: seq<seq<bv8>>) returns (hashout: seq<bv8>)
    ensures hashout == Digest(Concat(chunks))
  {
    hide Digest, Context.Valid;
    var ctx := new Context();
    for i := 0 to |chunks|
      invariant ctx.Valid() && ctx.message == Concat(chunks[..i])
      invariant fresh(ctx) && fresh(ctx.H) && fresh(ctx.W)
    {
      assert chunks[..i+1][..i] == chunks[..i];
      ctx.Update(chunks[i]);
    }
    assert chunks[..|chunks|] == chunks;
    hashout := ctx.Final();
  }

  lemma Tails(m: seq<bv8>, b: bv8, k: nat)
    requires k <= |m|
    ensures (m + [b])[..k] == m[..k] && (m + [b])[k..] == m[k..] + [b]
    ensures (m + [b])[..|m|+1] == m + [b] == (m + [b])[..k] + (m + [b])[k..]
  {
  }

  lemma PushNone(w: bv32)
    ensures Push(w, []) == w
  {
  }

  lemma WordsStay(tail: seq<bv8>, b: bv8)
    ensures forall k {:trigger WordAt(tail + [b], k)} ::
              0 <= k < |tail| / 4 ==> WordAt(tail + [b], k) == WordAt(tail, k)
  {
  }
}
