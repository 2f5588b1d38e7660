/** Bytes and 32-bit words, as numbers. */
module Bytes {

  const TWO_32: nat := 0x1_0000_0000
  const TWO_64: nat := 0x1_0000_0000_0000_0000

  type byte = x: int | 0 <= x < 256
  type word = x: int | 0 <= x < 0x1_0000_0000

  /** The k low bytes of x, lowest first. */
  function LittleEndian(x: nat, k: nat): (r: seq<byte>)
    ensures |r| == k
  {
    if k == 0 then [] else [x % 256] + LittleEndian(x / 256, k - 1)
  }

  function Power256(k: nat): (r: nat)
    ensures r > 0
  {
    if k == 0 then 1 else 256 * Power256(k - 1)
  }

  lemma {:induction false} LittleEndianJoin(lo: nat, hi: nat, j: nat, k: nat)
    requires lo < Power256(j)
    ensures LittleEndian(lo + Power256(j) * hi, j + k) == LittleEndian(lo, j) + LittleEndian(hi, k)
    decreases j
  {
    if j > 0 {
      var p := Power256(j - 1);
      assert Power256(j) * hi == 256 * (p * hi) by { Associate(p, hi); }
      var x := lo + 256 * (p * hi);
      assert x % 256 == lo % 256 && x / 256 == lo / 256 + p * hi;
      LittleEndianJoin(lo / 256, hi, j - 1, k);
    }
  }

  lemma Associate(p: nat, hi: nat)
    ensures 256 * p * hi == 256 * (p * hi)
  {
  }

  /** Two 32-bit halves, low half first. */
  lemma TwoWords(lo: word, hi: word)
    ensures LittleEndian(lo, 4) + LittleEndian(hi, 4) == LittleEndian(lo + TWO_32 * hi, 8)
  {
    assert Power256(4) == TWO_32;
    LittleEndianJoin(lo, hi, 4, 4);
  }

  // ----- cutting a message into blocks of 64 bytes ------------------------

  /** The blocks of a message, from the front, folded with step. */
  function Fold<S, B>(step: (S, seq<B>) -> S, s: S, m: seq<B>): S
    requires |m| % 64 == 0
    decreases |m|
  {
    if m == [] then s else Fold(step, step(s, m[..64]), m[64..])
  }

  lemma {:induction false} FoldConcat<S, B>(step: (S, seq<B>) -> S, s: S, a: seq<B>, b: seq<B>)
    requires |a| % 64 == 0 && |b| % 64 == 0
    ensures |a + b| % 64 == 0 && Fold(step, s, a + b) == Fold(step, Fold(step, s, a), b)
    decreases |a|
  {
    if a == [] {
      assert a + b == b;
    } else {
      assert (a + b)[..64] == a[..64] && (a + b)[64..] == a[64..] + b;
      FoldConcat(step, step(s, a[..64]), a[64..], b);
    }
  }

  lemma FoldOne<S, B>(step: (S, seq<B>) -> S, s: S, m: seq<B>, block: seq<B>)
    requires |m| % 64 == 0 && |block| == 64
    ensures |m + block| % 64 == 0 && Fold(step, s, m + block) == step(Fold(step, s, m), block)
  {
    FoldConcat(step, s, m, block);
    assert block[..64] == block && block[64..] == [];
  }

  function Zeros(n: nat): (r: seq<byte>)
    ensures |r| == n && forall i :: 0 <= i < n ==> r[i] == 0
  {
    seq(n, _ => 0)
  }

  /** How many zero bytes follow the 0x80 byte: up to 56 modulo 64. */
  function ZeroCount(n: nat): (z: nat)
    ensures (n + 1 + z) % 64 == 56 && z < 64
  {
    (119 - n % 64) % 64
  }

  /** Adding 8 * len to the two words of the count, with the carry. */
  lemma CountAdds(n: nat, len: nat, count0: word, count1: word)
    requires count0 + TWO_32 * count1 == 8 * n % TWO_64 && len < TWO_32
    ensures var low := (count0 + 8 * len % TWO_32) % TWO_32;
            var carry := if low < 8 * len % TWO_32 then 1 else 0;
            low + TWO_32 * ((count1 + carry + len / 0x2000_0000) % TWO_32) == 8 * (n + len) % TWO_64
  {
    var shifted, high := 8 * len % TWO_32, len / 0x2000_0000;
    ShiftSplits(len);
    var low := (count0 + shifted) % TWO_32;
    var carry := if low < shifted then 1 else 0;
    CarryIs(count0, shifted);
    var top := count1 + carry + high;
    var a, b := 8 * n / TWO_64, top / TWO_32;
    assert top == TWO_32 * b + top % TWO_32;
    assert 8 * (n + len) == TWO_64 * (a + b) + (low + TWO_32 * (top % TWO_32));
    Remainder64(a + b, low + TWO_32 * (top % TWO_32));
  }

  lemma ShiftSplits(len: nat)
    ensures 8 * len == 8 * len % TWO_32 + TWO_32 * (len / 0x2000_0000)
  {
    var q, r := len / 0x2000_0000, len % 0x2000_0000;
    assert len == 0x2000_0000 * q + r;
    Div32(q, 8 * r);
    assert 8 * len == TWO_32 * q + 8 * r;
  }

  lemma CarryIs(x: word, y: nat)
    requires y < TWO_32
    ensures var low := (x + y) % TWO_32; x + y == low + TWO_32 * if low < y then 1 else 0
  {
    if x + y < TWO_32 {
      Div32(0, x + y);
    } else {
      Div32(1, x + y - TWO_32);
    }
  }

  lemma Remainder64(q: nat, r: nat)
    requires r < TWO_64
    ensures (TWO_64 * q + r) % TWO_64 == r
  {
  }

  /** What is behind the last whole block. */
  lemma LastBlock(n: nat, k: nat)
    requires k <= n < k + 64 && k % 64 == 0
    ensures n - n % 64 == k && n % 64 == n - k
  {
  }

  // ----- division by constants --------------------------------------------

  lemma Div64(q: nat, r: nat)
    requires r < 64
    ensures (64 * q + r) % 64 == r
  {
  }

  lemma Div32(q: nat, r: nat)
    requires r < TWO_32
    ensures (TWO_32 * q + r) % TWO_32 == r && (TWO_32 * q + r) / TWO_32 == q
  {
  }

  /** Padding fills the last block. */
  lemma PaddedLength(n: nat)
    ensures (n + ZeroCount(n) + 9) % 64 == 0
  {
    var k := n + 1 + ZeroCount(n);
    assert k == 64 * (k / 64) + 56;
    Div64(k / 64 + 1, 0);
  }

  /** The number of bytes modulo 64, from the low word of the number of bits. */
  lemma IndexIs(n: nat, count0: word)
    requires count0 == 8 * n % TWO_64 % TWO_32
    ensures count0 / 8 % 64 == n % 64
  {
    var q, r := n / 0x2000_0000, n % 0x2000_0000;
    assert n == 0x2000_0000 * q + r;
    assert 8 * n == TWO_32 * q + 8 * r;
    Div32(q, 8 * r);
    var a, b := 8 * n / TWO_64, 8 * n % TWO_64;
    var c, d := b / TWO_32, b % TWO_32;
    assert 8 * n == TWO_32 * (TWO_32 * a + c) + d;
    Div32(TWO_32 * a + c, d);
    assert count0 == 8 * r;
    var x, y := r / 64, r % 64;
    assert n == 64 * (0x80_0000 * q + x) + y;
    Div64(0x80_0000 * q + x, y);
  }
}
