/** The functions and constants of libspider/Sha.cpp and MD5.cpp, told in
    another way: bit by bit, by where they come from, and by a known digest. */
module HashFacts {
  import opened Bytes
  import opened Shas
  import Md5s

  // ----- bit by bit -------------------------------------------------------

  type index = i: bv6 | i < 32

  /** Bit i of a word, counted from the low end. */
  predicate Bit(x: bv32, i: index) { (x >> i) & 1 == 1 }

  lemma AndBits(x: bv32, y: bv32, i: index)
    ensures Bit(x & y, i) <==> Bit(x, i) && Bit(y, i)
  {
  }

  lemma OrBits(x: bv32, y: bv32, i: index)
    ensures Bit(x | y, i) <==> Bit(x, i) || Bit(y, i)
  {
  }

  lemma XorBits(x: bv32, y: bv32, i: index)
    ensures Bit(x ^ y, i) <==> Bit(x, i) != Bit(y, i)
  {
  }

  /** Select takes c where b has a 1, and d elsewhere. */
  lemma SelectBits(b: bv32, c: bv32, d: bv32, i: index)
    ensures Bit(Select(b, c, d), i) == if Bit(b, i) then Bit(c, i) else Bit(d, i)
  {
    hide Bit;
    XorBits(c, d, i);
    AndBits(c ^ d, b, i);
    XorBits((c ^ d) & b, d, i);
  }

  lemma ParityBits(b: bv32, c: bv32, d: bv32, i: index)
    ensures Bit(Parity(b, c, d), i) == ((Bit(b, i) != Bit(c, i)) != Bit(d, i))
  {
    hide Bit;
    XorBits(b, c, i);
    XorBits(b ^ c, d, i);
  }

  /** Majority is what at least two of the three have. */
  lemma MajorityBits(b: bv32, c: bv32, d: bv32, i: index)
    ensures Bit(Majority(b, c, d), i) <==>
              (Bit(b, i) && Bit(c, i)) || (Bit(b, i) && Bit(d, i)) || (Bit(c, i) && Bit(d, i))
  {
    hide Bit;
    AndBits(b, c, i);
    OrBits(b, c, i);
    AndBits(d, b | c, i);
    OrBits(b & c, d & (b | c), i);
  }

  lemma RotateBits(x: bv32, i: index)
    ensures Bit(Rotl1(x), (i + 1) % 32) == Bit(x, i)
    ensures Bit(Rotl5(x), (i + 5) % 32) == Bit(x, i)
    ensures Bit(Rotl30(x), (i + 30) % 32) == Bit(x, i)
  {
  }
  // ----- the constants ----------------------------------------------------

  /** x is the integer part of 2^30 times the square root of p. */
  predicate RootOf(x: int, p: int) {
    x * x <= p * 0x1000_0000_0000_0000 < (x + 1) * (x + 1)
  }

  /** The constants of section 4.2.1 of FIPS 180-4 come from the square roots of
      2, 3, 5 and 10. */
  lemma ConstantRoots(t: nat)
    requires t < 80
    ensures RootOf(Constant(t) as int, if t < 20 then 2 else if t < 40 then 3 else if t < 60 then 5 else 10)
  {
  }

  /** The bytes that make the words MD5 begins with, in section 3.3 of RFC 1321,
      low byte first, and those of the fifth word of SHA. */
  const INIT_BYTES: seq<byte> :=
    [0x01, 0x23, 0x45, 0x67, 0x89, 0xab, 0xcd, 0xef, 0xfe, 0xdc, 0xba, 0x98, 0x76, 0x54, 0x32, 0x10,
     0xf0, 0xe1, 0xd2, 0xc3]

  lemma InitWords()
    ensures Md5s.INIT == Md5s.Hash(Md5s.WordAt(INIT_BYTES, 0), Md5s.WordAt(INIT_BYTES, 1),
                                   Md5s.WordAt(INIT_BYTES, 2), Md5s.WordAt(INIT_BYTES, 3))
    ensures INIT.a as int == Md5s.INIT.a && INIT.b as int == Md5s.INIT.b
    ensures INIT.c as int == Md5s.INIT.c && INIT.d as int == Md5s.INIT.d
    ensures INIT.e as int == Md5s.WordAt(INIT_BYTES, 4)
  {
  }

  // ----- a known digest ---------------------------------------------------

  /** The words of the one block of "abc", and those that are mixed from them. */
  function WordOf(t: nat): bv32 {
    if t < 16 then if t == 0 then 0x61626380 else if t == 15 then 0x18 else 0
    else if t < 24 then Word16(t) else if t < 32 then Word24(t) else if t < 40 then Word32(t)
    else if t < 48 then Word40(t) else if t < 56 then Word48(t) else if t < 64 then Word56(t)
    else if t < 72 then Word64(t) else Word72(t)
  }

  function Word16(t: nat): bv32 {
    if t == 16 then 0xc2c4c700 else if t == 17 then 0x00000000 else if t == 18 then 0x00000030 else
    if t == 19 then 0x85898e01 else if t == 20 then 0x00000000 else if t == 21 then 0x00000060 else
    if t == 22 then 0x0b131c03 else 0x00000030
  }

  function Word24(t: nat): bv32 {
    if t == 24 then 0x85898ec1 else if t == 25 then 0x16263806 else if t == 26 then 0x00000000 else
    if t == 27 then 0x00000180 else if t == 28 then 0x2c4c700c else if t == 29 then 0x000000f0 else
    if t == 30 then 0x93afb507 else 0x5898e048
  }

  function Word32(t: nat): bv32 {
    if t == 32 then 0x8e9a9202 else if t == 33 then 0x00000600 else if t == 34 then 0xb131c0f0 else
    if t == 35 then 0x16263bc6 else if t == 36 then 0x4ebed41e else if t == 37 then 0x626380a1 else
    if t == 38 then 0x16263806 else 0x000018c0
  }

  function Word40(t: nat): bv32 {
    if t == 40 then 0xd2e138c4 else if t == 41 then 0x00000f00 else if t == 42 then 0x3afb5079 else
    if t == 43 then 0x898e04e5 else if t == 44 then 0xe2ba3c2b else if t == 45 then 0x000060c0 else
    if t == 46 then 0x053a37cd else 0x74458547
  }

  function Word48(t: nat): bv32 {
    if t == 48 then 0xda9415ed else if t == 49 then 0x26380a16 else if t == 50 then 0x626383a1 else
    if t == 51 then 0x4ebf54de else if t == 52 then 0x3835b44b else if t == 53 then 0x0000f600 else
    if t == 54 then 0x1e84c7a3 else 0x98e04d98
  }

  function Word56(t: nat): bv32 {
    if t == 56 then 0x651d16a0 else if t == 57 then 0x62658ca1 else if t == 58 then 0x458544d6 else
    if t == 59 then 0x44584cb7 else if t == 60 then 0x7ba06619 else if t == 61 then 0x6380aea2 else
    if t == 62 then 0x0ae55269 else 0x627b49a1
  }

  function Word64(t: nat): bv32 {
    if t == 64 then 0x7cd45c9d else if t == 65 then 0x000f0000 else if t == 66 then 0xfb50753a else
    if t == 67 then 0xec6765e8 else if t == 68 then 0xba3c2be2 else if t == 69 then 0x0060c000 else
    if t == 70 then 0x3a37cd05 else 0x458546f4
  }

  function Word72(t: nat): bv32 {
    if t == 72 then 0xb8599dd6 else if t == 73 then 0x380a1a26 else if t == 74 then 0x01e02203 else
    if t == 75 then 0xe7cc3456 else if t == 76 then 0xe6e60b69 else if t == 77 then 0x00f60a00 else
    if t == 78 then 0x5795ef4f else 0x822e0879
  }

  const ABC_WORDS: seq<bv32> := seq(80, t requires 0 <= t < 80 => WordOf(t))

  predicate Mixed(t: nat)
    requires 16 <= t < 80
  {
    WordOf(t) == Mix(WordOf(t - 3), WordOf(t - 8), WordOf(t - 14), WordOf(t - 16))
  }

  lemma Mixed16()
    ensures forall t :: 16 <= t < 20 ==> Mixed(t)
  {
    assert Mixed(16) && Mixed(17) && Mixed(18) && Mixed(19);
  }

  lemma Mixed20()
    ensures forall t :: 20 <= t < 24 ==> Mixed(t)
  {
    assert Mixed(20) && Mixed(21) && Mixed(22) && Mixed(23);
  }

  lemma Mixed24()
    ensures forall t :: 24 <= t < 28 ==> Mixed(t)
  {
    assert Mixed(24) && Mixed(25) && Mixed(26) && Mixed(27);
  }

  lemma Mixed28()
    ensures forall t :: 28 <= t < 32 ==> Mixed(t)
  {
    assert Mixed(28) && Mixed(29) && Mixed(30) && Mixed(31);
  }

  lemma Mixed32()
    ensures forall t :: 32 <= t < 36 ==> Mixed(t)
  {
    assert Mixed(32) && Mixed(33) && Mixed(34) && Mixed(35);
  }

  lemma Mixed36()
    ensures forall t :: 36 <= t < 40 ==> Mixed(t)
  {
    assert Mixed(36) && Mixed(37) && Mixed(38) && Mixed(39);
  }

  lemma Mixed40()
    ensures forall t :: 40 <= t < 44 ==> Mixed(t)
  {
    assert Mixed(40) && Mixed(41) && Mixed(42) && Mixed(43);
  }

  lemma Mixed44()
    ensures forall t :: 44 <= t < 48 ==> Mixed(t)
  {
    assert Mixed(44) && Mixed(45) && Mixed(46) && Mixed(47);
  }

  lemma Mixed48()
    ensures forall t :: 48 <= t < 52 ==> Mixed(t)
  {
    assert Mixed(48) && Mixed(49) && Mixed(50) && Mixed(51);
  }

  lemma Mixed52()
    ensures forall t :: 52 <= t < 56 ==> Mixed(t)
  {
    assert Mixed(52) && Mixed(53) && Mixed(54) && Mixed(55);
  }

  lemma Mixed56()
    ensures forall t :: 56 <= t < 60 ==> Mixed(t)
  {
    assert Mixed(56) && Mixed(57) && Mixed(58) && Mixed(59);
  }

  lemma Mixed60()
    ensures forall t :: 60 <= t < 64 ==> Mixed(t)
  {
    assert Mixed(60) && Mixed(61) && Mixed(62) && Mixed(63);
  }

  lemma Mixed64()
    ensures forall t :: 64 <= t < 68 ==> Mixed(t)
  {
    assert Mixed(64) && Mixed(65) && Mixed(66) && Mixed(67);
  }

  lemma Mixed68()
    ensures forall t :: 68 <= t < 72 ==> Mixed(t)
  {
    assert Mixed(68) && Mixed(69) && Mixed(70) && Mixed(71);
  }

  lemma Mixed72()
    ensures forall t :: 72 <= t < 76 ==> Mixed(t)
  {
    assert Mixed(72) && Mixed(73) && Mixed(74) && Mixed(75);
  }

  lemma Mixed76()
    ensures forall t :: 76 <= t < 80 ==> Mixed(t)
  {
    assert Mixed(76) && Mixed(77) && Mixed(78) && Mixed(79);
  }

  lemma {:induction false} ScheduleFrom(n: nat)
    requires 16 <= n <= 80 && forall t :: 16 <= t < 80 ==> Mixed(t)
    ensures Schedule(ABC_WORDS[..n]) == ABC_WORDS
    decreases 80 - n
  {
    hide WordOf, Mix;
    var w := ABC_WORDS[..n];
    if n == 80 {
      assert w == ABC_WORDS;
    } else {
      assert Mixed(n);
      assert ABC_WORDS[..n+1] == w + [Mix(w[n-3], w[n-8], w[n-14], w[n-16])];
      ScheduleFrom(n + 1);
    }
  }

  /** One more round, which makes a the first register. */
  lemma Next(t: nat, r: Registers, a: bv32) returns (u: Registers)
    requires t < 80 && Rounds(INIT, ABC_WORDS, t) == r
    requires Sum(r.a, Choose(r.b, r.c, r.d, t), r.e, WordOf(t), Constant(t)) == a
    ensures u == Registers(a, r.a, Rotl30(r.b), r.c, r.d) && Rounds(INIT, ABC_WORDS, t + 1) == u
  {
    hide WordOf, Sum, Choose, Constant, Rotl30;
    u := Registers(a, r.a, Rotl30(r.b), r.c, r.d);
  }

  lemma Rounds5()
    requires Rounds(INIT, ABC_WORDS, 0) == Registers(0x67452301, 0xefcdab89, 0x98badcfe, 0x10325476, 0xc3d2e1f0)
    ensures Rounds(INIT, ABC_WORDS, 5) == Registers(0xcfd499de, 0xcdd8e11b, 0x284e43c2, 0x626414db, 0xc045bf0c)
  {
    hide Rounds;
    var r := Registers(0x67452301, 0xefcdab89, 0x98badcfe, 0x10325476, 0xc3d2e1f0);
    r := Next(0, r, 0x0116fc33);
    r := Next(1, r, 0x8990536d);
    r := Next(2, r, 0xa1390f08);
    r := Next(3, r, 0xcdd8e11b);
    r := Next(4, r, 0xcfd499de);
  }

  lemma Rounds10()
    requires Rounds(INIT, ABC_WORDS, 5) == Registers(0xcfd499de, 0xcdd8e11b, 0x284e43c2, 0x626414db, 0xc045bf0c)
    ensures Rounds(INIT, ABC_WORDS, 10) == Registers(0x8351f929, 0x4b6ae328, 0x27a301f5, 0x664f8c30, 0x0ff1f290)
  {
    hide Rounds;
    var r := Registers(0xcfd499de, 0xcdd8e11b, 0x284e43c2, 0x626414db, 0xc045bf0c);
    r := Next(5, r, 0x3fc7ca40);
    r := Next(6, r, 0x993e30c1);
    r := Next(7, r, 0x9e8c07d4);
    r := Next(8, r, 0x4b6ae328);
    r := Next(9, r, 0x8351f929);
  }

  lemma Rounds15()
    requires Rounds(INIT, ABC_WORDS, 10) == Registers(0x8351f929, 0x4b6ae328, 0x27a301f5, 0x664f8c30, 0x0ff1f290)
    ensures Rounds(INIT, ABC_WORDS, 15) == Registers(0x196bee77, 0x9128f695, 0x1181ed99, 0x18c623f9, 0x7ef6a7a2)
  {
    hide Rounds;
    var r := Registers(0x8351f929, 0x4b6ae328, 0x27a301f5, 0x664f8c30, 0x0ff1f290);
    r := Next(10, r, 0xfbda9e89);
    r := Next(11, r, 0x63188fe4);
    r := Next(12, r, 0x4607b664);
    r := Next(13, r, 0x9128f695);
    r := Next(14, r, 0x196bee77);
  }

  lemma Rounds20()
    requires Rounds(INIT, ABC_WORDS, 15) == Registers(0x196bee77, 0x9128f695, 0x1181ed99, 0x18c623f9, 0x7ef6a7a2)
    ensures Rounds(INIT, ABC_WORDS, 20) == Registers(0xfd9e1d7d, 0xdc64901d, 0x20aa99ca, 0xd3a49608, 0xc82f758b)
  {
    hide Rounds;
    var r := Registers(0x196bee77, 0x9128f695, 0x1181ed99, 0x18c623f9, 0x7ef6a7a2);
    r := Next(15, r, 0x20bdd62f);
    r := Next(16, r, 0x4e925823);
    r := Next(17, r, 0x82aa6728);
    r := Next(18, r, 0xdc64901d);
    r := Next(19, r, 0xfd9e1d7d);
  }

  lemma Rounds25()
    requires Rounds(INIT, ABC_WORDS, 20) == Registers(0xfd9e1d7d, 0xdc64901d, 0x20aa99ca, 0xd3a49608, 0xc82f758b)
    ensures Rounds(INIT, ABC_WORDS, 25) == Registers(0xc7567dc6, 0xd541f12d, 0x884a0d21, 0x0ce88eff, 0x868dec32)
  {
    hide Rounds;
    var r := Registers(0xfd9e1d7d, 0xdc64901d, 0x20aa99ca, 0xd3a49608, 0xc82f758b);
    r := Next(20, r, 0x1a37b0ca);
    r := Next(21, r, 0x33a23bfc);
    r := Next(22, r, 0x21283486);
    r := Next(23, r, 0xd541f12d);
    r := Next(24, r, 0xc7567dc6);
  }

  lemma Rounds30()
    requires Rounds(INIT, ABC_WORDS, 25) == Registers(0xc7567dc6, 0xd541f12d, 0x884a0d21, 0x0ce88eff, 0x868dec32)
    ensures Rounds(INIT, ABC_WORDS, 30) == Registers(0xc5fbaf5d, 0x8370b52e, 0xd2aa1365, 0x6f8d7ef5, 0x12104ee9)
  {
    hide Rounds;
    var r := Registers(0xc7567dc6, 0xd541f12d, 0x884a0d21, 0x0ce88eff, 0x868dec32);
    r := Next(25, r, 0x48413ba4);
    r := Next(26, r, 0xbe35fbd5);
    r := Next(27, r, 0x4aa84d97);
    r := Next(28, r, 0x8370b52e);
    r := Next(29, r, 0xc5fbaf5d);
  }

  lemma Rounds35()
    requires Rounds(INIT, ABC_WORDS, 30) == Registers(0xc5fbaf5d, 0x8370b52e, 0xd2aa1365, 0x6f8d7ef5, 0x12104ee9)
    ensures Rounds(INIT, ABC_WORDS, 35) == Registers(0x21796ad4, 0x2c0ebc11, 0x811bea82, 0xcee1174c, 0xc499ed01)
  {
    hide Rounds;
    var r := Registers(0xc5fbaf5d, 0x8370b52e, 0xd2aa1365, 0x6f8d7ef5, 0x12104ee9);
    r := Next(30, r, 0x1267b407);
    r := Next(31, r, 0x3b845d33);
    r := Next(32, r, 0x046faa0a);
    r := Next(33, r, 0x2c0ebc11);
    r := Next(34, r, 0x21796ad4);
  }

  lemma Rounds40()
    requires Rounds(INIT, ABC_WORDS, 35) == Registers(0x21796ad4, 0x2c0ebc11, 0x811bea82, 0xcee1174c, 0xc499ed01)
    ensures Rounds(INIT, ABC_WORDS, 40) == Registers(0x32de1cba, 0x4c986405, 0xf718e5cf, 0x03d447f6, 0xf72eec32)
  {
    hide Rounds;
    var r := Registers(0x21796ad4, 0x2c0ebc11, 0x811bea82, 0xcee1174c, 0xc499ed01);
    r := Next(35, r, 0xdcbbb0cb);
    r := Next(36, r, 0x0f511fd8);
    r := Next(37, r, 0xdc63973f);
    r := Next(38, r, 0x4c986405);
    r := Next(39, r, 0x32de1cba);
  }

  lemma Rounds45()
    requires Rounds(INIT, ABC_WORDS, 40) == Registers(0x32de1cba, 0x4c986405, 0xf718e5cf, 0x03d447f6, 0xf72eec32)
    ensures Rounds(INIT, ABC_WORDS, 45) == Registers(0x40f28e09, 0xee1b1aaf, 0x5fc64f71, 0x25c28357, 0xff21f7b7)
  {
    hide Rounds;
    var r := Registers(0x32de1cba, 0x4c986405, 0xf718e5cf, 0x03d447f6, 0xf72eec32);
    r := Next(40, r, 0xfc87dedf);
    r := Next(41, r, 0x970a0d5c);
    r := Next(42, r, 0x7f193dc5);
    r := Next(43, r, 0xee1b1aaf);
    r := Next(44, r, 0x40f28e09);
  }

  lemma Rounds50()
    requires Rounds(INIT, ABC_WORDS, 45) == Registers(0x40f28e09, 0xee1b1aaf, 0x5fc64f71, 0x25c28357, 0xff21f7b7)
    ensures Rounds(INIT, ABC_WORDS, 50) == Registers(0x120731c5, 0xbaf39337, 0xafab40b2, 0x2806e11b, 0x8714787c)
  {
    hide Rounds;
    var r := Registers(0x40f28e09, 0xee1b1aaf, 0x5fc64f71, 0x25c28357, 0xff21f7b7);
    r := Next(45, r, 0x1c51e1f2);
    r := Next(46, r, 0xa01b846c);
    r := Next(47, r, 0xbead02ca);
    r := Next(48, r, 0xbaf39337);
    r := Next(49, r, 0x120731c5);
  }

  lemma Rounds55()
    requires Rounds(INIT, ABC_WORDS, 50) == Registers(0x120731c5, 0xbaf39337, 0xafab40b2, 0x2806e11b, 0x8714787c)
    ensures Rounds(INIT, ABC_WORDS, 55) == Registers(0x7b71f76d, 0x27e9f1d8, 0x792410db, 0x8e11eb59, 0x99076cb3)
  {
    hide Rounds;
    var r := Registers(0x120731c5, 0xbaf39337, 0xafab40b2, 0x2806e11b, 0x8714787c);
    r := Next(50, r, 0x641db2ce);
    r := Next(51, r, 0x3847ad66);
    r := Next(52, r, 0xe490436d);
    r := Next(53, r, 0x27e9f1d8);
    r := Next(54, r, 0x7b71f76d);
  }

  lemma Rounds60()
    requires Rounds(INIT, ABC_WORDS, 55) == Registers(0x7b71f76d, 0x27e9f1d8, 0x792410db, 0x8e11eb59, 0x99076cb3)
    ensures Rounds(INIT, ABC_WORDS, 60) == Registers(0x3f52de5a, 0x09d785fd, 0x3498bfd4, 0xf211824f, 0xd79915ab)
  {
    hide Rounds;
    var r := Registers(0x7b71f76d, 0x27e9f1d8, 0x792410db, 0x8e11eb59, 0x99076cb3);
    r := Next(55, r, 0x5e6456af);
    r := Next(56, r, 0xc846093f);
    r := Next(57, r, 0xd262ff50);
    r := Next(58, r, 0x09d785fd);
    r := Next(59, r, 0x3f52de5a);
  }

  lemma Rounds65()
    requires Rounds(INIT, ABC_WORDS, 60) == Registers(0x3f52de5a, 0x09d785fd, 0x3498bfd4, 0xf211824f, 0xd79915ab)
    ensures Rounds(INIT, ABC_WORDS, 65) == Registers(0x19dfa7ac, 0x6b61c9e1, 0xed9b0082, 0x9523272c, 0xf5d5b051)
  {
    hide Rounds;
    var r := Registers(0x3f52de5a, 0x09d785fd, 0x3498bfd4, 0xf211824f, 0xd79915ab);
    r := Next(60, r, 0xd756c147);
    r := Next(61, r, 0x548c9cb2);
    r := Next(62, r, 0xb66c020b);
    r := Next(63, r, 0x6b61c9e1);
    r := Next(64, r, 0x19dfa7ac);
  }

  lemma Rounds70()
    requires Rounds(INIT, ABC_WORDS, 65) == Registers(0x19dfa7ac, 0x6b61c9e1, 0xed9b0082, 0x9523272c, 0xf5d5b051)
    ensures Rounds(INIT, ABC_WORDS, 70) == Registers(0x3f2588c2, 0x497093c0, 0xde37534a, 0x030f7cad, 0x4405957e)
  {
    hide Rounds;
    var r := Registers(0x19dfa7ac, 0x6b61c9e1, 0xed9b0082, 0x9523272c, 0xf5d5b051);
    r := Next(65, r, 0x101655f9);
    r := Next(66, r, 0x0c3df2b4);
    r := Next(67, r, 0x78dd4d2b);
    r := Next(68, r, 0x497093c0);
    r := Next(69, r, 0x3f2588c2);
  }

  lemma Rounds75()
    requires Rounds(INIT, ABC_WORDS, 70) == Registers(0x3f2588c2, 0x497093c0, 0xde37534a, 0x030f7cad, 0x4405957e)
    ensures Rounds(INIT, ABC_WORDS, 75) == Registers(0x5ee76897, 0x11793f6f, 0x3b6d0b79, 0xce616779, 0xf0667e31)
  {
    hide Rounds;
    var r := Registers(0x3f2588c2, 0x497093c0, 0xde37534a, 0x030f7cad, 0x4405957e);
    r := Next(70, r, 0xc199f8c7);
    r := Next(71, r, 0x39859de7);
    r := Next(72, r, 0xedb42de4);
    r := Next(73, r, 0x11793f6f);
    r := Next(74, r, 0x5ee76897);
  }

  lemma Rounds80()
    requires Rounds(INIT, ABC_WORDS, 75) == Registers(0x5ee76897, 0x11793f6f, 0x3b6d0b79, 0xce616779, 0xf0667e31)
    ensures Rounds(INIT, ABC_WORDS, 80) == Registers(0x42541b35, 0x5738d5e1, 0x21834873, 0x681e6df6, 0xd8fdf6ad)
  {
    hide Rounds;
    var r := Registers(0x5ee76897, 0x11793f6f, 0x3b6d0b79, 0xce616779, 0xf0667e31);
    r := Next(75, r, 0x63f7dab7);
    r := Next(76, r, 0xa079b7d9);
    r := Next(77, r, 0x860d21cc);
    r := Next(78, r, 0x5738d5e1);
    r := Next(79, r, 0x42541b35);
  }

  lemma AllRounds()
    ensures Rounds(INIT, ABC_WORDS, 80) == Registers(0x42541b35, 0x5738d5e1, 0x21834873, 0x681e6df6, 0xd8fdf6ad)
  {
    hide Rounds;
    NoRounds();
    Rounds5();
    Rounds10();
    Rounds15();
    Rounds20();
    Rounds25();
    Rounds30();
    Rounds35();
    Rounds40();
    Rounds45();
    Rounds50();
    Rounds55();
    Rounds60();
    Rounds65();
    Rounds70();
    Rounds75();
    Rounds80();
  }

  lemma NoRounds()
    ensures Rounds(INIT, ABC_WORDS, 0) == Registers(0x67452301, 0xefcdab89, 0x98badcfe, 0x10325476, 0xc3d2e1f0)
  {
  }

  lemma AllMixed()
    ensures forall t :: 16 <= t < 80 ==> Mixed(t)
  {
    hide Mixed;
    Mixed16();
    Mixed20();
    Mixed24();
    Mixed28();
    Mixed32();
    Mixed36();
    Mixed40();
    Mixed44();
    Mixed48();
    Mixed52();
    Mixed56();
    Mixed60();
    Mixed64();
    Mixed68();
    Mixed72();
    Mixed76();
  }

  const ABC: seq<bv8> := [0x61, 0x62, 0x63]

  lemma {:induction false} NoBytes(k: nat, i: nat)
    requires i < k
    ensures ZeroBytes(k)[i] == 0 && BigEndian(0, k)[i] == 0
    decreases k
  {
    if i < k - 1 {
      NoBytes(k - 1, i);
    }
  }

  /** The padded message. */
  lemma AbcPadded(i: nat)
    requires i < 64
    ensures |ABC + Padding(3)| == 64
    ensures (ABC + Padding(3))[i] == if i < 3 then ABC[i] else if i == 3 then 0x80 else if i == 63 then 24 else 0
  {
    hide ZeroBytes, BigEndian;
    assert ZeroCount(3) == 52;
    LengthByte();
    if 4 <= i < 56 {
      NoBytes(52, i - 4);
    } else if 56 <= i < 63 {
      NoBytes(7, i - 56);
    }
  }

  lemma LengthByte()
    ensures BigEndian(8 * 3 % TWO_64, 8) == BigEndian(0, 7) + [24 as bv8]
  {
  }

  lemma AbcWords()
    ensures |ABC + Padding(3)| == 64 && Words(ABC + Padding(3)) == ABC_WORDS[..16]
  {
    hide Padding;
    var m := ABC + Padding(3);
    AbcPadded(0);
    forall k | 0 <= k < 16
      ensures WordAt(m, k) == WordOf(k)
    {
      AbcPadded(4 * k);
      AbcPadded(4 * k + 1);
      AbcPadded(4 * k + 2);
      AbcPadded(4 * k + 3);
    }
  }

  lemma AbcOutput(h: Registers)
    requires h == Registers(0xa9993e36, 0x4706816a, 0xba3e2571, 0x7850c26c, 0x9cd0d89d)
    ensures Bytes4(h.a) == [0xa9, 0x99, 0x3e, 0x36] && Bytes4(h.b) == [0x47, 0x06, 0x81, 0x6a]
    ensures Bytes4(h.c) == [0xba, 0x3e, 0x25, 0x71] && Bytes4(h.d) == [0x78, 0x50, 0xc2, 0x6c]
    ensures Bytes4(h.e) == [0x9c, 0xd0, 0xd8, 0x9d]
  {
  }

  lemma AbcSum()
    ensures AddAll(INIT, Registers(0x42541b35, 0x5738d5e1, 0x21834873, 0x681e6df6, 0xd8fdf6ad))
         == Registers(0xa9993e36, 0x4706816a, 0xba3e2571, 0x7850c26c, 0x9cd0d89d)
  {
  }

  /** The digest of "abc", as the examples of the standard give it. */
  lemma DigestOfAbc()
    ensures Digest(ABC) ==
              [0xa9, 0x99, 0x3e, 0x36, 0x47, 0x06, 0x81, 0x6a,
               0xba, 0x3e, 0x25, 0x71, 0x78, 0x50, 0xc2, 0x6c,
               0x9c, 0xd0, 0xd8, 0x9d]
  {
    hide Rounds, Schedule, Padding, Words, AddAll, Output, Bytes4, Compress;
    AbcCompressed();
    var m := ABC + Padding(3);
    AbcWords();
    FoldOne(Step, INIT, [], m);
    assert [] + m == m;
    AbcJoined(Compress(INIT, Words(m)));
  }

  lemma AbcCompressed()
    ensures |ABC_WORDS[..16]| == 16
    ensures Compress(INIT, ABC_WORDS[..16]) == Registers(0xa9993e36, 0x4706816a, 0xba3e2571, 0x7850c26c, 0x9cd0d89d)
  {
    hide Rounds, Schedule, AddAll, Mixed;
    AllMixed();
    ScheduleFrom(16);
    AllRounds();
    AbcSum();
  }

  lemma AbcJoined(h: Registers)
    requires h == Registers(0xa9993e36, 0x4706816a, 0xba3e2571, 0x7850c26c, 0x9cd0d89d)
    ensures Output(h) ==
              [0xa9, 0x99, 0x3e, 0x36, 0x47, 0x06, 0x81, 0x6a,
               0xba, 0x3e, 0x25, 0x71, 0x78, 0x50, 0xc2, 0x6c,
               0x9c, 0xd0, 0xd8, 0x9d]
  {
    hide Bytes4;
    AbcOutput(h);
  }
}
