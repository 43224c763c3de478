/** What SHA-256 computes, said without its functions: the constants as fractions of roots of primes, the schedule and
    the rounds as recurrences modulo 2^32, and the digest byte by byte. */
module Sha256Laws {

  import opened Numbers
  import opened BlockHash
  import opened Sha256
  import opened Sha256File

  // ---------------------------------------------------------------- the constants

  /** k is the first 32 bits of the fraction of the cube root of p, whose whole part is n. */
  predicate CubeRoot(p: nat, n: nat, k: nat) {
    var x := TWO32 * n + k;
    k < TWO32 && x * x * x <= p * 0x1_0000_0000_0000_0000_0000_0000 < (x + 1) * (x + 1) * (x + 1)
  }

  predicate SquareRoot(p: nat, n: nat, k: nat) {
    var x := TWO32 * n + k;
    k < TWO32 && x * x <= p * 0x1_0000_0000_0000_0000 < (x + 1) * (x + 1)
  }

  /** The initial hash value (section 5.3.3 of FIPS 180-4): the first eight primes. */
  lemma InitialValue()
    ensures SquareRoot(2, 1, IV.a)
    ensures SquareRoot(3, 1, IV.b)
    ensures SquareRoot(5, 2, IV.c)
    ensures SquareRoot(7, 2, IV.d)
    ensures SquareRoot(11, 3, IV.e)
    ensures SquareRoot(13, 3, IV.f)
    ensures SquareRoot(17, 4, IV.g)
    ensures SquareRoot(19, 4, IV.h)
  {}

  /** The round constants (section 4.2.2): the first 64 primes. */
  lemma Constants0()
    ensures |K256| == 64
    ensures CubeRoot(2, 1, K256[0])
    ensures CubeRoot(3, 1, K256[1])
    ensures CubeRoot(5, 1, K256[2])
    ensures CubeRoot(7, 1, K256[3])
    ensures CubeRoot(11, 2, K256[4])
    ensures CubeRoot(13, 2, K256[5])
    ensures CubeRoot(17, 2, K256[6])
    ensures CubeRoot(19, 2, K256[7])
  {
    Row0();
    assert CubeRoot(2, 1, 0x428a2f98);
    assert CubeRoot(3, 1, 0x71374491);
    assert CubeRoot(5, 1, 0xb5c0fbcf);
    assert CubeRoot(7, 1, 0xe9b5dba5);
    assert CubeRoot(11, 2, 0x3956c25b);
    assert CubeRoot(13, 2, 0x59f111f1);
    assert CubeRoot(17, 2, 0x923f82a4);
    assert CubeRoot(19, 2, 0xab1c5ed5);
  }

  lemma Row0()
    ensures |K256| == 64
    ensures K256[0] == 0x428a2f98
    ensures K256[1] == 0x71374491
    ensures K256[2] == 0xb5c0fbcf
    ensures K256[3] == 0xe9b5dba5
    ensures K256[4] == 0x3956c25b
    ensures K256[5] == 0x59f111f1
    ensures K256[6] == 0x923f82a4
    ensures K256[7] == 0xab1c5ed5
  {
    assert K256[0..8] == ROW0;
  }

  lemma Constants8()
    ensures |K256| == 64
    ensures CubeRoot(23, 2, K256[8])
    ensures CubeRoot(29, 3, K256[9])
    ensures CubeRoot(31, 3, K256[10])
    ensures CubeRoot(37, 3, K256[11])
    ensures CubeRoot(41, 3, K256[12])
    ensures CubeRoot(43, 3, K256[13])
    ensures CubeRoot(47, 3, K256[14])
    ensures CubeRoot(53, 3, K256[15])
  {
    Row8();
    assert CubeRoot(23, 2, 0xd807aa98);
    assert CubeRoot(29, 3, 0x12835b01);
    assert CubeRoot(31, 3, 0x243185be);
    assert CubeRoot(37, 3, 0x550c7dc3);
    assert CubeRoot(41, 3, 0x72be5d74);
    assert CubeRoot(43, 3, 0x80deb1fe);
    assert CubeRoot(47, 3, 0x9bdc06a7);
    assert CubeRoot(53, 3, 0xc19bf174);
  }

  lemma Row8()
    ensures |K256| == 64
    ensures K256[8] == 0xd807aa98
    ensures K256[9] == 0x12835b01
    ensures K256[10] == 0x243185be
    ensures K256[11] == 0x550c7dc3
    ensures K256[12] == 0x72be5d74
    ensures K256[13] == 0x80deb1fe
    ensures K256[14] == 0x9bdc06a7
    ensures K256[15] == 0xc19bf174
  {
    assert K256[8..16] == ROW1;
  }

  lemma Constants16()
    ensures |K256| == 64
    ensures CubeRoot(59, 3, K256[16])
    ensures CubeRoot(61, 3, K256[17])
    ensures CubeRoot(67, 4, K256[18])
    ensures CubeRoot(71, 4, K256[19])
    ensures CubeRoot(73, 4, K256[20])
    ensures CubeRoot(79, 4, K256[21])
    ensures CubeRoot(83, 4, K256[22])
    ensures CubeRoot(89, 4, K256[23])
  {
    Row16();
    assert CubeRoot(59, 3, 0xe49b69c1);
    assert CubeRoot(61, 3, 0xefbe4786);
    assert CubeRoot(67, 4, 0x0fc19dc6);
    assert CubeRoot(71, 4, 0x240ca1cc);
    assert CubeRoot(73, 4, 0x2de92c6f);
    assert CubeRoot(79, 4, 0x4a7484aa);
    assert CubeRoot(83, 4, 0x5cb0a9dc);
    assert CubeRoot(89, 4, 0x76f988da);
  }

  lemma Row16()
    ensures |K256| == 64
    ensures K256[16] == 0xe49b69c1
    ensures K256[17] == 0xefbe4786
    ensures K256[18] == 0x0fc19dc6
    ensures K256[19] == 0x240ca1cc
    ensures K256[20] == 0x2de92c6f
    ensures K256[21] == 0x4a7484aa
    ensures K256[22] == 0x5cb0a9dc
    ensures K256[23] == 0x76f988da
  {
    assert K256[16..24] == ROW2;
  }

  lemma Constants24()
    ensures |K256| == 64
    ensures CubeRoot(97, 4, K256[24])
    ensures CubeRoot(101, 4, K256[25])
    ensures CubeRoot(103, 4, K256[26])
    ensures CubeRoot(107, 4, K256[27])
    ensures CubeRoot(109, 4, K256[28])
    ensures CubeRoot(113, 4, K256[29])
    ensures CubeRoot(127, 5, K256[30])
    ensures CubeRoot(131, 5, K256[31])
  {
    Row24();
    assert CubeRoot(97, 4, 0x983e5152);
    assert CubeRoot(101, 4, 0xa831c66d);
    assert CubeRoot(103, 4, 0xb00327c8);
    assert CubeRoot(107, 4, 0xbf597fc7);
    assert CubeRoot(109, 4, 0xc6e00bf3);
    assert CubeRoot(113, 4, 0xd5a79147);
    assert CubeRoot(127, 5, 0x06ca6351);
    assert CubeRoot(131, 5, 0x14292967);
  }

  lemma Row24()
    ensures |K256| == 64
    ensures K256[24] == 0x983e5152
    ensures K256[25] == 0xa831c66d
    ensures K256[26] == 0xb00327c8
    ensures K256[27] == 0xbf597fc7
    ensures K256[28] == 0xc6e00bf3
    ensures K256[29] == 0xd5a79147
    ensures K256[30] == 0x06ca6351
    ensures K256[31] == 0x14292967
  {
    assert K256[24..32] == ROW3;
  }

  lemma Constants32()
    ensures |K256| == 64
    ensures CubeRoot(137, 5, K256[32])
    ensures CubeRoot(139, 5, K256[33])
    ensures CubeRoot(149, 5, K256[34])
    ensures CubeRoot(151, 5, K256[35])
    ensures CubeRoot(157, 5, K256[36])
    ensures CubeRoot(163, 5, K256[37])
    ensures CubeRoot(167, 5, K256[38])
    ensures CubeRoot(173, 5, K256[39])
  {
    Row32();
    assert CubeRoot(137, 5, 0x27b70a85);
    assert CubeRoot(139, 5, 0x2e1b2138);
    assert CubeRoot(149, 5, 0x4d2c6dfc);
    assert CubeRoot(151, 5, 0x53380d13);
    assert CubeRoot(157, 5, 0x650a7354);
    assert CubeRoot(163, 5, 0x766a0abb);
    assert CubeRoot(167, 5, 0x81c2c92e);
    assert CubeRoot(173, 5, 0x92722c85);
  }

  lemma Row32()
    ensures |K256| == 64
    ensures K256[32] == 0x27b70a85
    ensures K256[33] == 0x2e1b2138
    ensures K256[34] == 0x4d2c6dfc
    ensures K256[35] == 0x53380d13
    ensures K256[36] == 0x650a7354
    ensures K256[37] == 0x766a0abb
    ensures K256[38] == 0x81c2c92e
    ensures K256[39] == 0x92722c85
  {
    assert K256[32..40] == ROW4;
  }

  lemma Constants40()
    ensures |K256| == 64
    ensures CubeRoot(179, 5, K256[40])
    ensures CubeRoot(181, 5, K256[41])
    ensures CubeRoot(191, 5, K256[42])
    ensures CubeRoot(193, 5, K256[43])
    ensures CubeRoot(197, 5, K256[44])
    ensures CubeRoot(199, 5, K256[45])
    ensures CubeRoot(211, 5, K256[46])
    ensures CubeRoot(223, 6, K256[47])
  {
    Row40();
    assert CubeRoot(179, 5, 0xa2bfe8a1);
    assert CubeRoot(181, 5, 0xa81a664b);
    assert CubeRoot(191, 5, 0xc24b8b70);
    assert CubeRoot(193, 5, 0xc76c51a3);
    assert CubeRoot(197, 5, 0xd192e819);
    assert CubeRoot(199, 5, 0xd6990624);
    assert CubeRoot(211, 5, 0xf40e3585);
    assert CubeRoot(223, 6, 0x106aa070);
  }

  lemma Row40()
    ensures |K256| == 64
    ensures K256[40] == 0xa2bfe8a1
    ensures K256[41] == 0xa81a664b
    ensures K256[42] == 0xc24b8b70
    ensures K256[43] == 0xc76c51a3
    ensures K256[44] == 0xd192e819
    ensures K256[45] == 0xd6990624
    ensures K256[46] == 0xf40e3585
    ensures K256[47] == 0x106aa070
  {
    assert K256[40..48] == ROW5;
  }

  lemma Constants48()
    ensures |K256| == 64
    ensures CubeRoot(227, 6, K256[48])
    ensures CubeRoot(229, 6, K256[49])
    ensures CubeRoot(233, 6, K256[50])
    ensures CubeRoot(239, 6, K256[51])
    ensures CubeRoot(241, 6, K256[52])
    ensures CubeRoot(251, 6, K256[53])
    ensures CubeRoot(257, 6, K256[54])
    ensures CubeRoot(263, 6, K256[55])
  {
    Row48();
    assert CubeRoot(227, 6, 0x19a4c116);
    assert CubeRoot(229, 6, 0x1e376c08);
    assert CubeRoot(233, 6, 0x2748774c);
    assert CubeRoot(239, 6, 0x34b0bcb5);
    assert CubeRoot(241, 6, 0x391c0cb3);
    assert CubeRoot(251, 6, 0x4ed8aa4a);
    assert CubeRoot(257, 6, 0x5b9cca4f);
    assert CubeRoot(263, 6, 0x682e6ff3);
  }

  lemma Row48()
    ensures |K256| == 64
    ensures K256[48] == 0x19a4c116
    ensures K256[49] == 0x1e376c08
    ensures K256[50] == 0x2748774c
    ensures K256[51] == 0x34b0bcb5
    ensures K256[52] == 0x391c0cb3
    ensures K256[53] == 0x4ed8aa4a
    ensures K256[54] == 0x5b9cca4f
    ensures K256[55] == 0x682e6ff3
  {
    assert K256[48..56] == ROW6;
  }

  lemma Constants56()
    ensures |K256| == 64
    ensures CubeRoot(269, 6, K256[56])
    ensures CubeRoot(271, 6, K256[57])
    ensures CubeRoot(277, 6, K256[58])
    ensures CubeRoot(281, 6, K256[59])
    ensures CubeRoot(283, 6, K256[60])
    ensures CubeRoot(293, 6, K256[61])
    ensures CubeRoot(307, 6, K256[62])
    ensures CubeRoot(311, 6, K256[63])
  {
    Row56();
    assert CubeRoot(269, 6, 0x748f82ee);
    assert CubeRoot(271, 6, 0x78a5636f);
    assert CubeRoot(277, 6, 0x84c87814);
    assert CubeRoot(281, 6, 0x8cc70208);
    assert CubeRoot(283, 6, 0x90befffa);
    assert CubeRoot(293, 6, 0xa4506ceb);
    assert CubeRoot(307, 6, 0xbef9a3f7);
    assert CubeRoot(311, 6, 0xc67178f2);
  }

  lemma Row56()
    ensures |K256| == 64
    ensures K256[56] == 0x748f82ee
    ensures K256[57] == 0x78a5636f
    ensures K256[58] == 0x84c87814
    ensures K256[59] == 0x8cc70208
    ensures K256[60] == 0x90befffa
    ensures K256[61] == 0xa4506ceb
    ensures K256[62] == 0xbef9a3f7
    ensures K256[63] == 0xc67178f2
  {
    assert K256[56..64] == ROW7;
  }

  // ---------------------------------------------------------------- the schedule and the rounds

  lemma WordIs(s: seq<byte>)
    requires |s| == 4
    ensures Word(s) == Sum4(s, 0)
  {
    FourMore([], s);
    assert [] + s == s;
  }

  /** The first sixteen words of the schedule are those of the block; each other one is a sum of earlier ones. */
  lemma ScheduleIs(o: Logic, m: block, t: nat)
    ensures t < 16 ==> W(o, m, t) == Sum4(m, 4 * t)
    ensures t >= 16 ==>
      W(o, m, t) == (o.lower1(W(o, m, t - 2)) + W(o, m, t - 7) + o.lower0(W(o, m, t - 15)) + W(o, m, t - 16)) % TWO32
  {
    if t < 16 {
      WordIs(m[4 * t..4 * t + 4]);
    } else {
      FourSum(o.lower1(W(o, m, t - 2)), W(o, m, t - 7), o.lower0(W(o, m, t - 15)), W(o, m, t - 16));
    }
  }

  lemma PlusMore(x: nat, y: nat)
    ensures (x % TWO32 + y) % TWO32 == (x + y) % TWO32
  {
    var q := x / TWO32;
    assert x + y == TWO32 * q + (x % TWO32 + y);
  }

  lemma FourSum(a: word, b: word, c: word, d: word)
    ensures Plus(Plus(Plus(a, b), c), d) == (a + b + c + d) % TWO32
  {
    PlusMore(a + b, c);
    PlusMore(a + b + c, d);
  }

  lemma FiveSum(a: word, b: word, c: word, d: word, e: word)
    ensures Plus(Plus(Plus(Plus(a, b), c), d), e) == (a + b + c + d + e) % TWO32
  {
    FourSum(a, b, c, d);
    PlusMore(a + b + c + d, e);
  }

  /** What the registers a and e hold, one round after the other; the first four values are those that d, c, b, a
      and h, g, f, e start with. */
  function AE(o: Logic, h: Regs, m: block, i: nat): (word, word)
    requires i < |o.k| + 4
  {
    if i < 4 then (if i == 0 then (h.d, h.h) else if i == 1 then (h.c, h.g) else if i == 2 then (h.b, h.f) else (h.a, h.e))
    else
      NextPair(o, AE(o, h, m, i - 1), AE(o, h, m, i - 2), AE(o, h, m, i - 3), AE(o, h, m, i - 4), o.k[i - 4], W(o, m, i - 4))
  }

  /** The next values of a and e, from the last four of both. */
  function NextPair(o: Logic, x: (word, word), y: (word, word), z: (word, word), u: (word, word), k: word, w: word): (word, word) {
    var t1 := u.1 + o.upper1(x.1) + o.ch(x.1, y.1, z.1) + k + w;
    ((t1 + o.upper0(x.0) + o.maj(x.0, y.0, z.0)) % TWO32, (u.0 + t1) % TWO32)
  }

  lemma RoundIs(o: Logic, r: Regs, k: word, w: word)
    ensures var (a, e) := NextPair(o, (r.a, r.e), (r.b, r.f), (r.c, r.g), (r.d, r.h), k, w);
            Round(o, r, k, w) == Regs(a, r.a, r.b, r.c, e, r.e, r.f, r.g)
  {
    var t1 := r.h + o.upper1(r.e) + o.ch(r.e, r.f, r.g) + k + w;
    FiveSum(r.h, o.upper1(r.e), o.ch(r.e, r.f, r.g), k, w);
    PlusMore(t1, r.d);
    TwoSums(t1, o.upper0(r.a) + o.maj(r.a, r.b, r.c));
  }

  lemma TwoSums(x: nat, y: nat)
    ensures (x % TWO32 + y % TWO32) % TWO32 == (x + y) % TWO32
  {
    PlusMore(x, y % TWO32);
    PlusMore(y, x);
  }

  function RegsAt(o: Logic, h: Regs, m: block, t: nat): Regs
    requires t <= |o.k|
  {
    Regs(AE(o, h, m, t + 3).0, AE(o, h, m, t + 2).0, AE(o, h, m, t + 1).0, AE(o, h, m, t).0,
         AE(o, h, m, t + 3).1, AE(o, h, m, t + 2).1, AE(o, h, m, t + 1).1, AE(o, h, m, t).1)
  }

  /** After t rounds the registers hold the last four values of both. */
  lemma {:induction false} RoundsAre(o: Logic, h: Regs, m: block, t: nat)
    requires t <= |o.k|
    ensures Rounds(o, h, m, o.k[..t]) == RegsAt(o, h, m, t)
  {
    if t == 0 {
      NoRounds(o, h, m);
    } else {
      RoundsAre(o, h, m, t - 1);
      OneRound(o, h, m, t - 1);
      NextRegs(o, h, m, t - 1, Rounds(o, h, m, o.k[..t - 1]));
    }
  }

  lemma NoRounds(o: Logic, h: Regs, m: block)
    ensures Rounds(o, h, m, o.k[..0]) == h == RegsAt(o, h, m, 0)
  {}

  lemma NextRegs(o: Logic, h: Regs, m: block, t: nat, r: Regs)
    requires t < |o.k| && r == RegsAt(o, h, m, t)
    ensures Round(o, r, o.k[t], W(o, m, t)) == RegsAt(o, h, m, t + 1)
  {
    RoundIs(o, r, o.k[t], W(o, m, t));
    assert AE(o, h, m, t + 4) == NextPair(o, (r.a, r.e), (r.b, r.f), (r.c, r.g), (r.d, r.h), o.k[t], W(o, m, t));
  }

  /** Added modulo 2^32, word by word. */
  predicate IsSum(r: Regs, h: Regs, s: Regs) {
    r.a == (h.a + s.a) % TWO32 && r.b == (h.b + s.b) % TWO32 && r.c == (h.c + s.c) % TWO32 && r.d == (h.d + s.d) % TWO32
    && r.e == (h.e + s.e) % TWO32 && r.f == (h.f + s.f) % TWO32 && r.g == (h.g + s.g) % TWO32 && r.h == (h.h + s.h) % TWO32
  }

  /** One block: the values after all rounds are added to the hash value. */
  lemma CompressIs(o: Logic, h: Regs, m: block)
    ensures IsSum(Compress(o, h, m), h, RegsAt(o, h, m, |o.k|))
  {
    assert o.k[..|o.k|] == o.k;
    RoundsAre(o, h, m, |o.k|);
    Added(h, Rounds(o, h, m, o.k));
  }

  lemma Added(h: Regs, s: Regs)
    ensures IsSum(AddRegs(h, s), h, s)
  {}

  // ---------------------------------------------------------------- padding and digest

  /** The digest: the eight words, a first, each with its highest byte first. */
  lemma DigestIs(h: Regs)
    ensures var d := Digest(h);
            |d| == 32 && h.a == Sum4(d, 0) && h.b == Sum4(d, 4) && h.c == Sum4(d, 8) && h.d == Sum4(d, 12)
            && h.e == Sum4(d, 16) && h.f == Sum4(d, 20) && h.g == Sum4(d, 24) && h.h == Sum4(d, 28)
  {
    var w := Words(h);
    BytesAt(w, 0);
    BytesAt(w, 1);
    BytesAt(w, 2);
    BytesAt(w, 3);
    BytesAt(w, 4);
    BytesAt(w, 5);
    BytesAt(w, 6);
    BytesAt(w, 7);
  }

  lemma {:induction false} BytesAt(words: seq<word>, i: nat)
    requires i < |words|
    ensures |Bytes(words)| == 4 * |words| && words[i] == Sum4(Bytes(words), 4 * i)
  {
    var n := |words| - 1;
    BytesLength(words[..n]);
    if i == n {
      BytesOf4(words[n]);
    } else {
      BytesAt(words[..n], i);
    }
  }

  lemma {:induction false} BytesLength(words: seq<word>)
    ensures |Bytes(words)| == 4 * |words|
  {
    if words != [] {
      BytesLength(words[..|words| - 1]);
    }
  }

  /** The length field: the number of bits modulo 2^64, its highest byte first. */
  lemma FieldIs(message: seq<byte>)
    ensures var l := LengthField(message);
            |l| == 8 && TWO32 * Sum4(l, 0) + Sum4(l, 4) == 8 * |message| % 0x1_0000_0000_0000_0000
  {
    BytesOf8(8 * |message| % TWO64);
  }
}
