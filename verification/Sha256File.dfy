/** The logical functions and constants of SHA-256, and the checksum of a file read piece by piece. */
module Sha256File {

  import opened Numbers
  import opened BlockHash
  import opened Sha256

  // ---------------------------------------------------------------- the six logical functions

  function Bits(x: word): bv32 { x as bv32 }

  /** S32: rotation to the right. */
  function Rotate(x: bv32, n: bv6): bv32
    requires 0 < n < 32
  {
    (x >> n) | (x << (32 - n))
  }

  function Choose(x: bv32, y: bv32, z: bv32): bv32 { (x & y) ^ (!x & z) }
  function Majority(x: bv32, y: bv32, z: bv32): bv32 { (x & y) ^ (x & z) ^ (y & z) }

  function BigSigma0(x: bv32): bv32 { Rotate(x, 2) ^ Rotate(x, 13) ^ Rotate(x, 22) }
  function BigSigma1(x: bv32): bv32 { Rotate(x, 6) ^ Rotate(x, 11) ^ Rotate(x, 25) }
  function SmallSigma0(x: bv32): bv32 { Rotate(x, 7) ^ Rotate(x, 18) ^ (x >> 3) }
  function SmallSigma1(x: bv32): bv32 { Rotate(x, 17) ^ Rotate(x, 19) ^ (x >> 10) }

  function Ch(x: word, y: word, z: word): word { Choose(Bits(x), Bits(y), Bits(z)) as word }
  function Maj(x: word, y: word, z: word): word { Majority(Bits(x), Bits(y), Bits(z)) as word }
  function Upper0(x: word): word { BigSigma0(Bits(x)) as word }
  function Upper1(x: word): word { BigSigma1(Bits(x)) as word }
  function Lower0(x: word): word { SmallSigma0(Bits(x)) as word }
  function Lower1(x: word): word { SmallSigma1(Bits(x)) as word }

  // ---------------------------------------------------------------- what they do to single bits

  lemma OneBit(i: bv6)
    requires i < 32
    ensures var m: bv32 := 1 << i; m != 0 && m & (m - 1) == 0
  {}

  /** Bit i of a word rotated to the right by n is its bit i + n, modulo 32. */
  lemma RotateBits(x: bv32, n: bv6, i: bv6)
    requires 0 < n < 32 && i < 32
    ensures (Rotate(x, n) >> i) & 1 == (x >> ((i + n) % 32)) & 1
  {
    RotatedBits(x, n, i);
  }

  lemma RotatedBits(x: bv32, n: bv6, i: bv6)
    requires 0 < n < 32 && i < 32
    ensures (((x >> n) | (x << (32 - n))) >> i) & 1 == (x >> ((i + n) % 32)) & 1
  {}

  lemma Rotate2(x: bv32, i: bv6)
    requires i < 32
    ensures (Rotate(x, 2) & (1 << i) != 0) == (x & (1 << ((i + 2) % 32)) != 0)
  {}

  lemma Rotate6(x: bv32, i: bv6)
    requires i < 32
    ensures (Rotate(x, 6) & (1 << i) != 0) == (x & (1 << ((i + 6) % 32)) != 0)
  {}

  lemma Rotate7(x: bv32, i: bv6)
    requires i < 32
    ensures (Rotate(x, 7) & (1 << i) != 0) == (x & (1 << ((i + 7) % 32)) != 0)
  {}

  lemma Rotate11(x: bv32, i: bv6)
    requires i < 32
    ensures (Rotate(x, 11) & (1 << i) != 0) == (x & (1 << ((i + 11) % 32)) != 0)
  {}

  lemma Rotate13(x: bv32, i: bv6)
    requires i < 32
    ensures (Rotate(x, 13) & (1 << i) != 0) == (x & (1 << ((i + 13) % 32)) != 0)
  {}

  lemma Rotate17(x: bv32, i: bv6)
    requires i < 32
    ensures (Rotate(x, 17) & (1 << i) != 0) == (x & (1 << ((i + 17) % 32)) != 0)
  {}

  lemma Rotate18(x: bv32, i: bv6)
    requires i < 32
    ensures (Rotate(x, 18) & (1 << i) != 0) == (x & (1 << ((i + 18) % 32)) != 0)
  {}

  lemma Rotate19(x: bv32, i: bv6)
    requires i < 32
    ensures (Rotate(x, 19) & (1 << i) != 0) == (x & (1 << ((i + 19) % 32)) != 0)
  {}

  lemma Rotate22(x: bv32, i: bv6)
    requires i < 32
    ensures (Rotate(x, 22) & (1 << i) != 0) == (x & (1 << ((i + 22) % 32)) != 0)
  {}

  lemma Rotate25(x: bv32, i: bv6)
    requires i < 32
    ensures (Rotate(x, 25) & (1 << i) != 0) == (x & (1 << ((i + 25) % 32)) != 0)
  {}

  lemma ShiftBits3(x: bv32, i: bv6)
    requires i < 32
    ensures ((x >> 3) & (1 << i) != 0) == (i < 29 && x & (1 << (i + 3)) != 0)
  {}

  lemma ShiftBits10(x: bv32, i: bv6)
    requires i < 32
    ensures ((x >> 10) & (1 << i) != 0) == (i < 22 && x & (1 << (i + 10)) != 0)
  {}

  /** A bit of the xor of three words is one where an odd number of them has a one. */
  lemma OddBits(a: bv32, b: bv32, c: bv32, m: bv32)
    requires m != 0 && m & (m - 1) == 0
    ensures ((a ^ b ^ c) & m != 0) == (((a & m != 0) != (b & m != 0)) != (c & m != 0))
  {}

  /** Bit i of the results is the xor of the bits that section 4.1.2 of FIPS 180-4 names. */
  lemma BigSigma0Bits(x: bv32, i: bv6)
    requires i < 32
    ensures (BigSigma0(x) & (1 << i) != 0) ==
            (((x & (1 << ((i + 2) % 32)) != 0) != (x & (1 << ((i + 13) % 32)) != 0))
             != (x & (1 << ((i + 22) % 32)) != 0))
  {
    OneBit(i);
    OddBits(Rotate(x, 2), Rotate(x, 13), Rotate(x, 22), 1 << i);
    Rotate2(x, i);
    Rotate13(x, i);
    Rotate22(x, i);
  }

  lemma BigSigma1Bits(x: bv32, i: bv6)
    requires i < 32
    ensures (BigSigma1(x) & (1 << i) != 0) ==
            (((x & (1 << ((i + 6) % 32)) != 0) != (x & (1 << ((i + 11) % 32)) != 0))
             != (x & (1 << ((i + 25) % 32)) != 0))
  {
    OneBit(i);
    OddBits(Rotate(x, 6), Rotate(x, 11), Rotate(x, 25), 1 << i);
    Rotate6(x, i);
    Rotate11(x, i);
    Rotate25(x, i);
  }

  lemma SmallSigma0Bits(x: bv32, i: bv6)
    requires i < 32
    ensures (SmallSigma0(x) & (1 << i) != 0) ==
            (((x & (1 << ((i + 7) % 32)) != 0) != (x & (1 << ((i + 18) % 32)) != 0))
             != (i < 29 && x & (1 << (i + 3)) != 0))
  {
    OneBit(i);
    OddBits(Rotate(x, 7), Rotate(x, 18), x >> 3, 1 << i);
    Rotate7(x, i);
    Rotate18(x, i);
    ShiftBits3(x, i);
  }

  lemma SmallSigma1Bits(x: bv32, i: bv6)
    requires i < 32
    ensures (SmallSigma1(x) & (1 << i) != 0) ==
            (((x & (1 << ((i + 17) % 32)) != 0) != (x & (1 << ((i + 19) % 32)) != 0))
             != (i < 22 && x & (1 << (i + 10)) != 0))
  {
    OneBit(i);
    OddBits(Rotate(x, 17), Rotate(x, 19), x >> 10, 1 << i);
    Rotate17(x, i);
    Rotate19(x, i);
    ShiftBits10(x, i);
  }

  /** Where x has ones the choice is y, elsewhere z. */
  lemma ChooseFacts(x: bv32, y: bv32, z: bv32)
    ensures Choose(x, y, z) & x == y & x && Choose(x, y, z) & !x == z & !x
  {}

  /** A one in the majority is a one in two of the words at least. */
  lemma MajorityFacts(x: bv32, y: bv32, z: bv32)
    ensures Majority(x, y, z) == (x & y) | (z & (x | y))
  {}

  /** The functions on words are these, on the bits of the words. */
  lemma OnWords(x: word, y: word, z: word)
    ensures Bits(Ch(x, y, z)) == Choose(Bits(x), Bits(y), Bits(z)) && Bits(Maj(x, y, z)) == Majority(Bits(x), Bits(y), Bits(z))
    ensures Bits(Upper0(x)) == BigSigma0(Bits(x)) && Bits(Upper1(x)) == BigSigma1(Bits(x))
    ensures Bits(Lower0(x)) == SmallSigma0(Bits(x)) && Bits(Lower1(x)) == SmallSigma1(Bits(x))
  {
    StoredBits(Choose(Bits(x), Bits(y), Bits(z)));
    StoredBits(Majority(Bits(x), Bits(y), Bits(z)));
    StoredBits(BigSigma0(Bits(x)));
    StoredBits(BigSigma1(Bits(x)));
    StoredBits(SmallSigma0(Bits(x)));
    StoredBits(SmallSigma1(Bits(x)));
  }

  lemma StoredBits(x: bv32)
    ensures Bits(x as word) == x
  {}

  // ---------------------------------------------------------------- constants

  const ROW0: seq<word> := [0x428a2f98, 0x71374491, 0xb5c0fbcf, 0xe9b5dba5, 0x3956c25b, 0x59f111f1, 0x923f82a4, 0xab1c5ed5]
  const ROW1: seq<word> := [0xd807aa98, 0x12835b01, 0x243185be, 0x550c7dc3, 0x72be5d74, 0x80deb1fe, 0x9bdc06a7, 0xc19bf174]
  const ROW2: seq<word> := [0xe49b69c1, 0xefbe4786, 0x0fc19dc6, 0x240ca1cc, 0x2de92c6f, 0x4a7484aa, 0x5cb0a9dc, 0x76f988da]
  const ROW3: seq<word> := [0x983e5152, 0xa831c66d, 0xb00327c8, 0xbf597fc7, 0xc6e00bf3, 0xd5a79147, 0x06ca6351, 0x14292967]
  const ROW4: seq<word> := [0x27b70a85, 0x2e1b2138, 0x4d2c6dfc, 0x53380d13, 0x650a7354, 0x766a0abb, 0x81c2c92e, 0x92722c85]
  const ROW5: seq<word> := [0xa2bfe8a1, 0xa81a664b, 0xc24b8b70, 0xc76c51a3, 0xd192e819, 0xd6990624, 0xf40e3585, 0x106aa070]
  const ROW6: seq<word> := [0x19a4c116, 0x1e376c08, 0x2748774c, 0x34b0bcb5, 0x391c0cb3, 0x4ed8aa4a, 0x5b9cca4f, 0x682e6ff3]
  const ROW7: seq<word> := [0x748f82ee, 0x78a5636f, 0x84c87814, 0x8cc70208, 0x90befffa, 0xa4506ceb, 0xbef9a3f7, 0xc67178f2]
  const K256: seq<word> := ROW0 + ROW1 + ROW2 + ROW3 + ROW4 + ROW5 + ROW6 + ROW7

  const IV: Regs := Regs(0x6a09e667, 0xbb67ae85, 0x3c6ef372, 0xa54ff53a, 0x510e527f, 0x9b05688c, 0x1f83d9ab, 0x5be0cd19)

  function Standard(): (o: Logic)
    ensures |o.k| == 64
  {
    Logic(Ch, Maj, Upper0, Upper1, Lower0, Lower1, K256)
  }

  // ---------------------------------------------------------------- the checksum of a file

  /** SHA256_File on what its reads return: however the file is cut, the digest is the hash of the whole. */
  method FileDigest(pieces: seq<seq<byte>>, size: nat, littleEndian: bool, unrolled: bool) returns (digest: array<byte>)
    requires forall r :: r in pieces ==> |r| <= size
    ensures fresh(digest) && digest[..] == Hash(Standard(), IV, Joined(pieces))
  {
    digest := DigestWith(Standard(), IV, pieces, size, littleEndian, unrolled);
  }

  method DigestWith(o: Logic, iv: Regs, pieces: seq<seq<byte>>, size: nat, littleEndian: bool, unrolled: bool)
    returns (digest: array<byte>)
    requires |o.k| == 64 && forall r :: r in pieces ==> |r| <= size
    ensures fresh(digest) && digest[..] == Hash(o, iv, Joined(pieces))
  {
    var ctx := new Context(o, iv, littleEndian, unrolled);
    var buffer := new byte[size](i => 0);
    var i := 0;
    while i < |pieces|
      invariant i <= |pieces| && ctx.Valid() && fresh(ctx) && fresh(ctx.buffer) && fresh(buffer)
      invariant ctx.message == Joined(pieces[..i]) && buffer != ctx.buffer && buffer.Length == size
    {
      Read(buffer, pieces[i]);
      ctx.Update(buffer, |pieces[i]|);
      OneMore(pieces, i);
      i := i + 1;
    }
    assert pieces[..i] == pieces;
    digest := new byte[32](i => 0);
    ctx.Final(digest);
  }

  /** read. */
  method Read(buffer: array<byte>, piece: seq<byte>)
    requires |piece| <= buffer.Length
    modifies buffer
    ensures buffer[..|piece|] == piece
  {
    forall k | 0 <= k < |piece| {
      buffer[k] := piece[k];
    }
  }

  lemma OneMore(pieces: seq<seq<byte>>, i: nat)
    requires i < |pieces|
    ensures Joined(pieces[..i + 1]) == Joined(pieces[..i]) + pieces[i]
  {
    assert pieces[..i + 1][..i] == pieces[..i];
  }
}
