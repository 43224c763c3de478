/** The shifts, masks and ors of the program, against the quotients, remainders and sums that the models
    use for them.  Both sides are computed on words of fixed width; the sums do not overflow. */
module BitForms {

  import Base32
  import BlockHash
  import FileMapStore
  import Sha256

  /** The eight symbols of a base32 group. */
  lemma EncoderShifts(a: bv8, b: bv8, c: bv8, d: bv8, e: bv8)
    ensures a >> 3 == a / 8
    ensures 0x1f & ((a << 2) | (b >> 6)) == a % 8 * 4 + b / 64
    ensures 0x1f & (b >> 1) == b / 2 % 32
    ensures 0x1f & ((b << 4) | (c >> 4)) == b % 2 * 16 + c / 16
    ensures 0x1f & ((c << 1) | (d >> 7)) == c % 16 * 2 + d / 128
    ensures 0x1f & (d >> 2) == d / 4 % 32
    ensures 0x1f & ((d << 3) | (e >> 5)) == d % 4 * 8 + e / 32
    ensures 0x1f & e == e % 32
  {}

  /** The last symbols of partial groups. */
  lemma PartialShifts(a: bv8, b: bv8, c: bv8, d: bv8)
    ensures 0x1f & (a << 2) == a % 8 * 4 && 0x1f & (b << 4) == b % 2 * 16
    ensures 0x1f & (c << 1) == c % 16 * 2 && 0x1f & (d << 3) == d % 4 * 8
  {}

  /** The five bytes of a base32 group, as they are stored in a byte. */
  lemma DecoderShifts(s: bv8, t: bv8, u: bv8, v: bv8, w: bv8, x: bv8, y: bv8, z: bv8)
    requires s < 32 && t < 32 && u < 32 && v < 32 && w < 32 && x < 32 && y < 32 && z < 32
    ensures (s << 3) | (t >> 2) == s * 8 + t / 4
    ensures (t << 6) | (u << 1) | (v >> 4) == t % 4 * 64 + u * 2 + v / 16
    ensures (v << 4) | (w >> 1) == v % 16 * 16 + w / 2
    ensures (w << 7) | (x << 2) | (y >> 3) == w % 2 * 128 + x * 4 + y / 8
    ensures (y << 5) | z == y % 8 * 32 + z
  {}

  /** A word of a message block, and the count of a stored node. */
  lemma LoadShifts(a: bv32, b: bv32, c: bv32, d: bv32)
    requires a < 256 && b < 256 && c < 256 && d < 256
    ensures d | (c << 8) | (b << 16) | (a << 24) == 256 * (256 * (256 * a + b) + c) + d
  {}

  lemma StoreShifts(n: bv32)
    ensures (n >> 24) & 0xFF == n / 256 / 256 / 256 % 256 && (n >> 16) & 0xFF == n / 256 / 256 % 256
    ensures (n >> 8) & 0xFF == n / 256 % 256 && n & 0xFF == n % 256
  {}

  /** REVERSE32 reverses the four bytes of a word. */
  lemma Reverse32(a: bv32, b: bv32, c: bv32, d: bv32)
    requires a < 256 && b < 256 && c < 256 && d < 256
    ensures var w := 256 * (256 * (256 * a + b) + c) + d;
            var tmp := (w >> 16) | (w << 16);
            ((tmp & 0xff00ff00) >> 8) | ((tmp & 0x00ff00ff) << 8) == 256 * (256 * (256 * d + c) + b) + a
  {}

  /** REVERSE64 reverses the eight bytes of a word. */
  lemma Reverse64(a: bv64, b: bv64, c: bv64, d: bv64, e: bv64, f: bv64, g: bv64, h: bv64)
    requires a < 256 && b < 256 && c < 256 && d < 256 && e < 256 && f < 256 && g < 256 && h < 256
    ensures var w := (a << 56) | (b << 48) | (c << 40) | (d << 32) | (e << 24) | (f << 16) | (g << 8) | h;
            var t := (w >> 32) | (w << 32);
            var u := ((t & 0xff00ff00ff00ff00) >> 8) | ((t & 0x00ff00ff00ff00ff) << 8);
            ((u & 0xffff0000ffff0000) >> 16) | ((u & 0x0000ffff0000ffff) << 16)
            == (h << 56) | (g << 48) | (f << 40) | (e << 32) | (d << 24) | (c << 16) | (b << 8) | a
  {}

  // ---------------------------------------------------------------- words of four bytes as numbers

  /** The number of the word that shifts and ors make of four bytes. */
  function Four(a: bv8, b: bv8, c: bv8, d: bv8): nat {
    ((a as bv32 << 24) | (b as bv32 << 16) | (c as bv32 << 8) | (d as bv32)) as nat
  }

  lemma ShiftedSum(w: bv32, a: bv8, b: bv8, c: bv8, d: bv8)
    requires w == (a as bv32 << 24) | (b as bv32 << 16) | (c as bv32 << 8) | (d as bv32)
    ensures w as nat == 0x100_0000 * (a as nat) + 0x1_0000 * (b as nat) + 0x100 * (c as nat) + d as nat
  {}

  lemma FourIsSum(a: bv8, b: bv8, c: bv8, d: bv8)
    ensures Four(a, b, c, d) == 0x100_0000 * (a as nat) + 0x1_0000 * (b as nat) + 0x100 * (c as nat) + d as nat
  {
    ShiftedSum((a as bv32 << 24) | (b as bv32 << 16) | (c as bv32 << 8) | (d as bv32), a, b, c, d);
  }

  /** The bytes that shifts and masks take out of a word. */
  lemma FourBytesOf(w: bv32) returns (a: bv8, b: bv8, c: bv8, d: bv8)
    ensures a as bv32 == (w >> 24) & 0xFF && b as bv32 == (w >> 16) & 0xFF && c as bv32 == (w >> 8) & 0xFF && d as bv32 == w & 0xFF
    ensures w == (a as bv32 << 24) | (b as bv32 << 16) | (c as bv32 << 8) | (d as bv32)
  {
    a, b, c, d := ((w >> 24) & 0xFF) as bv8, ((w >> 16) & 0xFF) as bv8, ((w >> 8) & 0xFF) as bv8, (w & 0xFF) as bv8;
  }

  /** The count of a stored node: the four bytes are those that the model writes. */
  lemma CountIsStored(w: bv32) returns (a: bv8, b: bv8, c: bv8, d: bv8)
    ensures a as bv32 == (w >> 24) & 0xFF && b as bv32 == (w >> 16) & 0xFF && c as bv32 == (w >> 8) & 0xFF && d as bv32 == w & 0xFF
    ensures FileMapStore.Be32(w as nat) == [a as char, b as char, c as char, d as char]
  {
    a, b, c, d := FourBytesOf(w);
    ShiftedSum(w, a, b, c, d);
    Digits(w as nat, a as nat, b as nat, c as nat, d as nat);
  }

  lemma Digits(n: nat, a: nat, b: nat, c: nat, d: nat)
    requires a < 256 && b < 256 && c < 256 && d < 256 && n == 0x100_0000 * a + 0x1_0000 * b + 0x100 * c + d
    ensures FileMapStore.Be32(n) == [a as char, b as char, c as char, d as char]
  {
    assert n / 256 == 0x1_0000 * a + 0x100 * b + c && n / 256 / 256 == 0x100 * a + b;
  }

  /** A count that is read: the word is the number that the model reads. */
  lemma CountIsLoaded(a: bv8, b: bv8, c: bv8, d: bv8)
    ensures FileMapStore.FromBe32([a as char, b as char, c as char, d as char]) == Four(a, b, c, d)
  {
    FourIsSum(a, b, c, d);
  }

  /** A word of a message block. */
  lemma WordIsLoaded(a: bv8, b: bv8, c: bv8, d: bv8)
    ensures Sha256.Word([a as nat, b as nat, c as nat, d as nat]) == Four(a, b, c, d)
  {
    FourIsSum(a, b, c, d);
    BytesAsNumber(a as nat, b as nat, c as nat, d as nat);
  }

  lemma BytesAsNumber(a: nat, b: nat, c: nat, d: nat)
    requires a < 256 && b < 256 && c < 256 && d < 256
    ensures BlockHash.FromBigEndian([a, b, c, d]) == 0x100_0000 * a + 0x1_0000 * b + 0x100 * c + d
  {
    BlockHash.FourMore([], [a, b, c, d]);
    assert [] + [a, b, c, d] == [a, b, c, d];
  }

  /** REVERSE32. */
  function Swapped(w: bv32): bv32 {
    var tmp := (w >> 16) | (w << 16);
    ((tmp & 0xff00ff00) >> 8) | ((tmp & 0x00ff00ff) << 8)
  }

  /** On a word of any four bytes it is the number of these bytes in the opposite order. */
  lemma ReverseIsReversal(w: bv32, a: bv8, b: bv8, c: bv8, d: bv8)
    requires w == (a as bv32 << 24) | (b as bv32 << 16) | (c as bv32 << 8) | (d as bv32)
    ensures Swapped(w) as nat == BlockHash.FromBigEndian(BlockHash.Reversed(BlockHash.BigEndian(4, w as nat)))
  {
    SwappedSum(w, a, b, c, d);
    ShiftedSum(w, a, b, c, d);
    BytesReversed(w as nat, a as nat, b as nat, c as nat, d as nat);
  }

  lemma SwappedSum(w: bv32, a: bv8, b: bv8, c: bv8, d: bv8)
    requires w == (a as bv32 << 24) | (b as bv32 << 16) | (c as bv32 << 8) | (d as bv32)
    ensures Swapped(w) as nat == 0x100_0000 * (d as nat) + 0x1_0000 * (c as nat) + 0x100 * (b as nat) + a as nat
  {
    SwappedBytes(w, a, b, c, d);
    ShiftedSum(Swapped(w), d, c, b, a);
  }

  lemma SwappedBytes(w: bv32, a: bv8, b: bv8, c: bv8, d: bv8)
    requires w == (a as bv32 << 24) | (b as bv32 << 16) | (c as bv32 << 8) | (d as bv32)
    ensures Swapped(w) == (d as bv32 << 24) | (c as bv32 << 16) | (b as bv32 << 8) | (a as bv32)
  {}

  lemma BytesReversed(n: nat, a: nat, b: nat, c: nat, d: nat)
    requires a < 256 && b < 256 && c < 256 && d < 256 && n == 0x100_0000 * a + 0x1_0000 * b + 0x100 * c + d
    ensures BlockHash.FromBigEndian(BlockHash.Reversed(BlockHash.BigEndian(4, n))) == 0x100_0000 * d + 0x1_0000 * c + 0x100 * b + a
  {
    BytesAsNumber(a, b, c, d);
    BlockHash.BigEndianRoundTrip([a, b, c, d]);
    assert BlockHash.Reversed([a, b, c, d]) == [d, c, b, a];
    BytesAsNumber(d, c, b, a);
  }

  /** REVERSE64, likewise. */
  function Swapped64(w: bv64): bv64 {
    var t := (w >> 32) | (w << 32);
    var u := ((t & 0xff00ff00ff00ff00) >> 8) | ((t & 0x00ff00ff00ff00ff) << 8);
    ((u & 0xffff0000ffff0000) >> 16) | ((u & 0x0000ffff0000ffff) << 16)
  }

  lemma Reverse64IsReversal(w: bv64, a: bv8, b: bv8, c: bv8, d: bv8, e: bv8, f: bv8, g: bv8, h: bv8)
    requires w == (a as bv64 << 56) | (b as bv64 << 48) | (c as bv64 << 40) | (d as bv64 << 32)
                  | (e as bv64 << 24) | (f as bv64 << 16) | (g as bv64 << 8) | (h as bv64)
    ensures Swapped64(w) as nat == BlockHash.FromBigEndian(BlockHash.Reversed(BlockHash.BigEndian(8, w as nat)))
  {
    SwappedSum64(w, a, b, c, d, e, f, g, h);
    ShiftedSum64(w, a, b, c, d, e, f, g, h);
    BytesReversed64(w as nat, Swapped64(w) as nat, a as nat, b as nat, c as nat, d as nat, e as nat, f as nat, g as nat, h as nat);
  }

  lemma SwappedSum64(w: bv64, a: bv8, b: bv8, c: bv8, d: bv8, e: bv8, f: bv8, g: bv8, h: bv8)
    requires w == (a as bv64 << 56) | (b as bv64 << 48) | (c as bv64 << 40) | (d as bv64 << 32)
                  | (e as bv64 << 24) | (f as bv64 << 16) | (g as bv64 << 8) | (h as bv64)
    ensures Swapped64(w) as nat ==
            0x1_0000_0000 * (0x100_0000 * (h as nat) + 0x1_0000 * (g as nat) + 0x100 * (f as nat) + e as nat)
            + (0x100_0000 * (d as nat) + 0x1_0000 * (c as nat) + 0x100 * (b as nat) + a as nat)
  {
    SwappedBytes64(w, a, b, c, d, e, f, g, h);
    ShiftedSum64(Swapped64(w), h, g, f, e, d, c, b, a);
  }

  lemma SwappedBytes64(w: bv64, a: bv8, b: bv8, c: bv8, d: bv8, e: bv8, f: bv8, g: bv8, h: bv8)
    requires w == (a as bv64 << 56) | (b as bv64 << 48) | (c as bv64 << 40) | (d as bv64 << 32)
                  | (e as bv64 << 24) | (f as bv64 << 16) | (g as bv64 << 8) | (h as bv64)
    ensures Swapped64(w) ==
            (h as bv64 << 56) | (g as bv64 << 48) | (f as bv64 << 40) | (e as bv64 << 32)
            | (d as bv64 << 24) | (c as bv64 << 16) | (b as bv64 << 8) | (a as bv64)
  {}

  lemma ShiftedSum64(w: bv64, a: bv8, b: bv8, c: bv8, d: bv8, e: bv8, f: bv8, g: bv8, h: bv8)
    requires w == (a as bv64 << 56) | (b as bv64 << 48) | (c as bv64 << 40) | (d as bv64 << 32)
                  | (e as bv64 << 24) | (f as bv64 << 16) | (g as bv64 << 8) | (h as bv64)
    ensures w as nat ==
            0x1_0000_0000 * (0x100_0000 * (a as nat) + 0x1_0000 * (b as nat) + 0x100 * (c as nat) + d as nat)
            + (0x100_0000 * (e as nat) + 0x1_0000 * (f as nat) + 0x100 * (g as nat) + h as nat)
  {}

  lemma BytesReversed64(n: nat, m: nat, a: nat, b: nat, c: nat, d: nat, e: nat, f: nat, g: nat, h: nat)
    requires a < 256 && b < 256 && c < 256 && d < 256 && e < 256 && f < 256 && g < 256 && h < 256
    requires n == 0x1_0000_0000 * (0x100_0000 * a + 0x1_0000 * b + 0x100 * c + d) + (0x100_0000 * e + 0x1_0000 * f + 0x100 * g + h)
    requires m == 0x1_0000_0000 * (0x100_0000 * h + 0x1_0000 * g + 0x100 * f + e) + (0x100_0000 * d + 0x1_0000 * c + 0x100 * b + a)
    ensures m == BlockHash.FromBigEndian(BlockHash.Reversed(BlockHash.BigEndian(8, n)))
  {
    EightBytes(a, b, c, d, e, f, g, h);
    BlockHash.BigEndianRoundTrip([a, b, c, d, e, f, g, h]);
    assert BlockHash.Reversed([a, b, c, d, e, f, g, h]) == [h, g, f, e, d, c, b, a];
    EightBytes(h, g, f, e, d, c, b, a);
  }

  lemma EightBytes(a: nat, b: nat, c: nat, d: nat, e: nat, f: nat, g: nat, h: nat)
    requires a < 256 && b < 256 && c < 256 && d < 256 && e < 256 && f < 256 && g < 256 && h < 256
    ensures BlockHash.FromBigEndian([a, b, c, d, e, f, g, h]) ==
            0x1_0000_0000 * (0x100_0000 * a + 0x1_0000 * b + 0x100 * c + d) + (0x100_0000 * e + 0x1_0000 * f + 0x100 * g + h)
  {
    BytesAsNumber(a, b, c, d);
    BlockHash.FourMore([a, b, c, d], [e, f, g, h]);
    assert [a, b, c, d] + [e, f, g, h] == [a, b, c, d, e, f, g, h];
  }

  // ---------------------------------------------------------------- bytes as numbers

  lemma Quotients(a: bv8)
    ensures (a / 2) as nat == a as nat / 2
    ensures (a / 4) as nat == a as nat / 4
    ensures (a / 8) as nat == a as nat / 8
    ensures (a / 16) as nat == a as nat / 16
    ensures (a / 32) as nat == a as nat / 32
    ensures (a / 64) as nat == a as nat / 64
    ensures (a / 128) as nat == a as nat / 128
  {}

  lemma Remainder2(a: bv8)
    ensures (a % 2) as nat == a as nat % 2
  {}

  lemma Remainder4(a: bv8)
    ensures (a % 4) as nat == a as nat % 4
  {}

  lemma Remainder8(a: bv8)
    ensures (a % 8) as nat == a as nat % 8
  {}

  lemma Remainders(a: bv8)
    ensures (a % 16) as nat == a as nat % 16
    ensures (a % 32) as nat == a as nat % 32
  {}

  /** Two bit fields put together. */
  lemma Sums(x: bv8, y: bv8)
    ensures x < 128 && y < 2 ==> (x * 2 + y) as nat == x as nat * 2 + y as nat
    ensures x < 64 && y < 4 ==> (x * 4 + y) as nat == x as nat * 4 + y as nat
    ensures x < 32 && y < 8 ==> (x * 8 + y) as nat == x as nat * 8 + y as nat
    ensures x < 16 && y < 16 ==> (x * 16 + y) as nat == x as nat * 16 + y as nat
    ensures x < 8 && y < 32 ==> (x * 32 + y) as nat == x as nat * 32 + y as nat
    ensures x < 4 && y < 64 ==> (x * 64 + y) as nat == x as nat * 64 + y as nat
    ensures x < 2 && y < 128 ==> (x * 128 + y) as nat == x as nat * 128 + y as nat
  {}

  /** The eight expressions of the encoder. */
  function Symbol0(a: bv8): nat { (a >> 3) as nat }
  function Symbol1(a: bv8, b: bv8): nat { (0x1f & ((a << 2) | (b >> 6))) as nat }
  function Symbol2(b: bv8): nat { (0x1f & (b >> 1)) as nat }
  function Symbol3(b: bv8, c: bv8): nat { (0x1f & ((b << 4) | (c >> 4))) as nat }
  function Symbol4(c: bv8, d: bv8): nat { (0x1f & ((c << 1) | (d >> 7))) as nat }
  function Symbol5(d: bv8): nat { (0x1f & (d >> 2)) as nat }
  function Symbol6(d: bv8, e: bv8): nat { (0x1f & ((d << 3) | (e >> 5))) as nat }
  function Symbol7(e: bv8): nat { (0x1f & e) as nat }

  lemma Quintet1(a: bv8, b: bv8)
    ensures Symbol1(a, b) == a as nat % 8 * 4 + b as nat / 64
  {
    assert 0x1f & ((a << 2) | (b >> 6)) == a % 8 * 4 + b / 64 && a % 8 < 8 && b / 64 < 4;
    Remainder8(a);
    Quotients(b);
    Sums(a % 8, b / 64);
  }

  lemma Quintet3(b: bv8, c: bv8)
    ensures Symbol3(b, c) == b as nat % 2 * 16 + c as nat / 16
  {
    assert 0x1f & ((b << 4) | (c >> 4)) == b % 2 * 16 + c / 16 && b % 2 < 2 && c / 16 < 16;
    Remainder2(b);
    Quotients(c);
    Sums(b % 2, c / 16);
  }

  lemma Quintet4(c: bv8, d: bv8)
    ensures Symbol4(c, d) == c as nat % 16 * 2 + d as nat / 128
  {
    assert 0x1f & ((c << 1) | (d >> 7)) == c % 16 * 2 + d / 128 && c % 16 < 16 && d / 128 < 2;
    Remainders(c);
    Quotients(d);
    Sums(c % 16, d / 128);
  }

  lemma Quintet6(d: bv8, e: bv8)
    ensures Symbol6(d, e) == d as nat % 4 * 8 + e as nat / 32
  {
    assert 0x1f & ((d << 3) | (e >> 5)) == d % 4 * 8 + e / 32 && d % 4 < 4 && e / 32 < 8;
    Remainder4(d);
    Quotients(e);
    Sums(d % 4, e / 32);
  }

  lemma Quintet2(b: bv8)
    ensures Symbol2(b) == b as nat / 2 % 32
  {
    assert 0x1f & (b >> 1) == b / 2 % 32;
    Quotients(b);
    Remainders(b / 2);
  }

  lemma Quintet5(d: bv8)
    ensures Symbol5(d) == d as nat / 4 % 32
  {
    assert 0x1f & (d >> 2) == d / 4 % 32;
    Quotients(d);
    Remainders(d / 4);
  }

  lemma Quintet0And7(a: bv8, e: bv8)
    ensures Symbol0(a) == a as nat / 8 && Symbol7(e) == e as nat % 32
  {
    assert a >> 3 == a / 8 && 0x1f & e == e % 32;
    Quotients(a);
    Remainders(e);
  }

  /** The eight expressions of the encoder, on any five bytes, are the quintets of the model. */
  lemma EncoderIsQuintets(a: bv8, b: bv8, c: bv8, d: bv8, e: bv8)
    ensures Base32.Quintets([a as nat, b as nat, c as nat, d as nat, e as nat]) ==
            [Symbol0(a), Symbol1(a, b), Symbol2(b), Symbol3(b, c), Symbol4(c, d), Symbol5(d), Symbol6(d, e), Symbol7(e)]
  {
    Quintet0And7(a, e);
    Quintet1(a, b);
    Quintet2(b);
    Quintet3(b, c);
    Quintet4(c, d);
    Quintet5(d);
    Quintet6(d, e);
    FiveBits(a as nat, b as nat, c as nat, d as nat, e as nat,
             Symbol0(a), Symbol1(a, b), Symbol2(b), Symbol3(b, c), Symbol4(c, d), Symbol5(d), Symbol6(d, e), Symbol7(e));
  }

  lemma FiveBits(a: nat, b: nat, c: nat, d: nat, e: nat,
                 q0: nat, q1: nat, q2: nat, q3: nat, q4: nat, q5: nat, q6: nat, q7: nat)
    requires a < 256 && b < 256 && c < 256 && d < 256 && e < 256
    requires q0 == a / 8 && q1 == a % 8 * 4 + b / 64 && q2 == b / 2 % 32 && q3 == b % 2 * 16 + c / 16
    requires q4 == c % 16 * 2 + d / 128 && q5 == d / 4 % 32 && q6 == d % 4 * 8 + e / 32 && q7 == e % 32
    ensures Base32.Quintets([a, b, c, d, e]) == [q0, q1, q2, q3, q4, q5, q6, q7]
  {}

  lemma Octet0(s: bv8, t: bv8)
    requires s < 32 && t < 32
    ensures ((s << 3) | (t >> 2)) as nat == s as nat * 8 + t as nat / 4
  {
    assert (s << 3) | (t >> 2) == s * 8 + t / 4 && t / 4 < 8;
    Quotients(t);
    Sums(s, t / 4);
  }

  lemma Octet1(t: bv8, u: bv8, v: bv8)
    requires t < 32 && u < 32 && v < 32
    ensures ((t << 6) | (u << 1) | (v >> 4)) as nat == t as nat % 4 * 64 + (u as nat * 2 + v as nat / 16)
  {
    assert (t << 6) | (u << 1) | (v >> 4) == t % 4 * 64 + (u * 2 + v / 16);
    assert t % 4 < 4 && u * 2 + v / 16 < 64 && v / 16 < 2;
    Remainder4(t);
    Quotients(v);
    Sums(u, v / 16);
    Sums(t % 4, u * 2 + v / 16);
  }

  lemma Octet2(v: bv8, w: bv8)
    requires v < 32 && w < 32
    ensures ((v << 4) | (w >> 1)) as nat == v as nat % 16 * 16 + w as nat / 2
  {
    assert (v << 4) | (w >> 1) == v % 16 * 16 + w / 2 && v % 16 < 16 && w / 2 < 16;
    Remainders(v);
    Quotients(w);
    Sums(v % 16, w / 2);
  }

  lemma Octet3(w: bv8, x: bv8, y: bv8)
    requires w < 32 && x < 32 && y < 32
    ensures ((w << 7) | (x << 2) | (y >> 3)) as nat == w as nat % 2 * 128 + (x as nat * 4 + y as nat / 8)
  {
    Octet3Bits(w, x, y);
    Remainder2(w);
    Quotients(y);
    Sums(x, y / 8);
    Sums(w % 2, x * 4 + y / 8);
  }

  lemma Octet3Bits(w: bv8, x: bv8, y: bv8)
    requires w < 32 && x < 32 && y < 32
    ensures (w << 7) | (x << 2) | (y >> 3) == w % 2 * 128 + (x * 4 + y / 8)
    ensures w % 2 < 2 && x * 4 + y / 8 < 128 && y / 8 < 4
  {}

  lemma Octet4(y: bv8, z: bv8)
    requires y < 32 && z < 32
    ensures ((y << 5) | z) as nat == y as nat % 8 * 32 + z as nat
  {
    assert (y << 5) | z == y % 8 * 32 + z && y % 8 < 8;
    Remainder8(y);
    Sums(y % 8, z);
  }

  /** The five expressions of the decoder, as a byte holds them, are the bytes of the model. */
  lemma DecoderIsOctets(s: bv8, t: bv8, u: bv8, v: bv8, w: bv8, x: bv8, y: bv8, z: bv8)
    requires s < 32 && t < 32 && u < 32 && v < 32 && w < 32 && x < 32 && y < 32 && z < 32
    ensures Base32.Octets([s as nat, t as nat, u as nat, v as nat, w as nat, x as nat, y as nat, z as nat]) ==
            [((s << 3) | (t >> 2)) as nat, ((t << 6) | (u << 1) | (v >> 4)) as nat, ((v << 4) | (w >> 1)) as nat,
             ((w << 7) | (x << 2) | (y >> 3)) as nat, ((y << 5) | z) as nat]
  {
    Octet0(s, t);
    Octet1(t, u, v);
    Octet2(v, w);
    Octet3(w, x, y);
    Octet4(y, z);
    Fields(s as nat, t as nat, u as nat, v as nat, w as nat, x as nat, y as nat, z as nat,
           ((s << 3) | (t >> 2)) as nat, ((t << 6) | (u << 1) | (v >> 4)) as nat, ((v << 4) | (w >> 1)) as nat,
           ((w << 7) | (x << 2) | (y >> 3)) as nat, ((y << 5) | z) as nat);
  }

  lemma Fields(s: nat, t: nat, u: nat, v: nat, w: nat, x: nat, y: nat, z: nat, b0: nat, b1: nat, b2: nat, b3: nat, b4: nat)
    requires s < 32 && t < 32 && u < 32 && v < 32 && w < 32 && x < 32 && y < 32 && z < 32
    requires b0 == s * 8 + t / 4 && b1 == t % 4 * 64 + (u * 2 + v / 16) && b2 == v % 16 * 16 + w / 2
    requires b3 == w % 2 * 128 + (x * 4 + y / 8) && b4 == y % 8 * 32 + z
    ensures Base32.Octets([s, t, u, v, w, x, y, z]) == [b0, b1, b2, b3, b4]
  {}
}
