/** What the two streaming hashers share: bytes and numbers, and the folding of a block function over
    a message that arrives in pieces. */
module BlockHash {

  import opened Numbers

  type word = x: nat | x < 0x1_0000_0000
  type block = b: seq<byte> | |b| == 64 witness seq(64, i => 0)

  const BLOCK: nat := 64
  const TWO32: nat := 0x1_0000_0000
  const TWO64: nat := 0x1_0000_0000_0000_0000

  // ---------------------------------------------------------------- numbers in bytes

  /** The k lowest bytes of a number, highest first. */
  function BigEndian(k: nat, n: nat): (s: seq<byte>)
    ensures |s| == k
  {
    if k == 0 then [] else BigEndian(k - 1, n / 256) + [n % 256]
  }

  function FromBigEndian(s: seq<byte>): nat {
    if s == [] then 0 else 256 * FromBigEndian(s[..|s| - 1]) + s[|s| - 1]
  }

  function Reversed(s: seq<byte>): (r: seq<byte>)
    ensures |r| == |s|
    ensures forall i :: 0 <= i < |s| ==> r[i] == s[|s| - 1 - i]
  {
    seq(|s|, i requires 0 <= i < |s| => s[|s| - 1 - i])
  }

  function Power(k: nat): nat { if k == 0 then 1 else 256 * Power(k - 1) }

  lemma {:induction false} BigEndianRoundTrip(s: seq<byte>)
    ensures FromBigEndian(s) < Power(|s|) && BigEndian(|s|, FromBigEndian(s)) == s
  {
    if s != [] {
      var front, last := s[..|s| - 1], s[|s| - 1];
      BigEndianRoundTrip(front);
      Digit(FromBigEndian(front), last);
      assert s == front + [last];
    }
  }

  lemma {:induction false} FromBigEndianRoundTrip(k: nat, n: nat)
    requires n < Power(k)
    ensures FromBigEndian(BigEndian(k, n)) == n
  {
    if k > 0 {
      FromBigEndianRoundTrip(k - 1, n / 256);
      assert BigEndian(k, n)[..k - 1] == BigEndian(k - 1, n / 256);
    }
  }

  lemma Digit(q: nat, r: byte)
    ensures (256 * q + r) / 256 == q && (256 * q + r) % 256 == r
  {}

  /** The number that four bytes make, the first one counting most. */
  function Sum4(s: seq<byte>, i: nat): nat
    requires i + 4 <= |s|
  {
    var a: nat, b: nat, c: nat, d: nat := s[i], s[i + 1], s[i + 2], s[i + 3];
    0x100_0000 * a + 0x1_0000 * b + 0x100 * c + d
  }

  lemma FourMore(a: seq<byte>, s: seq<byte>)
    requires |s| == 4
    ensures FromBigEndian(a + s) == TWO32 * FromBigEndian(a) + Sum4(s, 0)
  {
    var b, c, d, e := s[0], s[1], s[2], s[3];
    OneMoreByte(a, b);
    OneMoreByte(a + [b], c);
    OneMoreByte(a + [b] + [c], d);
    OneMoreByte(a + [b] + [c] + [d], e);
    assert a + [b] + [c] + [d] + [e] == a + s;
  }

  lemma OneMoreByte(a: seq<byte>, b: byte)
    ensures FromBigEndian(a + [b]) == 256 * FromBigEndian(a) + b as nat
  {
    assert (a + [b])[..|a|] == a;
  }

  lemma BytesOf4(n: nat)
    requires n < TWO32
    ensures Sum4(BigEndian(4, n), 0) == n
  {
    assert Power(4) == TWO32;
    FromBigEndianRoundTrip(4, n);
    BigEndianRoundTrip(BigEndian(4, n));
    FourMore([], BigEndian(4, n));
    assert [] + BigEndian(4, n) == BigEndian(4, n);
  }

  lemma BytesOf8(n: nat)
    requires n < TWO64
    ensures TWO32 * Sum4(BigEndian(8, n), 0) + Sum4(BigEndian(8, n), 4) == n
  {
    var s := BigEndian(8, n);
    Power8();
    FromBigEndianRoundTrip(8, n);
    assert s == s[..4] + s[4..] && s[..4] == [] + s[..4];
    FourMore(s[..4], s[4..]);
    FourMore([], s[..4]);
  }

  lemma Power8()
    ensures Power(8) == TWO64
  {
    assert Power(4) == TWO32;
  }

  lemma ReversedTwice(s: seq<byte>)
    ensures Reversed(Reversed(s)) == s
  {}

  // ---------------------------------------------------------------- folding blocks

  /** The block function over the whole blocks of a message; an incomplete last block is left out. */
  function Fold<S>(f: (S, block) -> S, s: S, message: seq<byte>): S
    decreases |message|
  {
    if |message| < BLOCK then s else Fold(f, f(s, message[..BLOCK]), message[BLOCK..])
  }

  /** The incomplete last block. */
  function Tail(message: seq<byte>): (t: seq<byte>)
    ensures |t| == |message| % BLOCK
  {
    message[|message| - |message| % BLOCK..]
  }

  /** Bytes that do not complete the last block wait in it. */
  lemma {:induction false} Waits<S>(f: (S, block) -> S, s: S, message: seq<byte>, more: seq<byte>)
    requires |Tail(message)| + |more| < BLOCK
    ensures Fold(f, s, message + more) == Fold(f, s, message) && Tail(message + more) == Tail(message) + more
    decreases |message|
  {
    if |message| >= BLOCK {
      Peel(message, more);
      Waits(f, f(s, message[..BLOCK]), message[BLOCK..], more);
    }
  }

  /** Bytes that complete the last block are folded in. */
  lemma {:induction false} Completes<S>(f: (S, block) -> S, s: S, message: seq<byte>, more: seq<byte>)
    requires |Tail(message)| + |more| == BLOCK
    ensures Fold(f, s, message + more) == f(Fold(f, s, message), Tail(message) + more) && Tail(message + more) == []
    decreases |message|
  {
    if |message| >= BLOCK {
      Peel(message, more);
      Completes(f, f(s, message[..BLOCK]), message[BLOCK..], more);
    } else {
      var all := message + more;
      assert all[..BLOCK] == all && all[BLOCK..] == [] && Tail(message) == message;
    }
  }

  lemma Peel(message: seq<byte>, more: seq<byte>)
    requires |message| >= BLOCK
    ensures (message + more)[..BLOCK] == message[..BLOCK] && (message + more)[BLOCK..] == message[BLOCK..] + more
    ensures Tail(message) == Tail(message[BLOCK..]) && Tail(message + more) == Tail(message[BLOCK..] + more)
  {
    assert (|message| - BLOCK) % BLOCK == |message| % BLOCK;
    assert (|message + more| - BLOCK) % BLOCK == |message + more| % BLOCK;
    assert (message + more)[BLOCK..] == message[BLOCK..] + more;
  }

  // ---------------------------------------------------------------- the pieces of a message

  /** The message that a sequence of pieces makes up. */
  function Joined(pieces: seq<seq<byte>>): seq<byte> {
    if pieces == [] then [] else Joined(pieces[..|pieces| - 1]) + pieces[|pieces| - 1]
  }

  /** The zeros between the marker byte and the length: they bring the message to 56 modulo 64. */
  function PadLength(n: nat): (k: nat)
    ensures k < BLOCK && (n + 1 + k + 8) % BLOCK == 0
  {
    var used := n % BLOCK;
    if used <= 55 then 55 - used else 119 - used
  }

  /** A message padded to whole blocks; length is the field of eight bytes at the end. */
  function Padded(message: seq<byte>, length: seq<byte>): (p: seq<byte>)
    requires |length| == 8
    ensures |p| % BLOCK == 0
  {
    message + ([0x80] + Zeros(PadLength(|message|)) + length)
  }

  /** The padded message: the message, a byte with only the highest bit, as few zeros as fill whole blocks, and the
      length field. */
  lemma PaddedIs(message: seq<byte>, length: seq<byte>)
    requires |length| == 8
    ensures var p, n := Padded(message, length), |message|;
            |p| % 64 == 0 && n + 9 <= |p| < n + 73 && p[..n] == message && p[n] == 0x80
            && (forall i :: n < i < |p| - 8 ==> p[i] == 0) && p[|p| - 8..] == length
  {}

  /** The padding fits behind the incomplete block ... */
  lemma PaddedInOne<S>(f: (S, block) -> S, s: S, message: seq<byte>, length: seq<byte>)
    requires |length| == 8 && |message| % BLOCK <= 55
    ensures var last := Tail(message) + [0x80] + Zeros(55 - |message| % BLOCK) + length;
            |last| == BLOCK && Fold(f, s, Padded(message, length)) == f(Fold(f, s, message), last)
  {
    var used := |message| % BLOCK;
    Completes(f, s, message, [0x80] + Zeros(55 - used) + length);
    assert Tail(message) + ([0x80] + Zeros(55 - used) + length) == Tail(message) + [0x80] + Zeros(55 - used) + length;
  }

  /** ... or takes one more block. */
  lemma PaddedInTwo<S>(f: (S, block) -> S, s: S, message: seq<byte>, length: seq<byte>)
    requires |length| == 8 && |message| % BLOCK > 55
    ensures var first := Tail(message) + [0x80] + Zeros(63 - |message| % BLOCK);
            var last := Zeros(56) + length;
            |first| == BLOCK && |last| == BLOCK
            && Fold(f, s, Padded(message, length)) == f(f(Fold(f, s, message), first), last)
  {
    var used := |message| % BLOCK;
    var first, last := [0x80] + Zeros(63 - used), Zeros(56) + length;
    Completes(f, s, message, first);
    Completes(f, s, message + first, last);
    assert Tail(message + first) + last == last;
    assert Tail(message) + first == Tail(message) + [0x80] + Zeros(63 - used);
    SplitPadding(message, length);
  }

  lemma SplitPadding(message: seq<byte>, length: seq<byte>)
    requires |length| == 8 && |message| % BLOCK > 55
    ensures Padded(message, length) == message + ([0x80] + Zeros(63 - |message| % BLOCK)) + (Zeros(56) + length)
  {
    var used := |message| % BLOCK;
    assert Zeros(119 - used) == Zeros(63 - used) + Zeros(56);
  }

  // ---------------------------------------------------------------- the bit count

  /** The count modulo 2^64 still tells how full the last block is. */
  lemma CountGivesUsed(n: nat)
    ensures 8 * n % TWO64 / 8 % BLOCK == n % BLOCK
  {
    var q := 8 * n / TWO64;
    assert 8 * n == q * TWO64 + 8 * n % TWO64;
    assert 8 * n % TWO64 / 8 == n - q * 0x2000_0000_0000_0000;
    Multiple(n - q * 0x2000_0000_0000_0000, q * 0x80_0000_0000_0000);
  }

  lemma Multiple(r: int, k: int)
    ensures (r + 64 * k) % 64 == r % 64
  {}

  lemma CountAdds(n: nat, k: nat)
    ensures (8 * n % TWO64 + 8 * k) % TWO64 == 8 * (n + k) % TWO64
  {}

  lemma BigEndianInjective(k: nat, m: nat, n: nat)
    requires m < Power(k) && n < Power(k) && BigEndian(k, m) == BigEndian(k, n)
    ensures m == n
  {
    FromBigEndianRoundTrip(k, m);
    FromBigEndianRoundTrip(k, n);
  }

  /** Two padded messages agree only if the length fields do, and then the messages, once the field tells
      their lengths apart. */
  lemma PaddedInjective(a: seq<byte>, b: seq<byte>, la: seq<byte>, lb: seq<byte>)
    requires |la| == 8 && |lb| == 8 && Padded(a, la) == Padded(b, lb)
    requires la == lb ==> |a| == |b|
    ensures la == lb && a == b
  {
    var p := Padded(a, la);
    assert la == p[|p| - 8..] && lb == p[|p| - 8..];
    assert p[..|a|] == a && Padded(b, lb)[..|b|] == b;
  }

  lemma Between(m: seq<byte>, d: seq<byte>, off: nat, end: nat, len: nat)
    requires off <= end <= len <= |d|
    ensures m + d[off..end] + d[end..len] == m + d[off..len]
  {
    assert d[off..end] + d[end..len] == d[off..len];
  }
}
