/** RIPEMD-160 streaming as rmd160.c does it: blocks, count and padding, for any block function. */
module Rmd160 {

  import opened Numbers
  import opened BlockHash

  /** The five words of the state. */
  type hash = h: seq<word> | |h| == 5 witness [0, 0, 0, 0, 0]

  const TWO29: nat := 0x2000_0000

  /** The marker byte and zeros. */
  const PADDING: seq<byte> := [0x80] + Zeros(63)

  function LittleEndian(k: nat, n: nat): (s: seq<byte>)
    ensures |s| == k
  {
    Reversed(BigEndian(k, n))
  }

  function Bytes(words: seq<word>): seq<byte> {
    if words == [] then [] else Bytes(words[..|words| - 1]) + LittleEndian(4, words[|words| - 1])
  }

  /** Four bytes, the first one counting least. */
  function LowSum4(s: seq<byte>, i: nat): nat
    requires i + 4 <= |s|
  {
    var a: nat, b: nat, c: nat, d: nat := s[i], s[i + 1], s[i + 2], s[i + 3];
    a + 0x100 * b + 0x1_0000 * c + 0x100_0000 * d
  }

  /** The bytes of a list of words: each word's lowest byte comes first. */
  lemma {:induction false} BytesAre(words: seq<word>, i: nat)
    requires i < |words|
    ensures |Bytes(words)| == 4 * |words| && words[i] == LowSum4(Bytes(words), 4 * i)
  {
    var n := |words| - 1;
    BytesLength(words[..n]);
    if i == n {
      BytesOf4(words[n]);
    } else {
      BytesAre(words[..n], i);
    }
  }

  lemma {:induction false} BytesLength(words: seq<word>)
    ensures |Bytes(words)| == 4 * |words|
  {
    if words != [] {
      BytesLength(words[..|words| - 1]);
    }
  }

  /** The length field: its lowest byte comes first. */
  lemma LengthIs(n: nat)
    requires n < TWO64
    ensures LowSum4(LittleEndian(8, n), 0) + TWO32 * LowSum4(LittleEndian(8, n), 4) == n
  {
    BytesOf8(n);
  }

  /** The hash of a message in one shot, with a given length field. */
  function HashWith(f: (hash, block) -> hash, iv: hash, message: seq<byte>, length: seq<byte>): seq<byte>
    requires |length| == 8
  {
    Bytes(Fold(f, iv, Padded(message, length)))
  }

  /** The hash of the algorithm: the length field has the bits of the message, modulo 2^64. */
  function Hash(f: (hash, block) -> hash, iv: hash, message: seq<byte>): seq<byte> {
    HashWith(f, iv, message, LittleEndian(8, 8 * |message| % TWO64))
  }

  // ---------------------------------------------------------------- the count

  /** The count after n bytes: pieces of 2^29 bytes and more lose bits in 8 * len. */
  function CountOf(n: nat, lost: nat): nat
    requires TWO29 * lost <= n
  {
    8 * (n - TWO29 * lost) % TWO64
  }

  lemma CountSteps(n: nat, lost: nat, len: nat)
    requires TWO29 * lost <= n
    ensures TWO29 * (lost + len / TWO29) <= n + len
    ensures (CountOf(n, lost) + 8 * len % TWO32) % TWO64 == CountOf(n + len, lost + len / TWO29)
  {
    var q := len / TWO29;
    assert 8 * len % TWO32 == 8 * (len - TWO29 * q);
    CountAdds(n - TWO29 * lost, len - TWO29 * q);
  }

  lemma UsedOf(n: nat, lost: nat)
    requires TWO29 * lost <= n
    ensures CountOf(n, lost) / 8 % BLOCK == n % BLOCK
  {
    CountGivesUsed(n - TWO29 * lost);
    Multiple(n - TWO29 * lost, 0x80_0000 * lost);
  }

  /** The count is the length in bits exactly when the lost pieces of 2^32 bits add up to a multiple of
      2^64 bits; while every piece stays below 2^29 bytes none is lost. */
  lemma CountExactly(n: nat, lost: nat)
    requires TWO29 * lost <= n
    ensures CountOf(n, lost) == 8 * n % TWO64 <==> lost % TWO32 == 0
  {
    var x := 8 * n - TWO32 * lost;
    assert 8 * (n - TWO29 * lost) == x;
    if lost % TWO32 == 0 {
      var k := lost / TWO32;
      assert 8 * n == x + TWO64 * k;
      Shifted(x, k);
    }
    if CountOf(n, lost) == 8 * n % TWO64 {
      var k := 8 * n / TWO64 - x / TWO64;
      assert TWO32 * lost == TWO64 * k;
      assert lost == TWO32 * k;
    }
  }

  lemma Shifted(x: int, k: int)
    ensures (x + TWO64 * k) % TWO64 == x % TWO64
  {}

  // ---------------------------------------------------------------- the lengths on which the loop ends

  /** The cursor of the block loop after i turns, had bytes waiting in the buffer: it wraps at 2^32. */
  function Cursor(have: nat, i: nat): nat
    requires have < BLOCK
  {
    ((if have == 0 then 0 else BLOCK - have) + BLOCK * i) % TWO32
  }

  /** off + 64 <= len, where the sum is taken in 32 bits. */
  predicate Goes(have: nat, len: nat, i: nat)
    requires have < BLOCK
  {
    (Cursor(have, i) + BLOCK) % TWO32 <= len
  }

  /** The update returns: it does not get to the loop, or the guard fails at some turn. */
  ghost predicate Ends(have: nat, len: nat)
    requires have < BLOCK
  {
    len < BLOCK - have || exists i :: !Goes(have, len, i)
  }

  function Bound(have: nat): nat
    requires have < BLOCK
  {
    TWO32 - if have == 0 then BLOCK else have
  }

  /** The block loop ends exactly on lengths below this bound, which depends on the bytes that wait. */
  lemma EndsExactly(have: nat, len: nat)
    requires have < BLOCK && len < TWO32
    ensures Ends(have, len) <==> len < Bound(have)
  {
    var off := if have == 0 then 0 else BLOCK - have;
    if len < Bound(have) && len >= off {
      var g := (len - off) / BLOCK;
      NoWrap(off, g, len);
      assert !Goes(have, len, g);
    }
    if len >= Bound(have) {
      forall i ensures Goes(have, len, i) {
        Wraps(off, i);
      }
    }
  }

  /** Below the bound the cursor is where it would be without 32 bits. */
  lemma NoWrap(off: nat, g: nat, len: nat)
    requires off < BLOCK && off + BLOCK * g <= len < TWO32 - BLOCK + off
    ensures off + BLOCK * g + BLOCK < TWO32
  {
    assert BLOCK * (g + 1) < 0x400_0000 * BLOCK;
  }

  /** The next cursor in 32 bits is at most the largest number below 2^32 of its kind. */
  lemma Wraps(off: nat, i: nat)
    requires off < BLOCK
    ensures ((off + BLOCK * i) % TWO32 + BLOCK) % TWO32 <= TWO32 - BLOCK + off
  {
    var q := (off + BLOCK * i) / TWO32;
    var c := off + BLOCK * i - TWO32 * q;
    assert c == off + BLOCK * (i - 0x400_0000 * q);
  }

  /** With nothing waiting, an update with 2^32 - 64 bytes never returns; with one byte waiting it does. */
  lemma NeverEnds(i: nat)
    ensures Goes(0, TWO32 - BLOCK, i) && !Ends(0, TWO32 - BLOCK) && Ends(1, TWO32 - BLOCK)
  {
    EndsExactly(0, TWO32 - BLOCK);
    EndsExactly(1, TWO32 - BLOCK);
  }

  // ---------------------------------------------------------------- what a context knows

  predicate Tracks(f: (hash, block) -> hash, iv: hash, message: seq<byte>, h: hash, tail: seq<byte>) {
    h == Fold(f, iv, message) && tail == Tail(message)
  }

  lemma CountOfNothing()
    ensures CountOf(0, 0) == 0
  {}

  lemma TracksNothing(f: (hash, block) -> hash, iv: hash, tail: seq<byte>, message: seq<byte>)
    requires |message| == 0 && |tail| == 0
    ensures Tracks(f, iv, message, iv, tail)
  {}

  lemma TracksWaiting(f: (hash, block) -> hash, iv: hash, message: seq<byte>, h: hash, tail: seq<byte>, more: seq<byte>)
    requires Tracks(f, iv, message, h, tail) && |tail| + |more| < BLOCK
    ensures Tracks(f, iv, message + more, h, tail + more) && |message + more| % BLOCK == |tail| + |more|
  {
    Waits(f, iv, message, more);
  }

  lemma TracksBlock(f: (hash, block) -> hash, iv: hash, message: seq<byte>, h: hash, tail: seq<byte>, more: seq<byte>)
    requires Tracks(f, iv, message, h, tail) && |tail| + |more| == BLOCK
    ensures Tracks(f, iv, message + more, f(h, tail + more), []) && |message + more| % BLOCK == 0
  {
    Completes(f, iv, message, more);
  }

  lemma TracksWhole(f: (hash, block) -> hash, iv: hash, message: seq<byte>, h: hash, tail: seq<byte>, b: block)
    requires Tracks(f, iv, message, h, tail) && |tail| == 0
    ensures Tracks(f, iv, message + b, f(h, b), []) && |message + b| % BLOCK == 0
  {
    TracksBlock(f, iv, message, h, tail, b);
    assert tail + b == b;
  }

  class Context {
    const f: (hash, block) -> hash
    const iv: hash
    const buffer: array<byte>
    var state: hash
    var count: nat

    /** What was hashed so far, and how many times 2^32 bits were lost on the way. */
    ghost var message: seq<byte>
    ghost var lost: nat

    /** The blocks and the incomplete block. */
    ghost predicate Blocks()
      reads this, buffer
    {
      buffer.Length == 64 && Tracks(f, iv, message, state, buffer[..|message| % BLOCK])
    }

    ghost predicate Valid()
      reads this, buffer
    {
      Blocks() && TWO29 * lost <= |message| && count == CountOf(|message|, lost)
    }

    constructor (f: (hash, block) -> hash, iv: hash)
      ensures this.f == f && this.iv == iv && fresh(buffer) && buffer.Length == 64
    {
      this.f := f;
      this.iv := iv;
      buffer := new byte[64];
      state := iv;
      count := 0;
      message := [];
      lost := 0;
    }

    /** RMD160Init. */
    method Init()
      requires buffer.Length == 64
      modifies `state, `count, `message, `lost
      ensures Valid() && message == [] && lost == 0
    {
      count, lost := 0, 0;
      Restart();
      CountOfNothing();
    }

    method Restart()
      requires buffer.Length == 64
      modifies `state, `message
      ensures Blocks() && |message| == 0
    {
      state, message := iv, message[..0];
      TracksNothing(f, iv, buffer[..0], message);
    }

    /** memcpy into the buffer. */
    method Fill(have: nat, input: array<byte>, off: nat, n: nat)
      requires buffer.Length == 64 && have + n <= 64 && off + n <= input.Length && input != buffer
      modifies buffer
      ensures buffer[..have + n] == old(buffer[..have]) + input[off..off + n]
    {
      forall i | 0 <= i < n {
        buffer[have + i] := input[off + i];
      }
    }

    /** RMD160Transform, which only reads the block. */
    method Transform(data: array<byte>, off: nat)
      requires off + 64 <= data.Length
      modifies `state
      ensures state == f(old(state), data[off..off + 64])
    {
      state := f(state, data[off..off + 64]);
    }

    /** Fills the buffer and empties it. */
    method Complete(have: nat, input: array<byte>, need: nat)
      requires Blocks() && have == |message| % BLOCK && have + need == BLOCK && need <= input.Length && input != buffer
      modifies `message, `state, buffer
      ensures Blocks() && |message| % BLOCK == 0 && message == old(message) + input[..need]
    {
      ghost var b, m := buffer[..have] + input[..need], message + input[..need];
      TracksBlock(f, iv, message, state, buffer[..have], input[..need]);
      Fill(have, input, 0, need);
      assert buffer[0..64] == b;
      Transform(buffer, 0);
      message := m;
      assert buffer[..0] == [];
    }

    method OneBlock(input: array<byte>, off: nat, ghost m: seq<byte>)
      requires Blocks() && |message| % BLOCK == 0 && off + BLOCK <= input.Length
      requires m == message + input[off..off + BLOCK]
      modifies `message, `state
      ensures Blocks() && |message| % BLOCK == 0 && message == m
    {
      TracksWhole(f, iv, message, state, buffer[..|message| % BLOCK], input[off..off + BLOCK]);
      Transform(input, off);
      message := m;
      assert buffer[..0] == [];
    }

    /** The loop over whole blocks, with its cursor and its guard in 32 bits. */
    method WholeBlocks(input: array<byte>, off: nat, len: nat) returns (end: nat)
      requires Blocks() && |message| % BLOCK == 0 && off < BLOCK && off <= len <= input.Length && len < TWO32 - BLOCK + off
      modifies `message, `state
      ensures Blocks() && |message| % BLOCK == 0 && off <= end <= len < end + BLOCK
      ensures message == old(message) + input[off..end]
    {
      end := off;
      ghost var g := 0;
      while (end + BLOCK) % TWO32 <= len
        invariant Blocks() && |message| % BLOCK == 0 && off <= end == off + BLOCK * g <= len
        invariant message == old(message) + input[off..end]
      {
        NoWrap(off, g, len);
        ghost var m := old(message) + input[off..end + BLOCK];
        Between(old(message), input[..], off, end, end + BLOCK);
        OneBlock(input, end, m);
        end := (end + BLOCK) % TWO32;
        g := g + 1;
      }
      NoWrap(off, g, len);
    }

    /** The last memcpy. */
    method Keep(have: nat, input: array<byte>, off: nat, n: nat)
      requires Blocks() && have == |message| % BLOCK && have + n < BLOCK && off + n <= input.Length && input != buffer
      modifies `message, buffer
      ensures Blocks() && message == old(message) + input[off..off + n]
    {
      ghost var m := message + input[off..off + n];
      TracksWaiting(f, iv, message, state, buffer[..have], input[off..off + n]);
      Fill(have, input, off, n);
      message := m;
    }

    /** RMD160Update behind the count, for the lengths on which its loop ends. */
    method Absorb(have: nat, input: array<byte>, len: nat)
      requires Blocks() && have == |message| % BLOCK && len <= input.Length && len < Bound(have) && input != buffer
      modifies `message, `state, buffer
      ensures Blocks() && message == old(message) + input[..len]
    {
      var need := BLOCK - have;
      if len >= need {
        var off := 0;
        if have > 0 {
          Complete(have, input, need);
          off := need;
        }
        ghost var m := message;
        var end := WholeBlocks(input, off, len);
        Between(m, input[..], off, end, len);
        if end < len {
          Keep(0, input, end, len - end);
        }
        Between(old(message), input[..], 0, off, len);
      } else {
        Keep(have, input, 0, len);
      }
    }

    /** RMD160Update. */
    method Update(input: array<byte>, len: nat)
      requires Valid() && len <= input.Length && len < Bound(|message| % BLOCK) && input != buffer
      modifies `message, `state, `count, `lost, buffer
      ensures Valid() && message == old(message) + input[..len] && lost == old(lost) + len / TWO29
    {
      UsedOf(|message|, lost);
      CountSteps(|message|, lost, len);
      var have := count / 8 % BLOCK;
      count := (count + 8 * len % TWO32) % TWO64;
      Absorb(have, input, len);
      lost := lost + len / TWO29;
    }

    /** RMD160Final: the padding and the size go through RMD160Update, and leave no incomplete block.
        The digest is that of the message as far as the count tells its length; the context is wiped. */
    method Final(digest: array?<byte>)
      requires Valid() && digest != buffer && (digest != null ==> digest.Length == 20)
      modifies `message, `state, `count, `lost, buffer, digest
      ensures digest != null ==>
                digest[..] == HashWith(f, iv, old(message), LittleEndian(8, CountOf(|old(message)|, old(lost))))
      ensures state == [0, 0, 0, 0, 0] && count == 0 && forall i :: 0 <= i < buffer.Length ==> buffer[i] == 0
    {
      Finish();
      if digest != null {
        WriteDigest(digest);
      }
      state := [0, 0, 0, 0, 0];
      count := 0;
      forall i | 0 <= i < buffer.Length {
        buffer[i] := 0;
      }
    }

    /** The two last updates. */
    method Finish()
      requires Valid()
      modifies `message, `state, `count, `lost, buffer
      ensures Valid() && |message| % BLOCK == 0
      ensures message == Padded(old(message), LittleEndian(8, CountOf(|old(message)|, old(lost))))
    {
      ghost var m, length := message, LittleEndian(8, count);
      UsedOf(|message|, lost);
      var size := Put(LittleEndian(8, count));
      var padlen := BLOCK - count / 8 % BLOCK;
      if padlen < 1 + 8 {
        padlen := padlen + BLOCK;
      }
      var padding := Put(PADDING);
      Update(padding, padlen - 8);
      Update(size, 8);
      PaddingIs(m, length, padding[..padlen - 8], size[..8]);
    }

    /** The five words of the state, lowest byte first. */
    method WriteDigest(digest: array<byte>)
      requires digest.Length == 20
      modifies digest
      ensures digest[..] == Bytes(state)
    {
      var i := 0;
      while i < 5
        invariant i <= 5 && digest[..4 * i] == Bytes(state[..i])
      {
        var s := LittleEndian(4, state[i]);
        ghost var before := digest[..4 * i];
        digest[4 * i], digest[4 * i + 1], digest[4 * i + 2], digest[4 * i + 3] := s[0], s[1], s[2], s[3];
        assert digest[..4 * (i + 1)] == before + s;
        assert state[..i + 1][..i] == state[..i];
        i := i + 1;
      }
      assert state[..5] == state && digest[..20] == digest[..];
    }
  }

  /** Bytes in memory of their own. */
  method Put(s: seq<byte>) returns (a: array<byte>)
    ensures fresh(a) && a[..] == s
  {
    a := new byte[|s|](i requires 0 <= i < |s| => s[i]);
  }

  lemma PaddingIs(m: seq<byte>, length: seq<byte>, padding: seq<byte>, size: seq<byte>)
    requires |length| == 8 && size == length
    requires padding == [0x80] + Zeros(PadLength(|m|))
    ensures m + padding + size == Padded(m, length)
  {
    assert m + padding + size == m + ([0x80] + Zeros(PadLength(|m|)) + length);
  }

  // ---------------------------------------------------------------- the checksum of a file

  /** The pieces that are too long for 8 * len in 32 bits, by multiples of 2^29 bytes. */
  function Lost(pieces: seq<seq<byte>>): (n: nat)
    ensures (forall p :: p in pieces ==> |p| < TWO29) ==> n == 0
  {
    if pieces == [] then 0 else Lost(pieces[..|pieces| - 1]) + |pieces[|pieces| - 1]| / TWO29
  }

  /** RMD160File on what its reads return. */
  method FileDigest(f: (hash, block) -> hash, iv: hash, pieces: seq<seq<byte>>) returns (digest: array<byte>)
    requires forall i :: 0 <= i < |pieces| ==> |pieces[i]| < Bound(|Joined(pieces[..i])| % BLOCK)
    ensures TWO29 * Lost(pieces) <= |Joined(pieces)|
    ensures fresh(digest)
            && digest[..] == HashWith(f, iv, Joined(pieces), LittleEndian(8, CountOf(|Joined(pieces)|, Lost(pieces))))
    ensures Lost(pieces) % TWO32 == 0 ==> digest[..] == Hash(f, iv, Joined(pieces))
  {
    var ctx := new Context(f, iv);
    ctx.Init();
    var i := 0;
    while i < |pieces|
      invariant i <= |pieces| && ctx.Valid() && fresh(ctx) && fresh(ctx.buffer)
      invariant ctx.message == Joined(pieces[..i]) && ctx.lost == Lost(pieces[..i])
    {
      var buffer := Put(pieces[i]);
      ctx.Update(buffer, |pieces[i]|);
      OneMore(pieces, i);
      i := i + 1;
    }
    assert pieces[..i] == pieces;
    digest := new byte[20](i => 0);
    ctx.Final(digest);
    CountExactly(|Joined(pieces)|, Lost(pieces));
  }

  lemma OneMore(pieces: seq<seq<byte>>, i: nat)
    requires i < |pieces|
    ensures Joined(pieces[..i + 1]) == Joined(pieces[..i]) + pieces[i]
    ensures Lost(pieces[..i + 1]) == Lost(pieces[..i]) + |pieces[i]| / TWO29
  {
    assert pieces[..i + 1][..i] == pieces[..i];
  }

  lemma {:induction false} LostWithin(pieces: seq<seq<byte>>)
    ensures TWO29 * Lost(pieces) <= |Joined(pieces)|
  {
    if pieces != [] {
      LostWithin(pieces[..|pieces| - 1]);
    }
  }

  /** The length field that reaches the last block is the true one exactly when the pieces lose a
      multiple of 2^64 bits; below 2^29 bytes a piece loses nothing, and the digest is the hash. */
  lemma FieldIsTrueExactly(pieces: seq<seq<byte>>)
    ensures TWO29 * Lost(pieces) <= |Joined(pieces)|
    ensures var n := |Joined(pieces)|;
            LittleEndian(8, CountOf(n, Lost(pieces))) == LittleEndian(8, 8 * n % TWO64) <==> Lost(pieces) % TWO32 == 0
  {
    LostWithin(pieces);
    CountExactly(|Joined(pieces)|, Lost(pieces));
    EightBytes(CountOf(|Joined(pieces)|, Lost(pieces)), 8 * |Joined(pieces)| % TWO64);
  }

  lemma EightBytes(a: nat, b: nat)
    requires a < TWO64 && b < TWO64
    ensures LittleEndian(8, a) == LittleEndian(8, b) <==> a == b
  {
    assert Power(8) == TWO64;
    FieldInjective(8, a, b);
  }

  lemma FieldInjective(k: nat, a: nat, b: nat)
    requires a < Power(k) && b < Power(k)
    ensures LittleEndian(k, a) == LittleEndian(k, b) <==> a == b
  {
    if LittleEndian(k, a) == LittleEndian(k, b) {
      ReversedTwice(BigEndian(k, a));
      ReversedTwice(BigEndian(k, b));
      BigEndianInjective(k, a, b);
    }
  }

  /** A single piece of 2^29 bytes is counted as none. */
  lemma LongPieceIsLost(p: seq<byte>)
    requires |p| == TWO29
    ensures Lost([p]) == 1 && CountOf(|p|, Lost([p])) == 0 && 8 * |p| % TWO64 != 0
  {
    assert [p][..0] == [];
    CountOfNothing();
  }
}
