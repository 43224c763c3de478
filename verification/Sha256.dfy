/** SHA-256 as sha2.c computes it, against sections 5.1.1 and 6.2.2 of FIPS 180-4.

    The six logical functions and the round constants are gathered in a Logic value, which stays a
    parameter of the proofs; Sha256File.Standard has the ones of the program. */
module Sha256 {

  import opened Numbers
  import opened BlockHash

  datatype Logic = Logic(
    ch: (word, word, word) -> word,
    maj: (word, word, word) -> word,
    upper0: word -> word,
    upper1: word -> word,
    lower0: word -> word,
    lower1: word -> word,
    k: seq<word>)

  /** The eight working variables, and the eight words of a hash value. */
  datatype Regs = Regs(a: word, b: word, c: word, d: word, e: word, f: word, g: word, h: word)

  // ---------------------------------------------------------------- FIPS 180-4

  /** Addition modulo 2^32. */
  function Plus(x: word, y: word): word { (x + y) % 0x1_0000_0000 }

  /** A word of a message block: its highest byte comes first. */
  function Word(s: seq<byte>): word
    requires |s| == 4
  {
    BigEndianRoundTrip(s);
    assert Power(4) == 0x1_0000_0000;
    FromBigEndian(s)
  }

  /** The message schedule: 64 words (section 6.2.2, step 1). */
  function W(o: Logic, m: block, t: nat): word {
    if t < 16 then Word(m[4 * t..4 * t + 4])
    else Plus(Plus(Plus(o.lower1(W(o, m, t - 2)), W(o, m, t - 7)), o.lower0(W(o, m, t - 15))), W(o, m, t - 16))
  }

  /** One round (step 3). */
  function Round(o: Logic, r: Regs, k: word, w: word): Regs {
    var t1 := Plus(Plus(Plus(Plus(r.h, o.upper1(r.e)), o.ch(r.e, r.f, r.g)), k), w);
    var t2 := Plus(o.upper0(r.a), o.maj(r.a, r.b, r.c));
    Regs(Plus(t1, t2), r.a, r.b, r.c, Plus(r.d, t1), r.e, r.f, r.g)
  }

  /** A round for each constant. */
  function Rounds(o: Logic, h: Regs, m: block, ks: seq<word>): Regs
    decreases |ks|
  {
    if ks == [] then h
    else
      var t := |ks| - 1;
      Round(o, Rounds(o, h, m, ks[..t]), ks[t], W(o, m, t))
  }

  lemma OneRound(o: Logic, h: Regs, m: block, j: nat)
    requires j < |o.k|
    ensures Rounds(o, h, m, o.k[..j + 1]) == Round(o, Rounds(o, h, m, o.k[..j]), o.k[j], W(o, m, j))
  {
    assert o.k[..j + 1][..j] == o.k[..j];
  }

  function AddRegs(x: Regs, y: Regs): Regs {
    Regs(Plus(x.a, y.a), Plus(x.b, y.b), Plus(x.c, y.c), Plus(x.d, y.d),
         Plus(x.e, y.e), Plus(x.f, y.f), Plus(x.g, y.g), Plus(x.h, y.h))
  }

  /** The next intermediate hash value (steps 2 to 4). */
  function Compress(o: Logic, h: Regs, m: block): Regs { AddRegs(h, Rounds(o, h, m, o.k)) }

  /** The block function, for folding. */
  function Step(o: Logic): (Regs, block) -> Regs { (h: Regs, m: block) => Compress(o, h, m) }

  /** What a context knows of a message: its blocks, its length in bits modulo 2^64, its incomplete block. */
  predicate Tracks(o: Logic, iv: Regs, message: seq<byte>, h: Regs, bits: nat, tail: seq<byte>) {
    h == Fold(Step(o), iv, message) && bits == 8 * |message| % TWO64 && tail == Tail(message)
  }

  lemma TracksWaiting(o: Logic, iv: Regs, message: seq<byte>, h: Regs, bits: nat, tail: seq<byte>, more: seq<byte>)
    requires Tracks(o, iv, message, h, bits, tail) && |tail| + |more| < BLOCK
    ensures Tracks(o, iv, message + more, h, (bits + 8 * |more|) % TWO64, tail + more)
    ensures |message + more| % BLOCK == |tail| + |more|
  {
    Waits(Step(o), iv, message, more);
    CountAdds(|message|, |more|);
  }

  lemma TracksBlock(o: Logic, iv: Regs, message: seq<byte>, h: Regs, bits: nat, tail: seq<byte>, more: seq<byte>)
    requires Tracks(o, iv, message, h, bits, tail) && |tail| + |more| == BLOCK
    ensures Tracks(o, iv, message + more, Compress(o, h, tail + more), (bits + 8 * |more|) % TWO64, [])
    ensures |message + more| % BLOCK == 0
  {
    Completes(Step(o), iv, message, more);
    CountAdds(|message|, |more|);
  }

  /** What comes before the length field in the last block: the tail, the marker byte and zeros, or only zeros when
      they filled a block of their own. */
  function Front(message: seq<byte>): (s: seq<byte>)
    ensures |s| == 56
  {
    var used := |message| % BLOCK;
    if used <= 55 then Tail(message) + [0x80] + Zeros(55 - used) else Zeros(56)
  }

  /** The state before the last block. */
  function BeforeLast(o: Logic, h: Regs, message: seq<byte>): Regs {
    var used := |message| % BLOCK;
    if used <= 55 then h else Compress(o, h, Tail(message) + [0x80] + Zeros(63 - used))
  }

  lemma FrontIs(o: Logic, h: Regs, message: seq<byte>)
    ensures var used := |message| % BLOCK;
            if used <= 55 then Front(message) == Tail(message) + [0x80] + Zeros(55 - used) && BeforeLast(o, h, message) == h
            else Front(message) == Zeros(56) && BeforeLast(o, h, message) == Compress(o, h, Tail(message) + [0x80] + Zeros(63 - used))
  {}

  /** The padded message ends in one block or in two. */
  lemma LastBlocks(o: Logic, iv: Regs, message: seq<byte>)
    ensures Fold(Step(o), iv, Padded(message, LengthField(message))) ==
            Compress(o, BeforeLast(o, Fold(Step(o), iv, message), message), Front(message) + LengthField(message))
  {
    if |message| % BLOCK <= 55 {
      PaddedInOne(Step(o), iv, message, LengthField(message));
    } else {
      PaddedInTwo(Step(o), iv, message, LengthField(message));
    }
  }

  lemma TracksUsed(o: Logic, iv: Regs, message: seq<byte>, h: Regs, bits: nat, tail: seq<byte>)
    requires Tracks(o, iv, message, h, bits, tail)
    ensures bits / 8 % BLOCK == |message| % BLOCK == |tail|
  {
    CountGivesUsed(|message|);
  }

  /** The length field of section 5.1.1. */
  function LengthField(message: seq<byte>): (s: seq<byte>)
    ensures |s| == 8
  {
    BigEndian(8, 8 * |message| % TWO64)
  }

  const ZERO: Regs := Regs(0, 0, 0, 0, 0, 0, 0, 0)

  function Words(r: Regs): (s: seq<word>)
    ensures |s| == 8
  {
    [r.a, r.b, r.c, r.d, r.e, r.f, r.g, r.h]
  }

  function Bytes(words: seq<word>): seq<byte> {
    if words == [] then [] else Bytes(words[..|words| - 1]) + BigEndian(4, words[|words| - 1])
  }

  function Digest(h: Regs): seq<byte> { Bytes(Words(h)) }

  /** The hash of a message in one shot. */
  function Hash(o: Logic, iv: Regs, message: seq<byte>): seq<byte> {
    Digest(Fold(Step(o), iv, Padded(message, LengthField(message))))
  }

  // ---------------------------------------------------------------- words in memory

  /** A number of k bytes as REVERSE32 or REVERSE64 and a store leave it in memory. */
  function Converted(littleEndian: bool, k: nat, n: nat): (s: seq<byte>)
    ensures |s| == k
  {
    if littleEndian then Reversed(BigEndian(k, FromBigEndian(Reversed(BigEndian(k, n))))) else BigEndian(k, n)
  }

  lemma ConvertedIsBigEndian(littleEndian: bool, k: nat, n: nat)
    ensures Converted(littleEndian, k, n) == BigEndian(k, n)
  {
    BigEndianRoundTrip(Reversed(BigEndian(k, n)));
    ReversedTwice(BigEndian(k, n));
  }

  /** A word as the machine stores it. */
  function HostBytes(littleEndian: bool, w: word): (s: seq<byte>)
    ensures |s| == 4
  {
    if littleEndian then Reversed(BigEndian(4, w)) else BigEndian(4, w)
  }

  function HostWord(littleEndian: bool, s: seq<byte>): word
    requires |s| == 4
  {
    if littleEndian then Word(Reversed(s)) else Word(s)
  }

  lemma HostRoundTrip(littleEndian: bool, w: word)
    ensures HostWord(littleEndian, HostBytes(littleEndian, w)) == w
  {
    assert Power(4) == 0x1_0000_0000;
    FromBigEndianRoundTrip(4, w);
    ReversedTwice(BigEndian(4, w));
  }

  /** The context; buffer doubles as the sixteen words of the schedule. */
  class Context {
    const o: Logic
    const iv: Regs
    const littleEndian: bool
    const unrolled: bool
    const buffer: array<byte>
    var state: Regs
    var bitcount: nat

    /** What was hashed so far. */
    ghost var message: seq<byte>

    ghost predicate Shaped()
    {
      buffer.Length == 64 && |o.k| == 64
    }

    /** W256[i]. */
    function Slot(i: nat): word
      requires Shaped() && i < 16
      reads buffer
    {
      HostWord(littleEndian, buffer[4 * i..4 * i + 4])
    }

    /** The buffer as sixteen words. */
    ghost function Slots(): (s: seq<word>)
      requires Shaped()
      reads buffer
      ensures |s| == 16
    {
      seq(16, i requires 0 <= i < 16 && Shaped() reads buffer => Slot(i))
    }

    /** W256[i] = w. */
    method Store(i: nat, w: word)
      requires Shaped() && i < 16
      modifies buffer
      ensures Slots() == old(Slots())[i := w]
      ensures forall k :: 0 <= k < 64 && !(4 * i <= k < 4 * i + 4) ==> buffer[k] == old(buffer[k])
    {
      var s := HostBytes(littleEndian, w);
      HostRoundTrip(littleEndian, w);
      var p := 4 * i;
      buffer[p], buffer[p + 1], buffer[p + 2], buffer[p + 3] := s[0], s[1], s[2], s[3];
      assert buffer[p..p + 4] == s;
      forall k | 0 <= k < 16 && k != i ensures Slot(k) == old(Slot(k)) {
        assert buffer[4 * k..4 * k + 4] == old(buffer[4 * k..4 * k + 4]);
      }
    }

    // -------------------------------------------------------------- the schedule

    /** The first j words of the block are in place; the bytes behind them are still to be read. */
    ghost predicate Reading(data: array<byte>, off: nat, m: block, j: nat)
      requires Shaped() && j <= 16 && off + 64 <= data.Length
      reads buffer, data
    {
      data[off + 4 * j..off + 64] == m[4 * j..] && Slots()[..j] == FirstWords(o, m, j)
    }

    /** W256[j] = the next word of the data, which may be the buffer itself. */
    method ReadWord(data: array<byte>, off: nat, j: nat, ghost m: block) returns (w: word)
      requires Shaped() && j < 16 && off + 64 <= data.Length && (data == buffer ==> off == 0)
      requires Reading(data, off, m, j)
      modifies buffer
      ensures Reading(data, off, m, j + 1) && w == W(o, m, j)
    {
      var p := off + 4 * j;
      w := Word(data[p..p + 4]);
      Next4(data[p..off + 64], m, j);
      assert data[p..p + 4] == data[p..off + 64][..4];
      ghost var behind := data[p + 4..off + 64];
      assert behind == data[p..off + 64][4..];
      Store(j, w);
      assert data[p + 4..off + 64] == behind;
      assert Slots()[..j + 1] == old(Slots()[..j]) + [w];
    }

    /** Word t of the schedule is in its slot. */
    ghost predicate Has(m: block, t: nat)
      requires Shaped()
      reads buffer
    {
      Slots()[t % 16] == W(o, m, t)
    }

    /** The sixteen slots hold the last sixteen words of the schedule. */
    ghost predicate Circular(m: block, j: nat)
      requires Shaped() && 16 <= j
      reads buffer
    {
      forall t :: j - 16 <= t < j ==> Has(m, t)
    }

    lemma BlockRead(data: array<byte>, off: nat, m: block, j: nat)
      requires Shaped() && off + 64 <= data.Length && 16 <= j <= 16 && Reading(data, off, m, j)
      ensures Circular(m, j)
    {
      forall t | 0 <= t < j ensures Has(m, t) {
        WordRead(data, off, m, j, t);
      }
    }

    lemma WordRead(data: array<byte>, off: nat, m: block, j: nat, t: nat)
      requires Shaped() && off + 64 <= data.Length && t < j <= 16 && Reading(data, off, m, j)
      ensures Has(m, t)
    {
      FirstWordsAt(o, m, j, t);
      assert t % 16 == t && Slots()[t] == Slots()[..j][t];
    }

    /** W256[j & 15] += sigma1 + W256[(j + 9) & 15] + sigma0. */
    method Expand(j: nat, ghost m: block) returns (w: word)
      requires Shaped() && 16 <= j && Circular(m, j)
      modifies buffer
      ensures Circular(m, j + 1) && w == W(o, m, j)
    {
      var s0 := o.lower0(Slot((j + 1) % 16));
      var s1 := o.lower1(Slot((j + 14) % 16));
      w := Plus(Slot(j % 16), Plus(Plus(s1, Slot((j + 9) % 16)), s0));
      Neighbours(j);
      assert Has(m, j - 15) && Has(m, j - 2) && Has(m, j - 7) && Has(m, j - 16);
      NextWord(o, m, j);
      Replace(j, m, w);
    }

    /** The new word takes the slot of the oldest one. */
    method Replace(j: nat, ghost m: block, w: word)
      requires Shaped() && 16 <= j && Circular(m, j) && w == W(o, m, j)
      modifies buffer
      ensures Circular(m, j + 1)
    {
      Store(j % 16, w);
      forall t | j - 15 <= t < j ensures Has(m, t) {
        Distinct(t, j);
        assert old(Has(m, t));
      }
    }

    // -------------------------------------------------------------- the block function

    /** The registers after j rounds. */
    ghost predicate Reached(h: Regs, m: block, j: nat, r: Regs) { j <= |o.k| && r == Rounds(o, h, m, o.k[..j]) }

    /** SHA256_Transform, rolled. */
    method TransformRolled(data: array<byte>, off: nat)
      requires Shaped() && off + 64 <= data.Length && (data == buffer ==> off == 0)
      modifies `state, buffer
      ensures state == Compress(o, old(state), old(data[off..off + 64]))
    {
      ghost var m: block := data[off..off + 64];
      var r := FirstRounds(data, off, m);
      BlockRead(data, off, m, 16);
      r := LaterRounds(m, r);
      state := AddRegs(state, r);
    }

    method FirstRounds(data: array<byte>, off: nat, ghost m: block) returns (r: Regs)
      requires Shaped() && off + 64 <= data.Length && (data == buffer ==> off == 0)
      requires m == data[off..off + 64]
      modifies buffer
      ensures Reading(data, off, m, 16) && Reached(state, m, 16, r)
    {
      var a, b, c, d := state.a, state.b, state.c, state.d;
      var e, f, g, h := state.e, state.f, state.g, state.h;
      assert o.k[..0] == [];
      var j := 0;
      while j < 16
        invariant j <= 16 && Reading(data, off, m, j) && Reached(state, m, j, Regs(a, b, c, d, e, f, g, h))
      {
        ghost var before := Regs(a, b, c, d, e, f, g, h);
        OneRound(o, state, m, j);
        var w := ReadWord(data, off, j, m);
        var t1 := Plus(Plus(Plus(Plus(h, o.upper1(e)), o.ch(e, f, g)), o.k[j]), w);
        var t2 := Plus(o.upper0(a), o.maj(a, b, c));
        h := g;
        g := f;
        f := e;
        e := Plus(d, t1);
        d := c;
        c := b;
        b := a;
        a := Plus(t1, t2);
        assert Regs(a, b, c, d, e, f, g, h) == Round(o, before, o.k[j], w);
        j := j + 1;
      }
      r := Regs(a, b, c, d, e, f, g, h);
    }

    method LaterRounds(ghost m: block, r0: Regs) returns (r: Regs)
      requires Shaped() && Circular(m, 16) && Reached(state, m, 16, r0)
      modifies buffer
      ensures r == Rounds(o, state, m, o.k)
    {
      var a, b, c, d, e, f, g, h := r0.a, r0.b, r0.c, r0.d, r0.e, r0.f, r0.g, r0.h;
      var j := 16;
      while j < 64
        invariant 16 <= j <= 64 && Circular(m, j) && Reached(state, m, j, Regs(a, b, c, d, e, f, g, h))
      {
        ghost var before := Regs(a, b, c, d, e, f, g, h);
        OneRound(o, state, m, j);
        var w := Expand(j, m);
        var t1 := Plus(Plus(Plus(Plus(h, o.upper1(e)), o.ch(e, f, g)), o.k[j]), w);
        var t2 := Plus(o.upper0(a), o.maj(a, b, c));
        h := g;
        g := f;
        f := e;
        e := Plus(d, t1);
        d := c;
        c := b;
        b := a;
        a := Plus(t1, t2);
        assert Regs(a, b, c, d, e, f, g, h) == Round(o, before, o.k[j], w);
        j := j + 1;
      }
      assert o.k[..j] == o.k;
      r := Regs(a, b, c, d, e, f, g, h);
    }

    /** ROUND256_0_TO_15: the registers are renamed instead of moved. */
    method FirstRound(data: array<byte>, off: nat, j: nat, ghost m: block, ghost iv: Regs,
                      a: word, b: word, c: word, d0: word, e: word, f: word, g: word, h0: word) returns (d: word, h: word)
      requires Shaped() && off + 64 <= data.Length && (data == buffer ==> off == 0) && j < 16
      requires Reading(data, off, m, j) && Reached(iv, m, j, Regs(a, b, c, d0, e, f, g, h0))
      modifies buffer
      ensures Reading(data, off, m, j + 1) && Reached(iv, m, j + 1, Regs(h, a, b, c, d, e, f, g))
    {
      var w := ReadWord(data, off, j, m);
      OneRound(o, iv, m, j);
      d, h := Mixed(a, b, c, d0, e, f, g, h0, o.k[j], w);
    }

    /** ROUND256. */
    method LaterRound(j: nat, ghost m: block, ghost iv: Regs,
                      a: word, b: word, c: word, d0: word, e: word, f: word, g: word, h0: word) returns (d: word, h: word)
      requires Shaped() && 16 <= j < 64 && Circular(m, j) && Reached(iv, m, j, Regs(a, b, c, d0, e, f, g, h0))
      modifies buffer
      ensures Circular(m, j + 1) && Reached(iv, m, j + 1, Regs(h, a, b, c, d, e, f, g))
    {
      var w := Expand(j, m);
      OneRound(o, iv, m, j);
      d, h := Mixed(a, b, c, d0, e, f, g, h0, o.k[j], w);
    }

    method Mixed(a: word, b: word, c: word, d0: word, e: word, f: word, g: word, h0: word, k: word, w: word)
      returns (d: word, h: word)
      ensures Regs(h, a, b, c, d, e, f, g) == Round(o, Regs(a, b, c, d0, e, f, g, h0), k, w)
    {
      var t1 := Plus(Plus(Plus(Plus(h0, o.upper1(e)), o.ch(e, f, g)), k), w);
      d := Plus(d0, t1);
      h := Plus(t1, Plus(o.upper0(a), o.maj(a, b, c)));
    }

    /** SHA256_Transform, eight rounds at a time. */
    method TransformUnrolled(data: array<byte>, off: nat)
      requires Shaped() && off + 64 <= data.Length && (data == buffer ==> off == 0)
      modifies `state, buffer
      ensures state == Compress(o, old(state), old(data[off..off + 64]))
    {
      ghost var m: block := data[off..off + 64];
      var r := FirstUnrolled(data, off, m);
      BlockRead(data, off, m, 16);
      r := LaterUnrolled(m, r);
      state := AddRegs(state, r);
    }

    method FirstFour(data: array<byte>, off: nat, j: nat, ghost m: block, ghost iv: Regs,
                     a0: word, b0: word, c0: word, d0: word, e0: word, f0: word, g0: word, h0: word)
      returns (a: word, b: word, c: word, d: word, e: word, f: word, g: word, h: word)
      requires Shaped() && off + 64 <= data.Length && (data == buffer ==> off == 0) && j <= 12
      requires Reading(data, off, m, j) && Reached(iv, m, j, Regs(a0, b0, c0, d0, e0, f0, g0, h0))
      modifies buffer
      ensures Reading(data, off, m, j + 4) && Reached(iv, m, j + 4, Regs(e, f, g, h, a, b, c, d))
    {
      d, h := FirstRound(data, off, j, m, iv, a0, b0, c0, d0, e0, f0, g0, h0);
      c, g := FirstRound(data, off, j + 1, m, iv, h, a0, b0, c0, d, e0, f0, g0);
      b, f := FirstRound(data, off, j + 2, m, iv, g, h, a0, b0, c, d, e0, f0);
      a, e := FirstRound(data, off, j + 3, m, iv, f, g, h, a0, b, c, d, e0);
    }

    method FirstEight(data: array<byte>, off: nat, j: nat, ghost m: block, ghost iv: Regs,
                      a0: word, b0: word, c0: word, d0: word, e0: word, f0: word, g0: word, h0: word)
      returns (a: word, b: word, c: word, d: word, e: word, f: word, g: word, h: word)
      requires Shaped() && off + 64 <= data.Length && (data == buffer ==> off == 0) && j <= 8
      requires Reading(data, off, m, j) && Reached(iv, m, j, Regs(a0, b0, c0, d0, e0, f0, g0, h0))
      modifies buffer
      ensures Reading(data, off, m, j + 8) && Reached(iv, m, j + 8, Regs(a, b, c, d, e, f, g, h))
    {
      a, b, c, d, e, f, g, h := FirstFour(data, off, j, m, iv, a0, b0, c0, d0, e0, f0, g0, h0);
      var i := j + 4;
      e, f, g, h, a, b, c, d := FirstFour(data, off, i, m, iv, e, f, g, h, a, b, c, d);
    }

    method FirstUnrolled(data: array<byte>, off: nat, ghost m: block) returns (r: Regs)
      requires Shaped() && off + 64 <= data.Length && (data == buffer ==> off == 0)
      requires m == data[off..off + 64]
      modifies buffer
      ensures Reading(data, off, m, 16) && Reached(state, m, 16, r)
    {
      var a, b, c, d := state.a, state.b, state.c, state.d;
      var e, f, g, h := state.e, state.f, state.g, state.h;
      assert o.k[..0] == [];
      var j := 0;
      ghost var i := 0;
      while j < 16
        invariant j == 8 * i <= 16
        invariant Reading(data, off, m, j) && Reached(state, m, j, Regs(a, b, c, d, e, f, g, h))
      {
        a, b, c, d, e, f, g, h := FirstEight(data, off, j, m, state, a, b, c, d, e, f, g, h);
        j := j + 8;
        i := i + 1;
      }
      r := Regs(a, b, c, d, e, f, g, h);
    }

    method LaterFour(j: nat, ghost m: block, ghost iv: Regs,
                     a0: word, b0: word, c0: word, d0: word, e0: word, f0: word, g0: word, h0: word)
      returns (a: word, b: word, c: word, d: word, e: word, f: word, g: word, h: word)
      requires Shaped() && 16 <= j <= 60
      requires Circular(m, j) && Reached(iv, m, j, Regs(a0, b0, c0, d0, e0, f0, g0, h0))
      modifies buffer
      ensures Circular(m, j + 4) && Reached(iv, m, j + 4, Regs(e, f, g, h, a, b, c, d))
    {
      d, h := LaterRound(j, m, iv, a0, b0, c0, d0, e0, f0, g0, h0);
      c, g := LaterRound(j + 1, m, iv, h, a0, b0, c0, d, e0, f0, g0);
      b, f := LaterRound(j + 2, m, iv, g, h, a0, b0, c, d, e0, f0);
      a, e := LaterRound(j + 3, m, iv, f, g, h, a0, b, c, d, e0);
    }

    method LaterEight(j: nat, ghost m: block, ghost iv: Regs,
                      a0: word, b0: word, c0: word, d0: word, e0: word, f0: word, g0: word, h0: word)
      returns (a: word, b: word, c: word, d: word, e: word, f: word, g: word, h: word)
      requires Shaped() && 16 <= j <= 56
      requires Circular(m, j) && Reached(iv, m, j, Regs(a0, b0, c0, d0, e0, f0, g0, h0))
      modifies buffer
      ensures Circular(m, j + 8) && Reached(iv, m, j + 8, Regs(a, b, c, d, e, f, g, h))
    {
      a, b, c, d, e, f, g, h := LaterFour(j, m, iv, a0, b0, c0, d0, e0, f0, g0, h0);
      var i := j + 4;
      e, f, g, h, a, b, c, d := LaterFour(i, m, iv, e, f, g, h, a, b, c, d);
    }

    method LaterUnrolled(ghost m: block, r0: Regs) returns (r: Regs)
      requires Shaped() && Circular(m, 16) && Reached(state, m, 16, r0)
      modifies buffer
      ensures r == Rounds(o, state, m, o.k)
    {
      var a, b, c, d, e, f, g, h := r0.a, r0.b, r0.c, r0.d, r0.e, r0.f, r0.g, r0.h;
      var j := 16;
      ghost var i := 2;
      while j < 64
        invariant 16 <= j == 8 * i <= 64
        invariant Circular(m, j) && Reached(state, m, j, Regs(a, b, c, d, e, f, g, h))
      {
        a, b, c, d, e, f, g, h := LaterEight(j, m, state, a, b, c, d, e, f, g, h);
        j := j + 8;
        i := i + 1;
      }
      assert o.k[..j] == o.k;
      r := Regs(a, b, c, d, e, f, g, h);
    }

    /** SHA256_Transform as it was compiled. */
    method Transform(data: array<byte>, off: nat)
      requires Shaped() && off + 64 <= data.Length && (data == buffer ==> off == 0)
      modifies `state, buffer
      ensures state == Compress(o, old(state), old(data[off..off + 64]))
    {
      if unrolled {
        TransformUnrolled(data, off);
      } else {
        TransformRolled(data, off);
      }
    }

    // -------------------------------------------------------------- streaming

    /** bitcount counts the bits modulo 2^64, state has the whole blocks, and only the first bytes of
        buffer, the incomplete block, mean anything. */
    ghost predicate Valid()
      reads this, buffer
    {
      Shaped() && Tracks(o, iv, message, state, bitcount, buffer[..|message| % BLOCK])
    }

    /** SHA256_Init. */
    constructor (o: Logic, iv: Regs, littleEndian: bool, unrolled: bool)
      requires |o.k| == 64
      ensures Valid() && message == [] && fresh(buffer)
      ensures this.o == o && this.iv == iv
    {
      this.o := o;
      this.iv := iv;
      this.littleEndian := littleEndian;
      this.unrolled := unrolled;
      buffer := new byte[64](i => 0);
      state := iv;
      bitcount := 0;
      message := [];
    }

    /** (bitcount >> 3) % SHA256_BLOCK_LENGTH. */
    method UsedSpace() returns (used: nat)
      requires Valid()
      ensures used == |message| % BLOCK
    {
      TracksUsed(o, iv, message, state, bitcount, buffer[..|message| % BLOCK]);
      used := bitcount / 8 % BLOCK;
    }

    /** bitcount += n << 3. */
    method Count(n: nat)
      modifies `bitcount
      ensures bitcount == (old(bitcount) + 8 * n) % TWO64
    {
      bitcount := (bitcount + 8 * n) % TWO64;
    }

    /** bcopy into the buffer. */
    method Fill(used: nat, data: array<byte>, off: nat, n: nat)
      requires Shaped() && used + n <= 64 && off + n <= data.Length && data != buffer
      modifies buffer
      ensures buffer[..used + n] == old(buffer[..used]) + data[off..off + n]
    {
      forall i | 0 <= i < n {
        buffer[used + i] := data[off + i];
      }
    }

    /** Bytes that do not fill the buffer. */
    method Keep(used: nat, data: array<byte>, off: nat, n: nat)
      requires Valid() && used == |message| % BLOCK && used + n < BLOCK && off + n <= data.Length && data != buffer
      modifies `bitcount, `message, buffer
      ensures Valid() && message == old(message) + data[off..off + n]
    {
      ghost var m := message + data[off..off + n];
      TracksWaiting(o, iv, message, state, bitcount, buffer[..used], data[off..off + n]);
      Fill(used, data, off, n);
      Count(n);
      message := m;
    }

    /** Between two blocks nothing in the buffer matters. */
    ghost predicate Aligned()
      reads this, buffer
    {
      Shaped() && Tracks(o, iv, message, state, bitcount, [])
    }

    lemma AlignedIsValid()
      ensures Aligned() <==> Valid() && |message| % BLOCK == 0
    {
      assert buffer.Length == 64 ==> buffer[..0] == [];
    }

    /** Bytes that fill the buffer: it becomes the block and then the schedule. */
    method Complete(used: nat, data: array<byte>, n: nat)
      requires Valid() && used == |message| % BLOCK && used + n == BLOCK && n <= data.Length && data != buffer
      modifies `bitcount, `message, `state, buffer
      ensures Aligned() && message == old(message) + data[..n]
    {
      ghost var h, bits, tail, more := state, bitcount, buffer[..used], data[..n];
      Fill(used, data, 0, n);
      Count(n);
      Absorb(buffer, 0, tail + more);
      Advance(h, bits, tail, more);
    }

    /** A whole block, in the buffer or in the data. */
    method Absorb(data: array<byte>, off: nat, ghost b: block)
      requires Shaped() && off + 64 <= data.Length && (data == buffer ==> off == 0) && data[off..off + 64] == b
      modifies `state, buffer
      ensures state == Compress(o, old(state), b)
    {
      Transform(data, off);
    }

    /** A whole block, straight from the data. */
    method OneBlock(data: array<byte>, off: nat, ghost m: seq<byte>)
      requires Aligned() && off + BLOCK <= data.Length && data != buffer
      requires m == message + data[off..off + BLOCK]
      modifies `bitcount, `message, `state, buffer
      ensures Aligned() && message == m
    {
      ghost var h, bits, more := state, bitcount, data[off..off + BLOCK];
      Absorb(data, off, more);
      Count(BLOCK);
      assert [] + more == more;
      Advance(h, bits, [], more);
    }

    /** The message that the state and the count now stand for. */
    ghost method Advance(h: Regs, bits: nat, tail: seq<byte>, more: seq<byte>)
      requires Shaped() && Tracks(o, iv, message, h, bits, tail) && |tail| + |more| == BLOCK
      requires state == Compress(o, h, tail + more) && bitcount == (bits + 8 * |more|) % TWO64
      modifies `message
      ensures Aligned() && message == old(message) + more
    {
      TracksBlock(o, iv, message, h, bits, tail, more);
      message := message + more;
    }

    /** As many whole blocks as there are. */
    method WholeBlocks(data: array<byte>, off: nat, len: nat) returns (end: nat)
      requires Aligned() && off <= len <= data.Length && data != buffer
      modifies `bitcount, `message, `state, buffer
      ensures Aligned() && off <= end <= len < end + BLOCK
      ensures message == old(message) + data[off..end]
    {
      end := off;
      while len - end >= BLOCK
        invariant Aligned() && off <= end <= len
        invariant message == old(message) + data[off..end]
      {
        ghost var m := old(message) + data[off..end + BLOCK];
        Between(old(message), data[..], off, end, end + BLOCK);
        OneBlock(data, end, m);
        end := end + BLOCK;
      }
    }

    /** SHA256_Update. */
    method Update(data: array<byte>, len: nat)
      requires Valid() && len <= data.Length && data != buffer
      modifies `bitcount, `message, `state, buffer
      ensures Valid() && message == old(message) + data[..len]
    {
      if len == 0 {
        assert data[..len] == [];
        return;
      }
      var used := UsedSpace();
      if used > 0 {
        var free := BLOCK - used;
        if len >= free {
          Complete(used, data, free);
          Rest(data, free, len);
          Appended(old(message), data[..], free, len);
        } else {
          Keep(used, data, 0, len);
        }
      } else {
        AlignedIsValid();
        Rest(data, 0, len);
      }
    }

    /** What follows once the buffer is empty. */
    method Rest(data: array<byte>, off: nat, len: nat)
      requires Aligned() && off <= len <= data.Length && data != buffer
      modifies `bitcount, `message, `state, buffer
      ensures Valid() && message == old(message) + data[off..len]
    {
      ghost var m, d := message, data[..];
      var end := WholeBlocks(data, off, len);
      Between(m, d, off, end, len);
      AlignedIsValid();
      if end < len {
        Keep(0, data, end, len - end);
      }
    }

    // -------------------------------------------------------------- the end of the message

    /** bzero on a part of the buffer. */
    method Zero(from: nat, to: nat)
      requires Shaped() && from <= to <= 64
      modifies buffer
      ensures buffer[..to] == old(buffer[..from]) + Zeros(to - from)
    {
      forall i | from <= i < to {
        buffer[i] := 0;
      }
    }

    /** The padding before the length field, with the second-to-last block when there is one. */
    method Pad(used: nat)
      requires Valid() && used == |message| % BLOCK
      modifies `state, buffer
      ensures buffer[..56] == Front(message) && state == BeforeLast(o, old(state), message)
    {
      FrontIs(o, state, message);
      if used > 0 {
        assert buffer[..used] == Tail(message);
        buffer[used] := 0x80;
        assert buffer[..used + 1] == Tail(message) + [0x80];
        if used + 1 <= 56 {
          Zero(used + 1, 56);
        } else {
          PadLong(used);
        }
      } else {
        Zero(0, 56);
        buffer[0] := 0x80;
        assert buffer[..56] == Tail(message) + [0x80] + Zeros(55 - used);
      }
    }

    /** When the length field does not fit: zeros to the end of the block, its transform, and zeros again. */
    method PadLong(used: nat)
      requires Shaped() && 55 < used == |message| % BLOCK && buffer[..used + 1] == Tail(message) + [0x80]
      modifies `state, buffer
      ensures buffer[..56] == Zeros(56) && state == Compress(o, old(state), Tail(message) + [0x80] + Zeros(63 - used))
    {
      if used + 1 < 64 {
        Zero(used + 1, 64);
      }
      Absorb(buffer, 0, Tail(message) + [0x80] + Zeros(63 - used));
      Zero(0, 56);
      assert buffer[..56] == Zeros(56);
    }

    /** The store of the bit count, converted from host byte order. */
    method PutCount()
      requires Shaped() && bitcount < TWO64
      modifies buffer
      ensures buffer[..64] == old(buffer[..56]) + BigEndian(8, bitcount)
    {
      var s := Converted(littleEndian, 8, bitcount);
      forall i | 0 <= i < 8 {
        buffer[56 + i] := s[i];
      }
      ConvertedIsBigEndian(littleEndian, 8, bitcount);
    }

    /** SHA256_Final: writes the digest, and wipes the context in any case. */
    method Final(digest: array?<byte>)
      requires Valid() && digest != buffer && (digest != null ==> digest.Length == 32)
      modifies `state, `bitcount, buffer, digest
      ensures digest != null ==> digest[..] == Hash(o, iv, message)
      ensures Shaped() && state == ZERO && bitcount == 0 && buffer[..] == Zeros(64)
    {
      if digest != null {
        Finish();
        WriteDigest(digest);
      }
      Wipe();
    }

    /** bzero on the context. */
    method Wipe()
      requires Shaped()
      modifies `state, `bitcount, buffer
      ensures state == ZERO && bitcount == 0 && buffer[..] == Zeros(64)
    {
      state := ZERO;
      bitcount := 0;
      Zero(0, 64);
      assert buffer[..0] == [] && buffer[..64] == buffer[..];
    }

    /** The last transforms. */
    method Finish()
      requires Valid()
      modifies `state, buffer
      ensures state == Fold(Step(o), iv, Padded(message, LengthField(message)))
    {
      var used := UsedSpace();
      LastBlocks(o, iv, message);
      Pad(used);
      LastBlock(buffer[..56]);
    }

    /** The length field and the final transform. */
    method LastBlock(ghost front: seq<byte>)
      requires Shaped() && bitcount < TWO64 && front == buffer[..56]
      modifies `state, buffer
      ensures state == Compress(o, old(state), front + BigEndian(8, bitcount))
    {
      PutCount();
      Absorb(buffer, 0, front + BigEndian(8, bitcount));
    }

    /** The words of the state, converted to host byte order and stored one by one. */
    method WriteDigest(digest: array<byte>)
      requires digest != buffer && digest.Length == 32
      modifies digest
      ensures digest[..] == Digest(state)
    {
      var words := Words(state);
      var j := 0;
      while j < 8
        invariant j <= 8 && digest[..4 * j] == Bytes(words[..j])
      {
        var s := Converted(littleEndian, 4, words[j]);
        ConvertedIsBigEndian(littleEndian, 4, words[j]);
        ghost var before := digest[..4 * j];
        digest[4 * j], digest[4 * j + 1], digest[4 * j + 2], digest[4 * j + 3] := s[0], s[1], s[2], s[3];
        assert digest[..4 * (j + 1)] == before + s;
        assert words[..j + 1][..j] == words[..j];
        j := j + 1;
      }
      assert words[..8] == words && digest[..32] == digest[..];
    }
  }

  /** The first words of the schedule, and the last sixteen in their slots. */
  ghost function FirstWords(o: Logic, m: block, j: nat): (s: seq<word>)
    ensures |s| == j
  {
    if j == 0 then [] else FirstWords(o, m, j - 1) + [W(o, m, j - 1)]
  }

  lemma {:induction false} FirstWordsAt(o: Logic, m: block, j: nat, t: nat)
    requires t < j
    ensures FirstWords(o, m, j)[t] == W(o, m, t)
  {
    if t < j - 1 {
      FirstWordsAt(o, m, j - 1, t);
    }
  }

  lemma Distinct(t: nat, j: nat)
    requires t < j < t + 16
    ensures t % 16 != j % 16
  {}

  lemma Neighbours(j: nat)
    requires j >= 16
    ensures (j + 1) % 16 == (j - 15) % 16 && (j + 14) % 16 == (j - 2) % 16 && (j + 9) % 16 == (j - 7) % 16
            && j % 16 == (j - 16) % 16
  {}

  /** The word the program computes from the slots, in the order of its sum. */
  function InPlace(o: Logic, w16: word, w15: word, w7: word, w2: word): word {
    Plus(w16, Plus(Plus(o.lower1(w2), w7), o.lower0(w15)))
  }

  lemma NextWord(o: Logic, m: block, j: nat)
    requires j >= 16
    ensures W(o, m, j) == InPlace(o, W(o, m, j - 16), W(o, m, j - 15), W(o, m, j - 7), W(o, m, j - 2))
  {
    PlusCommutes(W(o, m, j - 16), Plus(Plus(o.lower1(W(o, m, j - 2)), W(o, m, j - 7)), o.lower0(W(o, m, j - 15))));
  }

  lemma Next4(s: seq<byte>, m: block, j: nat)
    requires j < 16 && s == m[4 * j..]
    ensures s[..4] == m[4 * j..4 * j + 4] && s[4..] == m[4 * (j + 1)..]
  {}

  lemma Appended(m: seq<byte>, data: seq<byte>, off: nat, len: nat)
    requires off <= len <= |data|
    ensures m + data[..off] + data[off..len] == m + data[..len]
  {
    assert data[..off] + data[off..len] == data[..len];
  }

  lemma PlusCommutes(x: word, y: word)
    ensures Plus(x, y) == Plus(y, x)
  {}
}
