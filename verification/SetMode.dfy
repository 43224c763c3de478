/** Symbolic file modes: the BITCMD programs of setmode.c.

    A mode string is compiled to a list of bit commands (module SetModeCompile), the list is
    rewritten in place by an optimiser (`CompressMode`) and later run against an old mode
    (`GetMode`).  A list in memory ends at its first command whose `cmd` is '\0'; what lies
    before that cell is called its body. */
module SetMode {

  import opened CStrings

  /** A mode_t, as the set of the numbers of its one bits; mode_t is 16 bits wide. */
  type Mode = set<nat>

  const ALL_BITS: Mode := set b: nat | b < 16
  const S_ISUID: Mode := {11}
  const S_ISGID: Mode := {10}
  const S_ISTXT: Mode := {9}
  const S_IRWXU: Mode := {6, 7, 8}
  const S_IRWXG: Mode := {3, 4, 5}
  const S_IRWXO: Mode := {0, 1, 2}
  const READ_BITS: Mode := {2, 5, 8}
  const WRITE_BITS: Mode := {1, 4, 7}
  const EXEC_BITS: Mode := {0, 3, 6}
  const S_IFDIR: Mode := {14}
  const STANDARD_BITS: Mode := S_ISUID + S_ISGID + S_IRWXU + S_IRWXG + S_IRWXO

  /** The bits of a command's cmd2 field. */
  datatype Cmd2 = CLR | SET | GBITS | OBITS | UBITS

  datatype BitCmd = BitCmd(cmd: char, cmd2: set<Cmd2>, bits: Mode)

  predicate IsBitOp(c: char) { c == '+' || c == '-' || c == 'X' }

  predicate IsCopyOp(c: char) { c == 'u' || c == 'g' || c == 'o' }

  // ---------------------------------------------------------------- running a program

  /** Where the three permission bits of a class start. */
  function Base(class_: char): nat {
    if class_ == 'u' then 6 else if class_ == 'g' then 3 else 0
  }

  function ClassMask(class_: char): Mode {
    if class_ == 'u' then S_IRWXU else if class_ == 'g' then S_IRWXG else S_IRWXO
  }

  /** (m & mask) >> base, for the three bits of a class. */
  function Field(m: Mode, class_: char): Mode {
    set k: nat | k in S_IRWXO && k + Base(class_) in m
  }

  /** v << base, for a value of three bits. */
  function Shifted(v: Mode, class_: char): Mode {
    set b: nat | b in ClassMask(class_) && b >= Base(class_) && b - Base(class_) in v
  }

  function CopyStep(c: BitCmd, m: Mode): Mode {
    var value := Field(m, c.cmd);
    var m1 :=
      if CLR in c.cmd2 then
        var clrval := if SET in c.cmd2 then S_IRWXO else value;
        var mu := if UBITS in c.cmd2 then m - Shifted(clrval, 'u') * c.bits else m;
        var mg := if GBITS in c.cmd2 then mu - Shifted(clrval, 'g') * c.bits else mu;
        if OBITS in c.cmd2 then mg - clrval * c.bits else mg
      else m;
    if SET in c.cmd2 then
      var mu := if UBITS in c.cmd2 then m1 + Shifted(value, 'u') * c.bits else m1;
      var mg := if GBITS in c.cmd2 then mu + Shifted(value, 'g') * c.bits else mu;
      if OBITS in c.cmd2 then mg + value * c.bits else mg
    else m1
  }

  predicate Executable(omode: Mode) { omode * (S_IFDIR + EXEC_BITS) != {} }

  function BitStep(c: BitCmd, omode: Mode, m: Mode): Mode {
    if c.cmd == '+' then m + c.bits
    else if c.cmd == '-' then m - c.bits
    else if c.cmd == 'X' && Executable(omode) then m + c.bits
    else m
  }

  /** What a list of commands does to a mode; it stops at the first cell that is no command. */
  function Run(cmds: seq<BitCmd>, omode: Mode, m: Mode): Mode {
    if cmds == [] then m
    else if IsCopyOp(cmds[0].cmd) then Run(cmds[1..], omode, CopyStep(cmds[0], m))
    else if IsBitOp(cmds[0].cmd) then Run(cmds[1..], omode, BitStep(cmds[0], omode, m))
    else m
  }

  /** getmode: walks the list up to the first cell that is no command. */
  method GetMode(bbox: array<BitCmd>, omode: Mode) returns (newmode: Mode)
    requires exists k :: 0 <= k < bbox.Length && !IsCopyOp(bbox[k].cmd) && !IsBitOp(bbox[k].cmd)
    ensures newmode == Run(bbox[..], omode, omode)
  {
    newmode := omode;
    var put := 0;
    ghost var k :| 0 <= k < bbox.Length && !IsCopyOp(bbox[k].cmd) && !IsBitOp(bbox[k].cmd);
    while true
      invariant 0 <= put <= k
      invariant Run(bbox[put..], omode, newmode) == Run(bbox[..], omode, omode)
      decreases k - put
    {
      var c := bbox[put];
      assert bbox[put..][1..] == bbox[put + 1..];
      if IsCopyOp(c.cmd) {
        newmode := CopyStep(c, newmode);
      } else if IsBitOp(c.cmd) {
        newmode := BitStep(c, omode, newmode);
      } else {
        return;
      }
      put := put + 1;
    }
  }

  /** What follows the terminator is never looked at. */
  lemma {:induction false} RunStopsAtTerminator(body: seq<BitCmd>, tail: seq<BitCmd>, omode: Mode, m: Mode)
    requires tail != [] && tail[0].cmd == NUL
    ensures Run(body + tail, omode, m) == Run(body, omode, m)
  {
    if body == [] {
      assert body + tail == tail;
    } else {
      assert (body + tail)[1..] == body[1..] + tail;
      if IsCopyOp(body[0].cmd) {
        RunStopsAtTerminator(body[1..], tail, omode, CopyStep(body[0], m));
      } else if IsBitOp(body[0].cmd) {
        RunStopsAtTerminator(body[1..], tail, omode, BitStep(body[0], omode, m));
      }
    }
  }

  // ---------------------------------------------------------------- compress_mode

  /** The pending effect of a maximal group of '-', '+' and 'X' commands. */
  datatype Pending = Pending(clr: Mode, set_: Mode, x: Mode)

  const NOTHING := Pending({}, {}, {})

  function Absorb(p: Pending, c: BitCmd): Pending {
    if c.cmd == '-' then Pending(p.clr + c.bits, p.set_ - c.bits, p.x - c.bits)
    else if c.cmd == '+' then Pending(p.clr - c.bits, p.set_ + c.bits, p.x - c.bits)
    else p.(x := p.x + (c.bits - p.set_))
  }

  function One(cmd: char, bits: Mode): seq<BitCmd> {
    if bits == {} then [] else [BitCmd(cmd, {}, bits)]
  }

  function Emit(p: Pending): seq<BitCmd> {
    One('-', p.clr) + One('+', p.set_) + One('X', p.x)
  }

  /** The optimised form of a body, given the pending effect of the commands just read. */
  function Compress(p: Pending, body: seq<BitCmd>): seq<BitCmd>
    decreases body
  {
    if body == [] then Emit(p)
    else if IsBitOp(body[0].cmd) then Compress(Absorb(p, body[0]), body[1..])
    else Emit(p) + [body[0]] + Compress(NOTHING, body[1..])
  }

  /** From cell `from` on, the list's terminator is cell n. */
  predicate Terminated(a: seq<BitCmd>, from: nat, n: nat) {
    from <= n < |a| && a[n].cmd == NUL && forall i :: from <= i < n ==> a[i].cmd != NUL
  }

  /** A command adds at most one command to what is pending. */
  lemma AbsorbGrowsByOne(p: Pending, c: BitCmd)
    requires IsBitOp(c.cmd)
    ensures |Emit(Absorb(p, c))| <= |Emit(p)| + 1
  {}

  /** The pending effect of a group read from left to right. */
  function AbsorbAll(group: seq<BitCmd>): Pending {
    if group == [] then NOTHING else Absorb(AbsorbAll(group[..|group| - 1]), group[|group| - 1])
  }

  predicate AllBitOps(s: seq<BitCmd>) { forall c :: c in s ==> IsBitOp(c.cmd) }

  lemma {:induction false} GroupSize(group: seq<BitCmd>)
    requires AllBitOps(group)
    ensures |Emit(AbsorbAll(group))| <= |group|
  {
    if group != [] {
      var last := |group| - 1;
      GroupSize(group[..last]);
      AbsorbGrowsByOne(AbsorbAll(group[..last]), group[last]);
    }
  }

  lemma {:induction false} GroupCompresses(group: seq<BitCmd>, rest: seq<BitCmd>)
    requires AllBitOps(group)
    ensures Compress(NOTHING, group + rest) == Compress(AbsorbAll(group), rest)
  {
    if group == [] {
      assert group + rest == rest;
    } else {
      var last := |group| - 1;
      GroupCompresses(group[..last], group[last..] + rest);
      assert group[..last] + (group[last..] + rest) == group + rest;
      assert (group[last..] + rest)[1..] == rest;
    }
  }

  /** The inner loop of compress_mode: reads one maximal group of bit commands. */
  method ReadGroup(a: array<BitCmd>, from: nat, ghost n: nat)
    returns (next: nat, clrbits: Mode, setbits: Mode, xbits: Mode)
    requires Terminated(a[..], from, n)
    ensures from <= next <= n && !IsBitOp(a[next].cmd)
    ensures IsBitOp(a[from].cmd) ==> from < next
    ensures AllBitOps(a[from..next])
    ensures Pending(clrbits, setbits, xbits) == AbsorbAll(a[from..next])
  {
    clrbits, setbits, xbits := {}, {}, {};
    next := from;
    while IsBitOp(a[next].cmd)
      invariant from <= next <= n
      invariant AllBitOps(a[from..next])
      invariant Pending(clrbits, setbits, xbits) == AbsorbAll(a[from..next])
      decreases n - next
    {
      assert a[from..next + 1][..next - from] == a[from..next];
      var c := a[next];
      if c.cmd == '-' {
        clrbits := clrbits + c.bits;
        setbits := setbits - c.bits;
        xbits := xbits - c.bits;
      } else if c.cmd == '+' {
        setbits := setbits + c.bits;
        clrbits := clrbits - c.bits;
        xbits := xbits - c.bits;
      } else {
        xbits := xbits + (c.bits - setbits);
      }
      next := next + 1;
    }
  }

  /** The tail of compress_mode's outer loop: writes what a group comes down to. */
  method WriteGroup(a: array<BitCmd>, at: nat, clrbits: Mode, setbits: Mode, xbits: Mode) returns (put: nat)
    requires at + |Emit(Pending(clrbits, setbits, xbits))| <= a.Length
    modifies a
    ensures put == at + |Emit(Pending(clrbits, setbits, xbits))|
    ensures a[..put] == old(a[..at]) + Emit(Pending(clrbits, setbits, xbits))
    ensures a[put..] == old(a[put..])
  {
    put := at;
    if clrbits != {} {
      a[put] := BitCmd('-', {}, clrbits);
      put := put + 1;
    }
    assert a[..put] == old(a[..at]) + One('-', clrbits);
    if setbits != {} {
      a[put] := BitCmd('+', {}, setbits);
      put := put + 1;
    }
    assert a[..put] == old(a[..at]) + (One('-', clrbits) + One('+', setbits));
    if xbits != {} {
      a[put] := BitCmd('X', {}, xbits);
      put := put + 1;
    }
  }

  /** The first inner loop of compress_mode: moves down every command that is no bit command,
      up to and including the terminator. */
  method CopyCommands(a: array<BitCmd>, at: nat, from: nat, ghost n: nat) returns (put: nat, next: nat, done: bool)
    requires at <= from && Terminated(a[..], from, n)
    modifies a
    ensures from <= next <= n + 1 && put - at == next - from
    ensures done <==> next == n + 1
    ensures !done ==> IsBitOp(old(a[next]).cmd)
    ensures forall i :: from <= i < next ==> !IsBitOp(old(a[i]).cmd)
    ensures a[..put] == old(a[..at]) + old(a[from..next])
    ensures a[put..] == old(a[put..])
  {
    put, next, done := at, from, false;
    ghost var was := a[..];
    while !IsBitOp(a[next].cmd)
      invariant from <= next <= n && put - at == next - from
      invariant forall i :: from <= i < next ==> !IsBitOp(was[i].cmd)
      invariant a[..put] == was[..at] + was[from..next]
      invariant a[put..] == was[put..]
      decreases n - next
    {
      assert a[next] == a[put..][next - put] == was[next];
      var op := a[next].cmd;
      OneMoved(was, a[..], at, from, put, next);
      a[put] := a[next];
      put, next := put + 1, next + 1;
      if op == NUL {
        done := true;
        return;
      }
    }
    assert a[next] == a[put..][next - put] == was[next];
  }

  lemma OneMoved(was: seq<BitCmd>, now: seq<BitCmd>, at: nat, from: nat, put: nat, next: nat)
    requires at <= from <= next < |was| == |now| && put == at + (next - from)
    requires now[..put] == was[..at] + was[from..next] && now[put..] == was[put..]
    ensures var after := now[put := now[next]];
            after[..put + 1] == was[..at] + was[from..next + 1] && after[put + 1..] == was[put + 1..]
  {
    assert now[next] == now[put..][next - put] == was[next];
    assert now[put := now[next]][..put + 1] == now[..put] + [was[next]];
    assert was[from..next + 1] == was[from..next] + [was[next]];
    assert now[put := now[next]][put + 1..] == now[put..][1..] && was[put + 1..] == was[put..][1..];
  }

  /** One turn of compress_mode's outer loop: commands to copy, then one group. */
  method CompressRound(a: array<BitCmd>, at: nat, from: nat, ghost n: nat) returns (put: nat, next: nat, done: bool)
    requires at <= from && Terminated(a[..], from, n)
    modifies a
    ensures at <= put <= a.Length && a[put..] == old(a[put..])
    ensures done ==> put <= n + 1
    ensures done ==> a[..put] == old(a[..at]) + (Compress(NOTHING, old(a[from..n])) + [old(a[n])])
    ensures !done ==> put <= next <= n && from < next
    ensures !done ==> a[..put] + Compress(NOTHING, old(a[next..n])) == old(a[..at]) + Compress(NOTHING, old(a[from..n]))
  {
    ghost var was := a[..];
    put, next, done := CopyCommands(a, at, from, n);
    if done {
      CopiesAtEnd(was, from, n);
      return;
    }
    ghost var start, mid := next, a[..];
    SameCells(mid, was, put);
    var clrbits, setbits, xbits;
    next, clrbits, setbits, xbits := ReadGroup(a, next, n);
    assert a[start..next] == was[start..next];
    RoundMeaning(was[..at], was, from, start, next, n);
    put := WriteGroup(a, put, clrbits, setbits, xbits);
    SameTail(a[..], mid, was, put);
  }

  lemma SameTail(a: seq<BitCmd>, mid: seq<BitCmd>, was: seq<BitCmd>, put: nat)
    requires |a| == |mid| == |was| && put <= |a| && a[put..] == mid[put..]
    requires forall i {:trigger was[i]} :: put <= i < |a| ==> mid[i] == was[i]
    ensures a[put..] == was[put..]
  {
    assert mid[put..] == was[put..];
  }

  lemma RoundMeaning(head: seq<BitCmd>, was: seq<BitCmd>, from: nat, start: nat, next: nat, n: nat)
    requires from <= start <= next <= n < |was|
    requires forall i :: from <= i < start ==> !IsBitOp(was[i].cmd)
    requires AllBitOps(was[start..next]) && !IsBitOp(was[next].cmd)
    ensures |Emit(AbsorbAll(was[start..next]))| <= next - start
    ensures head + was[from..start] + Emit(AbsorbAll(was[start..next])) + Compress(NOTHING, was[next..n])
            == head + Compress(NOTHING, was[from..n])
  {
    var copies, group, rest := was[from..start], was[start..next], was[next..n];
    GroupSize(group);
    RoundStep(copies, group, rest);
    assert was[from..n] == copies + (group + rest);
    Flattened(head, copies, Emit(AbsorbAll(group)), Compress(NOTHING, rest));
  }

  /** compress_mode: two cursors over the same cells.  The cells up to the terminator become the
      optimised list, the terminator follows it, and no cell beyond it is written: the write
      cursor never passes the read cursor. */
  method CompressMode(a: array<BitCmd>, ghost n: nat)
    requires Terminated(a[..], 0, n)
    modifies a
    ensures |Compress(NOTHING, old(a[..n]))| <= n
    ensures a[..] == Compress(NOTHING, old(a[..n])) + [old(a[n])] + old(a[..])[|Compress(NOTHING, old(a[..n]))| + 1..]
  {
    ghost var was := a[..];
    ghost var goal := Compress(NOTHING, was[..n]);
    var put, next, done := 0, 0, false;
    assert was[0..n] == was[..n];
    while true
      invariant 0 <= put <= next <= n
      invariant a[put..] == was[put..]
      invariant a[..put] + Compress(NOTHING, was[next..n]) == goal
      decreases n - next
    {
      ghost var mid, from := a[..], next;
      SameCells(mid, was, put);
      assert mid[from..n] == was[from..n];
      ghost var head, rest := a[..put], Compress(NOTHING, was[from..n]);
      put, next, done := CompressRound(a, put, next, n);
      SameTail(a[..], mid, was, put);
      if done {
        Finish(a[..], was, head, rest, was[n], put);
        return;
      }
      assert mid[next..n] == was[next..n];
    }
  }

  lemma Finish(a: seq<BitCmd>, was: seq<BitCmd>, head: seq<BitCmd>, rest: seq<BitCmd>, t: BitCmd, put: nat)
    requires put <= |a| == |was| && a[..put] == head + (rest + [t]) && a[put..] == was[put..]
    ensures put == |head + rest| + 1
    ensures a == head + rest + [t] + was[put..]
  {
    assert a == a[..put] + a[put..];
  }

  lemma CopiesAtEnd(was: seq<BitCmd>, from: nat, n: nat)
    requires from <= n < |was| && forall i :: from <= i < n ==> !IsBitOp(was[i].cmd)
    ensures was[from..n + 1] == Compress(NOTHING, was[from..n]) + [was[n]]
  {
    CopiesKept(was[from..n], []);
    assert was[from..n] + [] == was[from..n];
    assert was[from..n + 1] == was[from..n] + [was[n]];
  }

  /** One turn of the outer loop: copied commands, then a group and what it comes down to. */
  lemma RoundStep(copies: seq<BitCmd>, group: seq<BitCmd>, rest: seq<BitCmd>)
    requires forall c :: c in copies ==> !IsBitOp(c.cmd)
    requires AllBitOps(group)
    requires rest != [] ==> !IsBitOp(rest[0].cmd)
    ensures Compress(NOTHING, copies + (group + rest)) == copies + (Emit(AbsorbAll(group)) + Compress(NOTHING, rest))
  {
    CopiesKept(copies, group + rest);
    GroupCompresses(group, rest);
    FlushedAtGroupEnd(AbsorbAll(group), rest);
  }

  lemma Flattened(a: seq<BitCmd>, b: seq<BitCmd>, c: seq<BitCmd>, d: seq<BitCmd>)
    ensures a + (b + (c + d)) == a + b + c + d
  {}

  lemma SameCells(a: seq<BitCmd>, was: seq<BitCmd>, put: nat)
    requires |a| == |was| && put <= |a| && a[put..] == was[put..]
    ensures forall i :: put <= i < |a| ==> a[i] == was[i]
  {
    forall i | put <= i < |a| ensures a[i] == was[i] {
      assert a[i] == a[put..][i - put];
    }
  }

  lemma {:induction false} CopiesKept(s: seq<BitCmd>, rest: seq<BitCmd>)
    requires forall c :: c in s ==> !IsBitOp(c.cmd)
    ensures Compress(NOTHING, s + rest) == s + Compress(NOTHING, rest)
  {
    if s == [] {
      assert s + rest == rest;
    } else {
      assert (s + rest)[1..] == s[1..] + rest;
      CopiesKept(s[1..], rest);
    }
  }

  lemma FlushedAtGroupEnd(p: Pending, s: seq<BitCmd>)
    requires s != [] ==> !IsBitOp(s[0].cmd)
    ensures Compress(p, s) == Emit(p) + Compress(NOTHING, s)
  {}

  // ---------------------------------------------------------------- compression keeps the meaning

  predicate Disjoint(p: Pending) { p.clr !! p.set_ && p.set_ !! p.x }

  /** What a pending effect does to a mode. */
  function Apply(p: Pending, omode: Mode, m: Mode): Mode {
    var m1 := m - p.clr + p.set_;
    if Executable(omode) then m1 + p.x else m1
  }

  lemma AbsorbApplies(p: Pending, c: BitCmd, omode: Mode, m: Mode)
    requires Disjoint(p) && IsBitOp(c.cmd)
    ensures Disjoint(Absorb(p, c))
    ensures Apply(Absorb(p, c), omode, m) == BitStep(c, omode, Apply(p, omode, m))
  {}

  lemma RunOne(cmd: char, bits: Mode, rest: seq<BitCmd>, omode: Mode, m: Mode)
    requires IsBitOp(cmd)
    ensures Run(One(cmd, bits) + rest, omode, m) == Run(rest, omode, BitStep(BitCmd(cmd, {}, bits), omode, m))
  {
    if bits == {} {
      assert One(cmd, bits) + rest == rest;
      assert m + bits == m && m - bits == m;
    } else {
      assert (One(cmd, bits) + rest)[1..] == rest;
    }
  }

  lemma EmitApplies(p: Pending, rest: seq<BitCmd>, omode: Mode, m: Mode)
    ensures Run(Emit(p) + rest, omode, m) == Run(rest, omode, Apply(p, omode, m))
  {
    var a, b, c := One('-', p.clr), One('+', p.set_), One('X', p.x);
    Flattened(a, b, c, rest);
    RunOne('-', p.clr, b + (c + rest), omode, m);
    RunOne('+', p.set_, c + rest, omode, m - p.clr);
    RunOne('X', p.x, rest, omode, m - p.clr + p.set_);
  }

  /** compress_mode preserves meaning: for every body, every old mode and every current mode. */
  lemma {:induction false} CompressPreservesMeaning(p: Pending, body: seq<BitCmd>, omode: Mode, m: Mode)
    requires Disjoint(p)
    ensures Run(Compress(p, body), omode, m) == Run(body, omode, Apply(p, omode, m))
    decreases body
  {
    if body == [] {
      EmitApplies(p, [], omode, m);
      assert Emit(p) + [] == Emit(p);
    } else if IsBitOp(body[0].cmd) {
      AbsorbApplies(p, body[0], omode, m);
      CompressPreservesMeaning(Absorb(p, body[0]), body[1..], omode, m);
    } else {
      var m1, rest := Apply(p, omode, m), Compress(NOTHING, body[1..]);
      EmitApplies(p, [body[0]] + rest, omode, m);
      assert Emit(p) + [body[0]] + rest == Emit(p) + ([body[0]] + rest);
      assert ([body[0]] + rest)[1..] == rest;
      if IsCopyOp(body[0].cmd) {
        var m2 := CopyStep(body[0], m1);
        assert Apply(NOTHING, omode, m2) == m2;
        CompressPreservesMeaning(NOTHING, body[1..], omode, m2);
      }
    }
  }

  // ---------------------------------------------------------------- normal form

  function Rank(cmd: char): nat { if cmd == '-' then 0 else if cmd == '+' then 1 else 2 }

  predicate Apart(c: BitCmd, d: BitCmd) { c.cmd == '+' || d.cmd == '+' ==> c.bits !! d.bits }

  /** At most one '-', one '+' and one 'X', in this order, none without bits, none with leftover
      cmd2, and the '+' bits apart from those of the other two. */
  predicate GroupNormal(g: seq<BitCmd>) {
    AllBitOps(g) &&
    (forall i :: 0 <= i < |g| ==> g[i].bits != {} && g[i].cmd2 == {}) &&
    (forall i, j :: 0 <= i < j < |g| ==> Rank(g[i].cmd) < Rank(g[j].cmd) && Apart(g[i], g[j]))
  }

  function GroupLength(s: seq<BitCmd>): (n: nat)
    ensures n <= |s| && AllBitOps(s[..n]) && (n < |s| ==> !IsBitOp(s[n].cmd))
  {
    if s == [] || !IsBitOp(s[0].cmd) then 0 else 1 + GroupLength(s[1..])
  }

  /** Every maximal group of bit commands is normal. */
  predicate NormalForm(s: seq<BitCmd>)
    decreases |s|
  {
    var n := GroupLength(s);
    GroupNormal(s[..n]) && (n < |s| ==> NormalForm(s[n + 1..]))
  }

  lemma {:induction false} GroupLengthOf(g: seq<BitCmd>, rest: seq<BitCmd>)
    requires AllBitOps(g) && (rest != [] ==> !IsBitOp(rest[0].cmd))
    ensures GroupLength(g + rest) == |g|
  {
    if g == [] {
      assert g + rest == rest;
    } else {
      assert (g + rest)[1..] == g[1..] + rest;
      GroupLengthOf(g[1..], rest);
    }
  }

  lemma EmittedNormal(p: Pending)
    requires Disjoint(p)
    ensures GroupNormal(Emit(p))
  {}

  /** compress_mode's output is in normal form. */
  lemma {:induction false} CompressNormalizes(p: Pending, body: seq<BitCmd>)
    requires Disjoint(p)
    ensures NormalForm(Compress(p, body))
    decreases body
  {
    EmittedNormal(p);
    var e := Emit(p);
    if body == [] {
      assert e + [] == e;
      GroupLengthOf(e, []);
      assert e[..|e|] == e;
    } else if IsBitOp(body[0].cmd) {
      AbsorbApplies(p, body[0], {}, {});
      CompressNormalizes(Absorb(p, body[0]), body[1..]);
    } else {
      var rest := Compress(NOTHING, body[1..]);
      CompressNormalizes(NOTHING, body[1..]);
      GroupLengthOf(e, [body[0]] + rest);
      var s := e + [body[0]] + rest;
      assert s == e + ([body[0]] + rest);
      assert s[..|e|] == e && s[|e| + 1..] == rest;
    }
  }

  predicate From(bits: Mode, cmd: char, g: seq<BitCmd>) {
    bits == {} || exists k :: 0 <= k < |g| && g[k].cmd == cmd && g[k].bits == bits
  }

  predicate Tracks(p: Pending, g: seq<BitCmd>) {
    From(p.clr, '-', g) && From(p.set_, '+', g) && From(p.x, 'X', g)
  }

  lemma FromGrows(bits: Mode, cmd: char, g: seq<BitCmd>, c: BitCmd)
    ensures From(bits, cmd, g) ==> From(bits, cmd, g + [c])
    ensures c.cmd == cmd && c.bits == bits ==> From(bits, cmd, g + [c])
  {
    var s := g + [c];
    if bits != {} && From(bits, cmd, g) {
      var k :| 0 <= k < |g| && g[k].cmd == cmd && g[k].bits == bits;
      assert s[k] == g[k];
    }
    assert s[|g|] == c;
  }

  lemma Precedes(bits: Mode, cmd: char, g: seq<BitCmd>, c: BitCmd)
    requires GroupNormal(g + [c]) && From(bits, cmd, g) && IsBitOp(cmd)
    ensures Rank(cmd) >= Rank(c.cmd) ==> bits == {}
    ensures cmd == '+' || c.cmd == '+' ==> bits !! c.bits
  {
    var s := g + [c];
    if bits != {} {
      var k :| 0 <= k < |g| && g[k].cmd == cmd && g[k].bits == bits;
      assert s[k] == g[k] && s[|g|] == c;
      assert Rank(s[k].cmd) < Rank(s[|g|].cmd) && Apart(s[k], s[|g|]);
    }
  }

  lemma NormalStep(p: Pending, g: seq<BitCmd>, c: BitCmd)
    requires GroupNormal(g + [c]) && Tracks(p, g)
    ensures Tracks(Absorb(p, c), g + [c])
    ensures Emit(Absorb(p, c)) == Emit(p) + [c]
  {
    Precedes(p.clr, '-', g, c);
    Precedes(p.set_, '+', g, c);
    Precedes(p.x, 'X', g, c);
    FromGrows(p.clr, '-', g, c);
    FromGrows(p.set_, '+', g, c);
    FromGrows(p.x, 'X', g, c);
    var s := g + [c];
    assert s[|g|] == c;
    assert c == BitCmd(c.cmd, {}, c.bits) && c.bits != {} && IsBitOp(c.cmd);
    var q := if c.cmd == '-' then p.(clr := c.bits) else if c.cmd == '+' then p.(set_ := c.bits) else p.(x := c.bits);
    assert Absorb(p, c) == q;
    FromGrows(c.bits, c.cmd, g, c);
  }

  lemma {:induction false} NormalGroupKept(g: seq<BitCmd>)
    requires GroupNormal(g)
    ensures Emit(AbsorbAll(g)) == g && Tracks(AbsorbAll(g), g)
  {
    if g != [] {
      var init, c := g[..|g| - 1], g[|g| - 1];
      assert g == init + [c];
      NormalGroupKept(init);
      NormalStep(AbsorbAll(init), init, c);
    }
  }

  lemma NormalGroupFirst(g: seq<BitCmd>, rest: seq<BitCmd>)
    requires GroupNormal(g) && AllBitOps(g) && (rest == [] || !IsBitOp(rest[0].cmd))
    ensures Compress(NOTHING, g + rest) == g + Compress(NOTHING, rest)
  {
    NormalGroupKept(g);
    GroupCompresses(g, rest);
    FlushedAtGroupEnd(AbsorbAll(g), rest);
  }

  lemma {:induction false} NormalFormKept(s: seq<BitCmd>)
    requires NormalForm(s)
    ensures Compress(NOTHING, s) == s
    decreases |s|
  {
    var n := GroupLength(s);
    var g, rest := s[..n], s[n..];
    assert s == g + rest;
    NormalGroupFirst(g, rest);
    if n < |s| {
      assert rest == [s[n]] + s[n + 1..];
      CopiesKept([s[n]], s[n + 1..]);
      NormalFormKept(s[n + 1..]);
    }
  }

  /** The programs compress_mode leaves as they are, exactly. */
  lemma FixedPointsAreNormalForms(s: seq<BitCmd>)
    ensures Compress(NOTHING, s) == s <==> NormalForm(s)
  {
    CompressNormalizes(NOTHING, s);
    if NormalForm(s) {
      NormalFormKept(s);
    }
  }

  /** A second compression is a no-op. */
  lemma CompressIdempotent(s: seq<BitCmd>)
    ensures Compress(NOTHING, Compress(NOTHING, s)) == Compress(NOTHING, s)
  {
    CompressNormalizes(NOTHING, s);
    NormalFormKept(Compress(NOTHING, s));
  }

  // ---------------------------------------------------------------- completeness on bit commands

  /** Clearing an execute or directory bit that a pending 'X' decides anyway changes nothing: such a
      bit set in the old mode makes the mode executable. */
  function Decided(p: Pending): Pending {
    p.(clr := p.clr - p.x * (S_IFDIR + EXEC_BITS))
  }

  lemma DecidedSameMeaning(p: Pending, omode: Mode)
    requires Disjoint(p)
    ensures Apply(p, omode, omode) == Apply(Decided(p), omode, omode)
  {
    var a, b := Apply(p, omode, omode), Apply(Decided(p), omode, omode);
    forall i: nat ensures i in a <==> i in b {
      if i in omode && i in S_IFDIR + EXEC_BITS {
        assert i in omode * (S_IFDIR + EXEC_BITS);
      }
    }
  }

  /** Old modes that tell two different effects apart. */
  lemma Separated(p: Pending, q: Pending) returns (omode: Mode)
    requires Disjoint(p) && Disjoint(q) && Decided(p) != Decided(q)
    ensures Apply(p, omode, omode) != Apply(q, omode, omode)
  {
    if p.set_ != q.set_ {
      omode := {};
      assert !Executable(omode);
      assert Apply(p, omode, omode) == p.set_ && Apply(q, omode, omode) == q.set_;
    } else if p.x != q.x {
      var i :| i in p.x + q.x && !(i in p.x && i in q.x);
      omode := if i == 0 then {3} else {0};
      assert (if i == 0 then 3 else 0) in omode * (S_IFDIR + EXEC_BITS);
      assert i in Apply(p, omode, omode) <==> i in p.x;
      assert i in Apply(q, omode, omode) <==> i in q.x;
    } else {
      var i :| i in Decided(p).clr + Decided(q).clr && !(i in Decided(p).clr && i in Decided(q).clr);
      if i in S_IFDIR + EXEC_BITS {
        omode := {i};
        assert i in omode * (S_IFDIR + EXEC_BITS);
      } else {
        omode := {i};
        assert !Executable(omode);
      }
      assert i in Apply(p, omode, omode) <==> i !in p.clr || i in p.set_ || (i in p.x && Executable(omode));
      assert i in Apply(q, omode, omode) <==> i !in q.clr || i in q.set_ || (i in q.x && Executable(omode));
    }
  }

  lemma {:induction false} GroupDisjoint(g: seq<BitCmd>)
    requires AllBitOps(g)
    ensures Disjoint(AbsorbAll(g))
  {
    if g != [] {
      GroupDisjoint(g[..|g| - 1]);
      AbsorbApplies(AbsorbAll(g[..|g| - 1]), g[|g| - 1], {}, {});
    }
  }

  lemma GroupMeaning(g: seq<BitCmd>, omode: Mode)
    requires AllBitOps(g)
    ensures Disjoint(AbsorbAll(g)) && Run(g, omode, omode) == Apply(AbsorbAll(g), omode, omode)
  {
    GroupDisjoint(g);
    GroupCompresses(g, []);
    assert g + [] == g && Emit(AbsorbAll(g)) + [] == Emit(AbsorbAll(g));
    CompressPreservesMeaning(NOTHING, g, omode, omode);
    EmitApplies(AbsorbAll(g), [], omode, omode);
    assert omode - {} + {} + {} == omode;
  }

  /** compress_mode is complete on programs of '+', '-' and 'X': two of them mean the same on every
      old mode exactly when they come down to the same effect, up to execute or directory bits that
      are cleared and then decided by 'X'. */
  lemma CompressIsComplete(g: seq<BitCmd>, h: seq<BitCmd>)
    requires AllBitOps(g) && AllBitOps(h)
    ensures Compress(NOTHING, g) == Emit(AbsorbAll(g)) && Compress(NOTHING, h) == Emit(AbsorbAll(h))
    ensures (forall omode :: Run(g, omode, omode) == Run(h, omode, omode))
            <==> Decided(AbsorbAll(g)) == Decided(AbsorbAll(h))
  {
    GroupCompresses(g, []);
    GroupCompresses(h, []);
    assert g + [] == g && h + [] == h;
    var p, q := AbsorbAll(g), AbsorbAll(h);
    forall omode ensures Run(g, omode, omode) == Apply(p, omode, omode) && Run(h, omode, omode) == Apply(q, omode, omode)
    {
      GroupMeaning(g, omode);
      GroupMeaning(h, omode);
    }
    GroupDisjoint(g);
    GroupDisjoint(h);
    if Decided(p) == Decided(q) {
      forall omode ensures Run(g, omode, omode) == Run(h, omode, omode) {
        DecidedSameMeaning(p, omode);
        DecidedSameMeaning(q, omode);
      }
    } else {
      var omode := Separated(p, q);
      assert Run(g, omode, omode) != Run(h, omode, omode);
    }
  }
}
