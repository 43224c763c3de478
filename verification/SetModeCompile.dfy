/** setmode: from a mode string to a bit command program, and what that program means.

    `Compile` is the list of commands a symbolic string stands for, before compression;
    `Meaning` interprets the same string directly on a mode, class by class, without commands.
    `MakeMode` is setmode itself: the parser over a growing array, and the numeric branch. */
module SetModeCompile {

  import opened CStrings
  import opened Numbers
  import opened Sequences
  import opened Wrappers
  import opened SetMode

  // ---------------------------------------------------------------- the commands of a clause

  function ClassBits(c: char): Mode {
    if c == 'a' then STANDARD_BITS
    else if c == 'u' then S_ISUID + S_IRWXU
    else if c == 'g' then S_ISGID + S_IRWXG
    else S_IRWXO
  }

  predicate IsClass(c: char) { c == 'a' || IsCopyOp(c) }

  predicate IsOperator(c: char) { c == '+' || c == '-' || c == '=' }

  /** The bits a clause may touch; with no class given, those the umask leaves. */
  function Selected(who: Mode, mask: Mode): Mode { if who != {} then who else mask }

  function BitCmds(op: char, who: Mode, bits: Mode, mask: Mode): seq<BitCmd> {
    if op == '=' then
      [BitCmd('-', {}, if who != {} then who else STANDARD_BITS), BitCmd('+', {}, Selected(who, mask) * bits)]
    else [BitCmd(op, {}, Selected(who, mask) * bits)]
  }

  function CopyFlags(who: Mode, op: char): set<Cmd2> {
    (if who == {} || 8 in who then {UBITS} else {}) +
    (if who == {} || 5 in who then {GBITS} else {}) +
    (if who == {} || 2 in who then {OBITS} else {}) +
    (if op == '+' then {SET} else if op == '-' then {CLR} else {SET, CLR})
  }

  function CopyCmd(source: char, who: Mode, op: char, mask: Mode): BitCmd {
    BitCmd(source, CopyFlags(who, op), if who != {} then ALL_BITS else mask)
  }

  /** The state of the loop over the permission letters of one action. */
  datatype Action = Action(op: char, who: Mode, perm: Mode, permX: Mode, equalDone: bool)

  /** 's' and 't' are ignored when only "other" bits were asked for. */
  predicate SpecialBitsApply(who: Mode) { who == {} || who - S_IRWXO != {} }

  predicate IsPermLetter(c: char) { c == 'r' || c == 's' || c == 't' || c == 'w' || c == 'X' || c == 'x' }

  function WithLetter(s: Action, c: char): Action {
    if c == 'r' then s.(perm := s.perm + READ_BITS)
    else if c == 'w' then s.(perm := s.perm + WRITE_BITS)
    else if c == 'x' then s.(perm := s.perm + EXEC_BITS)
    else if c == 'X' then s.(permX := EXEC_BITS)
    else if !SpecialBitsApply(s.who) then s
    else if c == 's' then s.(perm := s.perm + S_ISUID + S_ISGID)
    else s.(who := s.who + S_ISTXT, perm := s.perm + S_ISTXT)
  }

  /** A class letter among the permissions: flush what was collected, then copy. */
  function Flush(s: Action, mask: Mode): seq<BitCmd> {
    (if s.perm != {} then BitCmds(s.op, s.who, s.perm, mask) else []) +
    (if s.op == '+' && s.permX != {} then BitCmds('X', s.who, s.permX, mask) else [])
  }

  function FlushAndCopy(s: Action, source: char, mask: Mode): seq<BitCmd> {
    Flush(s, mask) + [CopyCmd(source, s.who, s.op, mask)]
  }

  function AfterCopy(s: Action): Action {
    s.(perm := {}, permX := if s.op == '+' then {} else s.permX, equalDone := s.equalDone || s.op == '=')
  }

  /** The end of an action: flush what is left. */
  function EndCommands(s: Action, mask: Mode): seq<BitCmd> {
    (if s.perm != {} || (s.op == '=' && !s.equalDone) then BitCmds(s.op, s.who, s.perm, mask) else []) +
    (if s.permX != {} then BitCmds('X', s.who, s.permX, mask) else [])
  }

  function ScanWho(p: string, who: Mode): (r: (Mode, string))
    ensures |r.1| <= |p|
  {
    if p != "" && IsClass(p[0]) then ScanWho(p[1..], who + ClassBits(p[0])) else (who, p)
  }

  /** The program so far, extended by an action's commands; the classes; the text that is left. */
  function ScanPerms(acc: seq<BitCmd>, p: string, s: Action, mask: Mode): (r: (seq<BitCmd>, Mode, string))
    ensures |r.2| <= |p|
    decreases |p|
  {
    if p != "" && IsPermLetter(p[0]) then ScanPerms(acc, p[1..], WithLetter(s, p[0]), mask)
    else if p != "" && IsCopyOp(p[0]) then ScanPerms(acc + FlushAndCopy(s, p[0], mask), p[1..], AfterCopy(s), mask)
    else (acc + EndCommands(s, mask), s.who, p)
  }

  function Start(op: char, who: Mode): Action { Action(op, who - S_ISTXT, {}, {}, false) }

  /** From an operator on. */
  function CompileActions(acc: seq<BitCmd>, p: string, who: Mode, mask: Mode): Option<seq<BitCmd>>
    decreases |p|, 0
  {
    if p == "" || !IsOperator(p[0]) then None
    else
      var (cmds, who', rest) := ScanPerms(acc, p[1..], Start(p[0], who), mask);
      if rest == "" then Some(cmds)
      else if rest[0] == ',' then Compile(cmds, rest[1..], mask)
      else CompileActions(cmds, rest, who', mask)
  }

  /** The commands of a symbolic mode string, after `acc`; None when the string is malformed. */
  function Compile(acc: seq<BitCmd>, p: string, mask: Mode): Option<seq<BitCmd>>
    decreases |p|, 1
  {
    var (who, rest) := ScanWho(p, {});
    CompileActions(acc, rest, who, mask)
  }

  // ---------------------------------------------------------------- the array behind it

  /** Two lists of commands alike but for the cmd2 fields no command reads. */
  predicate Agrees(a: seq<BitCmd>, b: seq<BitCmd>) {
    |a| == |b| && forall i :: 0 <= i < |a| ==>
      a[i].cmd == b[i].cmd && a[i].bits == b[i].bits && (IsBitOp(a[i].cmd) || a[i] == b[i])
  }

  lemma {:induction false} AgreeingListsCompressAlike(p: Pending, a: seq<BitCmd>, b: seq<BitCmd>)
    requires Agrees(a, b)
    ensures Compress(p, a) == Compress(p, b)
    decreases |a|
  {
    if a != [] {
      assert a[0].cmd == b[0].cmd;
      if IsBitOp(a[0].cmd) {
        AgreeingListsCompressAlike(Absorb(p, a[0]), a[1..], b[1..]);
      } else {
        AgreeingListsCompressAlike(NOTHING, a[1..], b[1..]);
      }
    }
  }

  const SET_LEN := 6
  const SET_LEN_INCR := 4

  /** The locals saveset, set and endset of setmode: an array that grows, a cursor, and the bound
      at which ADDCMD makes it grow. */
  class CommandBuffer {
    var saveset: array<BitCmd>
    var put: nat
    var endset: nat

    ghost predicate Valid()
      reads this
    {
      saveset.Length == endset + 2 && put <= endset + 1
    }

    ghost function Contents(): seq<BitCmd>
      requires Valid()
      reads this, saveset
    {
      saveset[..put]
    }

    constructor ()
      ensures Valid() && fresh(saveset) && endset == SET_LEN
      ensures Contents() == []
    {
      saveset := new BitCmd[SET_LEN + 2];
      put := 0;
      endset := SET_LEN;
    }

    /** The growing half of ADDCMD: there is room for two commands and the terminator. */
    method Reserve()
      requires Valid()
      modifies this
      ensures Valid() && put + 2 <= endset + 1
      ensures saveset == old(saveset) || fresh(saveset)
      ensures old(put) < old(endset) ==> saveset == old(saveset)
      ensures Contents() == old(Contents())
    {
      if put >= endset {
        var newset := new BitCmd[saveset.Length + SET_LEN_INCR];
        forall i | 0 <= i < put {
          newset[i] := saveset[i];
        }
        saveset := newset;
        endset := newset.Length - 2;
      }
    }

    /** ADDCMD and addcmd for the operators '=', '+', '-' and for 'X'; cmd2 is left as it was. */
    method AddBits(op: char, who: Mode, bits: Mode, mask: Mode, ghost prog: seq<BitCmd>)
      requires Valid() && Agrees(Contents(), prog)
      requires op == '=' || IsBitOp(op)
      modifies this, saveset
      ensures Valid() && (saveset == old(saveset) || fresh(saveset))
      ensures old(put) < old(endset) ==> saveset == old(saveset)
      ensures Agrees(Contents(), prog + BitCmds(op, who, bits, mask))
    {
      Reserve();
      var cmd := op;
      if op == '=' {
        saveset[put] := saveset[put].(cmd := '-', bits := if who != {} then who else STANDARD_BITS);
        put := put + 1;
        cmd := '+';
      }
      saveset[put] := saveset[put].(cmd := cmd, bits := Selected(who, mask) * bits);
      put := put + 1;
    }

    /** ADDCMD and addcmd for a copy command. */
    method AddCopy(source: char, who: Mode, op: char, mask: Mode, ghost prog: seq<BitCmd>)
      requires Valid() && Agrees(Contents(), prog)
      requires IsCopyOp(source)
      modifies this, saveset
      ensures Valid() && (saveset == old(saveset) || fresh(saveset))
      ensures Agrees(Contents(), prog + [CopyCmd(source, who, op, mask)])
    {
      Reserve();
      saveset[put] := CopyCmd(source, who, op, mask);
      put := put + 1;
    }
  }

  // ---------------------------------------------------------------- the parser

  lemma Suffix(p: string, i: nat)
    requires i <= |p| && NUL !in p
    ensures (p[i..] != "") == (At(p, i) != NUL)
    ensures i < |p| ==> p[i..][0] == At(p, i) && p[i..][1..] == p[i + 1..]
  {
    if i < |p| {
      assert p[i] in p;
    }
  }

  /** The loop that reads the classes of a clause. */
  method ReadWho(p: string, from: nat) returns (who: Mode, i: nat)
    requires from <= |p| && NUL !in p
    ensures from <= i <= |p| && ScanWho(p[from..], {}) == (who, p[i..])
  {
    who, i := {}, from;
    while IsClass(At(p, i))
      invariant from <= i <= |p|
      invariant ScanWho(p[from..], {}) == ScanWho(p[i..], who)
      decreases |p| - i
    {
      Suffix(p, i);
      who := who + ClassBits(At(p, i));
      i := i + 1;
    }
    Suffix(p, i);
  }

  /** The case of a class letter among the permissions. */
  method AddFlushAndCopy(buf: CommandBuffer, s: Action, source: char, mask: Mode, ghost acc: seq<BitCmd>)
    requires buf.Valid() && Agrees(buf.Contents(), acc)
    requires IsOperator(s.op) && IsCopyOp(source)
    modifies buf, buf.saveset
    ensures buf.Valid() && (buf.saveset == old(buf.saveset) || fresh(buf.saveset))
    ensures Agrees(buf.Contents(), acc + FlushAndCopy(s, source, mask))
  {
    AddFlush(buf, s, mask, acc);
    buf.AddCopy(source, s.who, s.op, mask, acc + Flush(s, mask));
    Regroup(acc, Flush(s, mask), [CopyCmd(source, s.who, s.op, mask)]);
  }

  /** The permissions read before it. */
  method AddFlush(buf: CommandBuffer, s: Action, mask: Mode, ghost acc: seq<BitCmd>)
    requires buf.Valid() && Agrees(buf.Contents(), acc) && IsOperator(s.op)
    modifies buf, buf.saveset
    ensures buf.Valid() && (buf.saveset == old(buf.saveset) || fresh(buf.saveset))
    ensures Agrees(buf.Contents(), acc + Flush(s, mask))
  {
    ghost var a, x := acc, acc;
    if s.perm != {} {
      buf.AddBits(s.op, s.who, s.perm, mask, acc);
      a := acc + BitCmds(s.op, s.who, s.perm, mask);
    }
    x := a;
    if s.op == '+' && s.permX != {} {
      buf.AddBits('X', s.who, s.permX, mask, a);
      x := a + BitCmds('X', s.who, s.permX, mask);
    }
    assert x == acc + Flush(s, mask);
  }

  /** The default case: any other character ends the action. */
  method AddEnd(buf: CommandBuffer, s: Action, mask: Mode, ghost acc: seq<BitCmd>)
    requires buf.Valid() && Agrees(buf.Contents(), acc) && IsOperator(s.op)
    modifies buf, buf.saveset
    ensures buf.Valid() && (buf.saveset == old(buf.saveset) || fresh(buf.saveset))
    ensures Agrees(buf.Contents(), acc + EndCommands(s, mask))
  {
    ghost var a, x := acc, acc;
    if s.perm != {} || (s.op == '=' && !s.equalDone) {
      buf.AddBits(s.op, s.who, s.perm, mask, acc);
      a := acc + BitCmds(s.op, s.who, s.perm, mask);
    }
    x := a;
    if s.permX != {} {
      buf.AddBits('X', s.who, s.permX, mask, a);
      x := a + BitCmds('X', s.who, s.permX, mask);
    }
    assert x == acc + EndCommands(s, mask);
  }

  /** The loop over the permission letters of one action. */
  method ReadPerms(buf: CommandBuffer, p: string, from: nat, op: char, who0: Mode, mask: Mode, ghost acc: seq<BitCmd>)
    returns (i: nat, who: Mode, ghost prog: seq<BitCmd>)
    requires buf.Valid() && Agrees(buf.Contents(), acc)
    requires from <= |p| && NUL !in p && IsOperator(op)
    modifies buf, buf.saveset
    ensures buf.Valid() && (buf.saveset == old(buf.saveset) || fresh(buf.saveset))
    ensures from <= i <= |p|
    ensures ScanPerms(acc, p[from..], Start(op, who0), mask) == (prog, who, p[i..])
    ensures Agrees(buf.Contents(), prog)
  {
    ghost var goal := ScanPerms(acc, p[from..], Start(op, who0), mask);
    var s := Start(op, who0);
    i, prog := from, acc;
    while IsPermLetter(At(p, i)) || IsCopyOp(At(p, i))
      invariant from <= i <= |p| && s.op == op
      invariant buf.Valid() && (buf.saveset == old(buf.saveset) || fresh(buf.saveset))
      invariant Agrees(buf.Contents(), prog)
      invariant ScanPerms(prog, p[i..], s, mask) == goal
      decreases |p| - i
    {
      s, prog := ReadLetter(buf, p, i, s, mask, prog);
      i := i + 1;
    }
    Suffix(p, i);
    AddEnd(buf, s, mask, prog);
    prog := prog + EndCommands(s, mask);
    who := s.who;
  }

  /** One turn of the loop. */
  method ReadLetter(buf: CommandBuffer, p: string, i: nat, s0: Action, mask: Mode, ghost acc: seq<BitCmd>)
    returns (s: Action, ghost prog: seq<BitCmd>)
    requires buf.Valid() && Agrees(buf.Contents(), acc) && IsOperator(s0.op)
    requires i <= |p| && NUL !in p && (IsPermLetter(At(p, i)) || IsCopyOp(At(p, i)))
    modifies buf, buf.saveset
    ensures buf.Valid() && (buf.saveset == old(buf.saveset) || fresh(buf.saveset))
    ensures i < |p| && s.op == s0.op && Agrees(buf.Contents(), prog)
    ensures ScanPerms(prog, p[i + 1..], s, mask) == ScanPerms(acc, p[i..], s0, mask)
  {
    Suffix(p, i);
    var c := At(p, i);
    if IsPermLetter(c) {
      s, prog := WithLetter(s0, c), acc;
    } else {
      AddFlushAndCopy(buf, s0, c, mask, acc);
      s, prog := AfterCopy(s0), acc + FlushAndCopy(s0, c, mask);
    }
  }

  datatype Next = Bad | End | Again

  /** One action from its operator on, with the classes of the next clause when a comma follows. */
  method ReadAction(buf: CommandBuffer, p: string, from: nat, who0: Mode, mask: Mode, ghost acc: seq<BitCmd>)
    returns (next: Next, i: nat, who: Mode, ghost prog: seq<BitCmd>)
    requires buf.Valid() && Agrees(buf.Contents(), acc)
    requires from <= |p| && NUL !in p
    modifies buf, buf.saveset
    ensures buf.Valid() && (buf.saveset == old(buf.saveset) || fresh(buf.saveset))
    ensures next.Bad? ==> CompileActions(acc, p[from..], who0, mask) == None
    ensures next.End? ==> CompileActions(acc, p[from..], who0, mask) == Some(prog)
    ensures !next.Bad? ==> Agrees(buf.Contents(), prog)
    ensures next.Again? ==> from < i <= |p|
    ensures next.Again? ==> CompileActions(acc, p[from..], who0, mask) == CompileActions(prog, p[i..], who, mask)
  {
    Suffix(p, from);
    var op := At(p, from);
    if !IsOperator(op) {
      return Bad, from, who0, acc;
    }
    i, who, prog := ReadPerms(buf, p, from + 1, op, who0, mask, acc);
    ActionStep(acc, p[from..], who0, mask, prog, who, p[i..]);
    Suffix(p, i);
    if At(p, i) == NUL {
      return End, i, who, prog;
    }
    next := Again;
    who, i := ReadOn(p, i, who, prog, mask);
  }

  /** Behind a comma come the classes of the next clause; anything else starts the next action. */
  method ReadOn(p: string, from: nat, who0: Mode, ghost prog: seq<BitCmd>, mask: Mode) returns (who: Mode, i: nat)
    requires from < |p| && NUL !in p
    ensures from <= i <= |p|
    ensures CompileActions(prog, p[i..], who, mask) == GoOn(prog, p[from..], who0, mask)
  {
    who, i := who0, from;
    assert p[from..][1..] == p[from + 1..];
    if p[from] == ',' {
      who, i := ReadWho(p, from + 1);
    }
  }

  function GoOn(cmds: seq<BitCmd>, rest: string, who: Mode, mask: Mode): Option<seq<BitCmd>>
    requires rest != ""
  {
    if rest[0] == ',' then Compile(cmds, rest[1..], mask) else CompileActions(cmds, rest, who, mask)
  }

  lemma ActionStep(acc: seq<BitCmd>, p: string, who: Mode, mask: Mode, cmds: seq<BitCmd>, who': Mode, rest: string)
    requires p != "" && IsOperator(p[0]) && ScanPerms(acc, p[1..], Start(p[0], who), mask) == (cmds, who', rest)
    ensures CompileActions(acc, p, who, mask) == if rest == "" then Some(cmds) else GoOn(cmds, rest, who', mask)
  {}

  /** The loop over clauses: fills the buffer with the program of a symbolic string. */
  method ReadClauses(buf: CommandBuffer, p: string, mask: Mode) returns (ok: bool, ghost prog: seq<BitCmd>)
    requires buf.Valid() && buf.Contents() == [] && NUL !in p
    modifies buf, buf.saveset
    ensures buf.Valid() && (buf.saveset == old(buf.saveset) || fresh(buf.saveset))
    ensures Compile([], p, mask) == if ok then Some(prog) else None
    ensures ok ==> Agrees(buf.Contents(), prog)
  {
    var who, i := ReadWho(p, 0);
    assert p[0..] == p;
    ghost var goal := CompileActions([], p[i..], who, mask);
    prog := [];
    var next := Again;
    while next.Again?
      invariant next.Again? ==> 0 <= i <= |p|
      invariant buf.Valid() && (buf.saveset == old(buf.saveset) || fresh(buf.saveset))
      invariant !next.Bad? ==> Agrees(buf.Contents(), prog)
      invariant next.Again? ==> CompileActions(prog, p[i..], who, mask) == goal
      invariant next.End? ==> goal == Some(prog)
      invariant next.Bad? ==> goal == None
      decreases next.Again?, |p| - i
    {
      next, i, who, prog := ReadAction(buf, p, i, who, mask, prog);
    }
    ok := next.End?;
  }

  // ---------------------------------------------------------------- only commands are compiled

  predicate AllCommands(s: seq<BitCmd>) { forall i :: 0 <= i < |s| ==> IsBitOp(s[i].cmd) || IsCopyOp(s[i].cmd) }

  lemma {:induction false} ScanGivesCommands(acc: seq<BitCmd>, p: string, s: Action, mask: Mode)
    requires AllCommands(acc) && IsOperator(s.op)
    ensures AllCommands(ScanPerms(acc, p, s, mask).0)
    decreases |p|
  {
    if p != "" && IsPermLetter(p[0]) {
      ScanGivesCommands(acc, p[1..], WithLetter(s, p[0]), mask);
    } else if p != "" && IsCopyOp(p[0]) {
      ScanGivesCommands(acc + FlushAndCopy(s, p[0], mask), p[1..], AfterCopy(s), mask);
    }
  }

  lemma {:induction false} ActionsGiveCommands(acc: seq<BitCmd>, p: string, who: Mode, mask: Mode)
    requires AllCommands(acc)
    ensures CompileActions(acc, p, who, mask).Some? ==> AllCommands(CompileActions(acc, p, who, mask).value)
    decreases |p|, 0
  {
    if p != "" && IsOperator(p[0]) {
      var (cmds, who', rest) := ScanPerms(acc, p[1..], Start(p[0], who), mask);
      ScanGivesCommands(acc, p[1..], Start(p[0], who), mask);
      if rest != "" && rest[0] == ',' {
        CompileGivesCommands(cmds, rest[1..], mask);
      } else if rest != "" {
        ActionsGiveCommands(cmds, rest, who', mask);
      }
    }
  }

  lemma {:induction false} CompileGivesCommands(acc: seq<BitCmd>, p: string, mask: Mode)
    requires AllCommands(acc)
    ensures Compile(acc, p, mask).Some? ==> AllCommands(Compile(acc, p, mask).value)
    decreases |p|, 1
  {
    var (who, rest) := ScanWho(p, {});
    ActionsGiveCommands(acc, rest, who, mask);
  }

  lemma {:induction false} CompressKeepsCommands(p: Pending, body: seq<BitCmd>)
    requires AllCommands(body)
    ensures AllCommands(Compress(p, body))
    decreases |body|
  {
    if body != [] {
      if IsBitOp(body[0].cmd) {
        CompressKeepsCommands(Absorb(p, body[0]), body[1..]);
      } else {
        CompressKeepsCommands(NOTHING, body[1..]);
      }
    }
  }

  // ---------------------------------------------------------------- numeric modes

  predicate IsOctal(c: char) { '0' <= c <= '7' }

  /** strtol(p, NULL, 8) for a string that starts with a digit. */
  function OctalPrefix(p: string, acc: nat): nat {
    if p != "" && IsOctal(p[0]) then OctalPrefix(p[1..], 8 * acc + (p[0] as nat - '0' as nat)) else acc
  }

  const NUMERIC_BITS: Mode := STANDARD_BITS + S_ISTXT

  function BitsOf(v: nat): Mode {
    set b: nat | b < 12 && v / Pow2(b) % 2 == 1
  }

  /** The bits of a numeric mode.  The first digit may be 8 or 9: strtol then reads nothing, and the
      loop that refuses non-octal digits starts at the second character. */
  function NumericMode(p: string): Option<Mode>
    requires p != "" && IsDigit(p[0])
  {
    if OctalPrefix(p, 0) < 4096 && (forall c :: c in p[1..] ==> IsOctal(c)) then Some(BitsOf(OctalPrefix(p, 0))) else None
  }

  // ---------------------------------------------------------------- setmode

  /** The branch of setmode for a leading digit: two commands, and no terminator. */
  method SetNumericMode(p: string, mask: Mode) returns (r: Option<array<BitCmd>>)
    requires p != "" && IsDigit(p[0])
    ensures r.None? <==> NumericMode(p).None?
    ensures r.Some? ==> fresh(r.value) && r.value.Length == SET_LEN + 2
    ensures r.Some? ==> Agrees(r.value[..2], BitCmds('=', NUMERIC_BITS, NumericMode(p).value, mask))
  {
    var buf := new CommandBuffer();
    var perml := OctalPrefix(p, 0);
    if perml >= 4096 {
      return None;
    }
    var perm := BitsOf(perml);
    var i := 1;
    while i < |p|
      invariant 1 <= i <= |p|
      invariant forall k :: 1 <= k < i ==> IsOctal(p[k])
    {
      if !IsOctal(p[i]) {
        assert p[i] in p[1..];
        return None;
      }
      i := i + 1;
    }
    buf.AddBits('=', NUMERIC_BITS, perm, mask, []);
    assert [] + BitCmds('=', NUMERIC_BITS, perm, mask) == BitCmds('=', NUMERIC_BITS, perm, mask);
    r := Some(buf.saveset);
  }

  /** The end of setmode: writes the terminator and compresses. */
  method Finish(a: array<BitCmd>, end: nat, ghost prog: seq<BitCmd>) returns (ghost n: nat)
    requires end < a.Length && Agrees(a[..end], prog) && AllCommands(prog)
    modifies a
    ensures Terminated(a[..], 0, n) && a[..n] == Compress(NOTHING, prog)
  {
    ghost var c := Compress(NOTHING, prog);
    a[end] := a[end].(cmd := NUL);
    AgreeingListsCompressAlike(NOTHING, a[..end], prog);
    CompressKeepsCommands(NOTHING, prog);
    ghost var t := a[end];
    CompressMode(a, end);
    n := |c|;
    assert a[..][..n] == c && a[..][n] == t;
    assert forall i :: 0 <= i < n ==> a[i] == c[i];
  }

  /** The branch of setmode for symbolic strings: the compressed program, terminated. */
  method SetSymbolicMode(p: string, mask: Mode) returns (r: Option<array<BitCmd>>, ghost n: nat)
    requires NUL !in p
    ensures r.None? <==> Compile([], p, mask).None?
    ensures r.Some? ==> fresh(r.value) && Terminated(r.value[..], 0, n)
    ensures r.Some? ==> r.value[..n] == Compress(NOTHING, Compile([], p, mask).value)
  {
    n := 0;
    var buf := new CommandBuffer();
    var ok;
    ghost var prog;
    ok, prog := ReadClauses(buf, p, mask);
    if !ok {
      return None, 0;
    }
    CompileGivesCommands([], p, mask);
    n := Finish(buf.saveset, buf.put, prog);
    r := Some(buf.saveset);
  }

  /** setmode.  A symbolic string gives the compressed program of its clauses, terminated inside the
      array; a numeric one gives two commands and no terminator. */
  method MakeMode(p: string, umask: Mode) returns (r: Option<array<BitCmd>>, ghost n: nat)
    requires NUL !in p
    ensures p == "" ==> r.None?
    ensures p != "" && !IsDigit(p[0]) ==> (r.None? <==> Compile([], p, ALL_BITS - umask).None?)
    ensures p != "" && !IsDigit(p[0]) && r.Some? ==>
      Terminated(r.value[..], 0, n) && r.value[..n] == Compress(NOTHING, Compile([], p, ALL_BITS - umask).value)
    ensures p != "" && IsDigit(p[0]) ==> (r.None? <==> NumericMode(p).None?)
    ensures p != "" && IsDigit(p[0]) && r.Some? ==>
      r.value.Length == SET_LEN + 2
      && Agrees(r.value[..2], BitCmds('=', NUMERIC_BITS, NumericMode(p).value, ALL_BITS - umask))
  {
    n := 0;
    if p == "" {
      r := None;
    } else if IsDigit(p[0]) {
      r := SetNumericMode(p, ALL_BITS - umask);
    } else {
      r, n := SetSymbolicMode(p, ALL_BITS - umask);
    }
  }

  // ---------------------------------------------------------------- what a symbolic mode means

  /** The effect of granting, refusing or assigning bits. */
  function BitsEffect(op: char, who: Mode, bits: Mode, mask: Mode, omode: Mode, m: Mode): Mode {
    var chosen := Selected(who, mask) * bits;
    if op == '=' then m - (if who != {} then who else STANDARD_BITS) + chosen
    else if op == '-' then m - chosen
    else if op == '+' || Executable(omode) then m + chosen
    else m
  }

  /** What copying the permissions v into a class makes of its own permissions f. */
  function CopiedField(op: char, f: Mode, v: Mode, allowed: Mode): Mode {
    if op == '+' then f + v * allowed
    else if op == '-' then f - v * allowed
    else f - allowed + v * allowed
  }

  predicate Reached(who: Mode, class_: char) { who == {} || Base(class_) + 2 in who }

  /** Copying one class's permissions, said class by class: a class the clause does not reach keeps
      its permissions, one it reaches gets the source's; without classes the umask still applies. */
  function CopiedClass(source: char, who: Mode, op: char, mask: Mode, m: Mode, class_: char): Mode {
    var allowed := if who != {} then S_IRWXO else Field(mask, class_);
    if Reached(who, class_) then CopiedField(op, Field(m, class_), Field(m, source), allowed) else Field(m, class_)
  }

  function CopyEffect(source: char, who: Mode, op: char, mask: Mode, m: Mode): Mode {
    m - (S_IRWXU + S_IRWXG + S_IRWXO)
    + Shifted(CopiedClass(source, who, op, mask, m, 'u'), 'u')
    + Shifted(CopiedClass(source, who, op, mask, m, 'g'), 'g')
    + Shifted(CopiedClass(source, who, op, mask, m, 'o'), 'o')
  }

  function FlushEffect(s: Action, source: char, mask: Mode, omode: Mode, m: Mode): Mode {
    var m1 := if s.perm != {} then BitsEffect(s.op, s.who, s.perm, mask, omode, m) else m;
    var m2 := if s.op == '+' && s.permX != {} then BitsEffect('X', s.who, s.permX, mask, omode, m1) else m1;
    CopyEffect(source, s.who, s.op, mask, m2)
  }

  function EndEffect(s: Action, mask: Mode, omode: Mode, m: Mode): Mode {
    var m1 := if s.perm != {} || (s.op == '=' && !s.equalDone) then BitsEffect(s.op, s.who, s.perm, mask, omode, m) else m;
    if s.permX != {} then BitsEffect('X', s.who, s.permX, mask, omode, m1) else m1
  }

  function PermsMeaning(p: string, s: Action, mask: Mode, omode: Mode, m: Mode): (r: (Mode, Mode, string))
    ensures |r.2| <= |p|
    decreases |p|
  {
    if p != "" && IsPermLetter(p[0]) then PermsMeaning(p[1..], WithLetter(s, p[0]), mask, omode, m)
    else if p != "" && IsCopyOp(p[0]) then
      PermsMeaning(p[1..], AfterCopy(s), mask, omode, FlushEffect(s, p[0], mask, omode, m))
    else (EndEffect(s, mask, omode, m), s.who, p)
  }

  function ActionsMeaning(p: string, who: Mode, mask: Mode, omode: Mode, m: Mode): Option<Mode>
    decreases |p|, 0
  {
    if p == "" || !IsOperator(p[0]) then None
    else
      var (m', who', rest) := PermsMeaning(p[1..], Start(p[0], who), mask, omode, m);
      if rest == "" then Some(m')
      else if rest[0] == ',' then Meaning(rest[1..], mask, omode, m')
      else ActionsMeaning(rest, who', mask, omode, m')
  }

  /** The mode a symbolic string makes of mode m; omode decides the 'X' letters. */
  function Meaning(p: string, mask: Mode, omode: Mode, m: Mode): Option<Mode>
    decreases |p|, 1
  {
    var (who, rest) := ScanWho(p, {});
    ActionsMeaning(rest, who, mask, omode, m)
  }

  lemma {:induction false} RunAppends(a: seq<BitCmd>, b: seq<BitCmd>, omode: Mode, m: Mode)
    requires AllCommands(a)
    ensures Run(a + b, omode, m) == Run(b, omode, Run(a, omode, m))
  {
    if a == [] {
      assert a + b == b;
    } else {
      assert (a + b)[1..] == a[1..] + b;
      RunAppends(a[1..], b, omode, if IsCopyOp(a[0].cmd) then CopyStep(a[0], m) else BitStep(a[0], omode, m));
    }
  }

  lemma RunSingle(c: BitCmd, omode: Mode, m: Mode)
    requires IsBitOp(c.cmd) || IsCopyOp(c.cmd)
    ensures Run([c], omode, m) == if IsCopyOp(c.cmd) then CopyStep(c, m) else BitStep(c, omode, m)
  {
    assert [c][1..] == [];
  }

  lemma BitsRun(op: char, who: Mode, bits: Mode, mask: Mode, omode: Mode, m: Mode)
    requires op == '=' || IsBitOp(op)
    ensures AllCommands(BitCmds(op, who, bits, mask))
    ensures Run(BitCmds(op, who, bits, mask), omode, m) == BitsEffect(op, who, bits, mask, omode, m)
  {
    var cmds := BitCmds(op, who, bits, mask);
    if op == '=' {
      assert cmds == [cmds[0]] + [cmds[1]];
      RunAppends([cmds[0]], [cmds[1]], omode, m);
      RunSingle(cmds[0], omode, m);
      RunSingle(cmds[1], omode, BitStep(cmds[0], omode, m));
    } else {
      RunSingle(cmds[0], omode, m);
    }
  }

  function FlagOf(class_: char): Cmd2 { if class_ == 'u' then UBITS else if class_ == 'g' then GBITS else OBITS }

  predicate InClass(class_: char, b: nat) { IsCopyOp(class_) && Base(class_) <= b < Base(class_) + 3 }

  lemma InShifted(v: Mode, class_: char, b: nat)
    ensures b in Shifted(v, class_) <==> Base(class_) <= b < Base(class_) + 3 && b - Base(class_) in v
  {}

  lemma FieldIsShort(m: Mode, class_: char)
    ensures Field(m, class_) <= S_IRWXO
    ensures forall k {:trigger k in Field(m, class_)} :: 0 <= k < 3 ==> (k in Field(m, class_) <==> k + Base(class_) in m)
  {}

  /** One bit of a mode after a copy command. */
  lemma StepBit(c: BitCmd, m: Mode, class_: char, b: nat)
    requires InClass(class_, b)
    ensures var reached := FlagOf(class_) in c.cmd2 && b in c.bits;
            var copied := b - Base(class_) in Field(m, c.cmd);
            b in CopyStep(c, m) <==>
              (b in m && !(reached && CLR in c.cmd2 && (SET in c.cmd2 || copied)))
              || (reached && SET in c.cmd2 && copied)
  {
    var value := Field(m, c.cmd);
    FieldIsShort(m, c.cmd);
    var clrval := if SET in c.cmd2 then S_IRWXO else value;
    InShifted(value, 'u', b);
    InShifted(value, 'g', b);
    InShifted(clrval, 'u', b);
    InShifted(clrval, 'g', b);
  }

  lemma StepHighBit(c: BitCmd, m: Mode, b: nat)
    requires b >= 9
    ensures b in CopyStep(c, m) <==> b in m
  {
    FieldIsShort(m, c.cmd);
  }

  lemma JoinedBit(m: Mode, u: Mode, g: Mode, o: Mode, class_: char, b: nat)
    requires InClass(class_, b)
    ensures b in m - (S_IRWXU + S_IRWXG + S_IRWXO) + Shifted(u, 'u') + Shifted(g, 'g') + Shifted(o, 'o') <==>
            b - Base(class_) in (if class_ == 'u' then u else if class_ == 'g' then g else o)
  {
    InShifted(u, 'u', b);
    InShifted(g, 'g', b);
    InShifted(o, 'o', b);
  }

  lemma JoinedHighBit(m: Mode, u: Mode, g: Mode, o: Mode, b: nat)
    requires b >= 9
    ensures b in m - (S_IRWXU + S_IRWXG + S_IRWXO) + Shifted(u, 'u') + Shifted(g, 'g') + Shifted(o, 'o') <==> b in m
  {
    InShifted(u, 'u', b);
    InShifted(g, 'g', b);
    InShifted(o, 'o', b);
  }

  lemma FlagsOfCopy(who: Mode, op: char, class_: char)
    requires IsOperator(op) && IsCopyOp(class_)
    ensures FlagOf(class_) in CopyFlags(who, op) <==> Reached(who, class_)
    ensures SET in CopyFlags(who, op) <==> op != '-'
    ensures CLR in CopyFlags(who, op) <==> op != '+'
  {}

  lemma CopiedClassBit(source: char, who: Mode, op: char, mask: Mode, m: Mode, t: char, k: nat)
    requires k < 3
    ensures var allowed := who != {} || k + Base(t) in mask;
            var copied := k in Field(m, source);
            k in CopiedClass(source, who, op, mask, m, t) <==>
              if !Reached(who, t) then k + Base(t) in m
              else if op == '+' then k + Base(t) in m || (copied && allowed)
              else if op == '-' then k + Base(t) in m && !(copied && allowed)
              else (k + Base(t) in m && !allowed) || (copied && allowed)
  {
    FieldIsShort(m, t);
    FieldIsShort(mask, t);
    assert k in Field(m, t) <==> k + Base(t) in m;
    assert k in Field(mask, t) <==> k + Base(t) in mask;
  }

  lemma CopyBit(source: char, who: Mode, op: char, mask: Mode, m: Mode, t: char, b: nat)
    requires IsCopyOp(source) && IsOperator(op) && InClass(t, b)
    ensures b in CopyStep(CopyCmd(source, who, op, mask), m) <==>
            b - Base(t) in CopiedClass(source, who, op, mask, m, t)
  {
    StepBit(CopyCmd(source, who, op, mask), m, t, b);
    FlagsOfCopy(who, op, t);
    CopiedClassBit(source, who, op, mask, m, t, b - Base(t));
    assert b in ALL_BITS;
  }

  /** A copy command, with its masks and flags, is copying class by class. */
  lemma CopyRun(source: char, who: Mode, op: char, mask: Mode, m: Mode)
    requires IsCopyOp(source) && IsOperator(op)
    ensures CopyStep(CopyCmd(source, who, op, mask), m) == CopyEffect(source, who, op, mask, m)
  {
    var r, e := CopyStep(CopyCmd(source, who, op, mask), m), CopyEffect(source, who, op, mask, m);
    forall b: nat ensures b in r <==> b in e {
      EffectBit(source, who, op, mask, m, b);
    }
  }

  lemma EffectBit(source: char, who: Mode, op: char, mask: Mode, m: Mode, b: nat)
    requires IsCopyOp(source) && IsOperator(op)
    ensures b in CopyStep(CopyCmd(source, who, op, mask), m) <==> b in CopyEffect(source, who, op, mask, m)
  {
    var u := CopiedClass(source, who, op, mask, m, 'u');
    var g := CopiedClass(source, who, op, mask, m, 'g');
    var o := CopiedClass(source, who, op, mask, m, 'o');
    if b >= 9 {
      StepHighBit(CopyCmd(source, who, op, mask), m, b);
      JoinedHighBit(m, u, g, o, b);
    } else {
      var t := if b < 3 then 'o' else if b < 6 then 'g' else 'u';
      CopyBit(source, who, op, mask, m, t, b);
      JoinedBit(m, u, g, o, t, b);
    }
  }

  lemma FlushRun(s: Action, source: char, mask: Mode, omode: Mode, m: Mode)
    requires IsOperator(s.op) && IsCopyOp(source)
    ensures AllCommands(FlushAndCopy(s, source, mask))
    ensures Run(FlushAndCopy(s, source, mask), omode, m) == FlushEffect(s, source, mask, omode, m)
  {
    var a := if s.perm != {} then BitCmds(s.op, s.who, s.perm, mask) else [];
    var b := if s.op == '+' && s.permX != {} then BitCmds('X', s.who, s.permX, mask) else [];
    var c := CopyCmd(source, s.who, s.op, mask);
    BitsRun(s.op, s.who, s.perm, mask, omode, m);
    var m1 := Run(a, omode, m);
    BitsRun('X', s.who, s.permX, mask, omode, m1);
    var m2 := Run(b, omode, m1);
    RunAppends(a, b, omode, m);
    RunAppends(a + b, [c], omode, m);
    RunSingle(c, omode, m2);
    CopyRun(source, s.who, s.op, mask, m2);
  }

  lemma EndRun(s: Action, mask: Mode, omode: Mode, m: Mode)
    requires IsOperator(s.op)
    ensures AllCommands(EndCommands(s, mask))
    ensures Run(EndCommands(s, mask), omode, m) == EndEffect(s, mask, omode, m)
  {
    var a := if s.perm != {} || (s.op == '=' && !s.equalDone) then BitCmds(s.op, s.who, s.perm, mask) else [];
    var b := if s.permX != {} then BitCmds('X', s.who, s.permX, mask) else [];
    BitsRun(s.op, s.who, s.perm, mask, omode, m);
    BitsRun('X', s.who, s.permX, mask, omode, Run(a, omode, m));
    RunAppends(a, b, omode, m);
  }

  lemma {:induction false} PermsCorrect(acc: seq<BitCmd>, p: string, s: Action, mask: Mode, omode: Mode, m: Mode)
    requires AllCommands(acc) && IsOperator(s.op)
    ensures var (cmds, who, rest) := ScanPerms(acc, p, s, mask);
            AllCommands(cmds) && PermsMeaning(p, s, mask, omode, Run(acc, omode, m)) == (Run(cmds, omode, m), who, rest)
    decreases |p|
  {
    var m0 := Run(acc, omode, m);
    if p != "" && IsPermLetter(p[0]) {
      PermsCorrect(acc, p[1..], WithLetter(s, p[0]), mask, omode, m);
    } else if p != "" && IsCopyOp(p[0]) {
      var more := FlushAndCopy(s, p[0], mask);
      FlushRun(s, p[0], mask, omode, m0);
      RunAppends(acc, more, omode, m);
      PermsCorrect(acc + more, p[1..], AfterCopy(s), mask, omode, m);
    } else {
      EndRun(s, mask, omode, m0);
      RunAppends(acc, EndCommands(s, mask), omode, m);
    }
  }

  predicate Matches(prog: Option<seq<BitCmd>>, meaning: Option<Mode>, omode: Mode, m: Mode) {
    if prog.None? then meaning.None? else AllCommands(prog.value) && meaning == Some(Run(prog.value, omode, m))
  }

  lemma {:induction false} ActionsCorrect(acc: seq<BitCmd>, p: string, who: Mode, mask: Mode, omode: Mode, m: Mode)
    requires AllCommands(acc)
    ensures Matches(CompileActions(acc, p, who, mask), ActionsMeaning(p, who, mask, omode, Run(acc, omode, m)), omode, m)
    decreases |p|, 0
  {
    if p != "" && IsOperator(p[0]) {
      var s := Start(p[0], who);
      var (cmds, who', rest) := ScanPerms(acc, p[1..], s, mask);
      PermsCorrect(acc, p[1..], s, mask, omode, m);
      if rest != "" && rest[0] == ',' {
        CompileCorrect(cmds, rest[1..], mask, omode, m);
      } else if rest != "" {
        ActionsCorrect(cmds, rest, who', mask, omode, m);
      }
    }
  }

  /** The compiler is correct: a symbolic string compiles exactly when it has a meaning, and running
      its commands is that meaning. */
  lemma {:induction false} CompileCorrect(acc: seq<BitCmd>, p: string, mask: Mode, omode: Mode, m: Mode)
    requires AllCommands(acc)
    ensures Matches(Compile(acc, p, mask), Meaning(p, mask, omode, Run(acc, omode, m)), omode, m)
    decreases |p|, 1
  {
    var (who, rest) := ScanWho(p, {});
    ActionsCorrect(acc, rest, who, mask, omode, m);
  }

  /** setmode followed by getmode, as xinstall.c and the umask command call them: for a symbolic
      string the whole chain of parser, optimiser and interpreter computes the string's meaning. */
  method ChangeMode(p: string, umask: Mode, omode: Mode) returns (r: Option<Mode>)
    requires NUL !in p && p != "" && !IsDigit(p[0])
    ensures r == Meaning(p, ALL_BITS - umask, omode, omode)
  {
    ghost var mask := ALL_BITS - umask;
    CompileCorrect([], p, mask, omode, omode);
    var bbox;
    ghost var n;
    bbox, n := MakeMode(p, umask);
    if bbox.None? {
      return None;
    }
    var mode := GetMode(bbox.value, omode);
    RunOfCompressed(bbox.value[..], n, Compile([], p, mask).value, omode);
    r := Some(mode);
  }

  lemma RunOfCompressed(cells: seq<BitCmd>, n: nat, prog: seq<BitCmd>, omode: Mode)
    requires Terminated(cells, 0, n) && cells[..n] == Compress(NOTHING, prog)
    ensures Run(cells, omode, omode) == Run(prog, omode, omode)
  {
    assert cells == cells[..n] + cells[n..];
    RunStopsAtTerminator(cells[..n], cells[n..], omode, omode);
    CompressPreservesMeaning(NOTHING, prog, omode, omode);
    assert Apply(NOTHING, omode, omode) == omode;
  }

  // ---------------------------------------------------------------- clauses are compiled one by one

  lemma {:induction false} ScanAfter(acc: seq<BitCmd>, p: string, s: Action, mask: Mode)
    ensures var (cmds, who, rest) := ScanPerms([], p, s, mask);
            ScanPerms(acc, p, s, mask) == (acc + cmds, who, rest)
    decreases |p|
  {
    if p != "" && IsPermLetter(p[0]) {
      ScanAfter(acc, p[1..], WithLetter(s, p[0]), mask);
    } else if p != "" && IsCopyOp(p[0]) {
      var more := FlushAndCopy(s, p[0], mask);
      ScanAfter(acc + more, p[1..], AfterCopy(s), mask);
      ScanAfter(more, p[1..], AfterCopy(s), mask);
      assert [] + more == more;
      var (cmds, _, _) := ScanPerms([], p[1..], AfterCopy(s), mask);
      assert acc + more + cmds == acc + (more + cmds);
    } else {
      assert [] + EndCommands(s, mask) == EndCommands(s, mask);
    }
  }

  function After(acc: seq<BitCmd>, r: Option<seq<BitCmd>>): Option<seq<BitCmd>> {
    if r.None? then None else Some(acc + r.value)
  }

  lemma {:induction false} ActionsAfter(acc: seq<BitCmd>, p: string, who: Mode, mask: Mode)
    ensures CompileActions(acc, p, who, mask) == After(acc, CompileActions([], p, who, mask))
    decreases |p|, 0
  {
    if p != "" && IsOperator(p[0]) {
      var s := Start(p[0], who);
      ScanAfter(acc, p[1..], s, mask);
      var (cmds, who', rest) := ScanPerms([], p[1..], s, mask);
      if rest != "" && rest[0] == ',' {
        CompileAfter(acc + cmds, rest[1..], mask);
        CompileAfter(cmds, rest[1..], mask);
        AfterTwice(acc, cmds, Compile([], rest[1..], mask));
      } else if rest != "" {
        ActionsAfter(acc + cmds, rest, who', mask);
        ActionsAfter(cmds, rest, who', mask);
        AfterTwice(acc, cmds, CompileActions([], rest, who', mask));
      }
    }
  }

  lemma AfterTwice(a: seq<BitCmd>, b: seq<BitCmd>, r: Option<seq<BitCmd>>)
    ensures After(a + b, r) == After(a, After(b, r))
  {
    if r.Some? {
      assert a + b + r.value == a + (b + r.value);
    }
  }

  lemma {:induction false} CompileAfter(acc: seq<BitCmd>, p: string, mask: Mode)
    ensures Compile(acc, p, mask) == After(acc, Compile([], p, mask))
    decreases |p|, 1
  {
    var (who, rest) := ScanWho(p, {});
    ActionsAfter(acc, rest, who, mask);
  }

  lemma {:induction false} WhoBeforeComma(p: string, q: string, who: Mode)
    ensures var (w, rest) := ScanWho(p, who); ScanWho(p + "," + q, who) == (w, rest + "," + q)
    decreases |p|
  {
    if p == "" {
      assert p + "," + q == "," + q;
    } else if IsClass(p[0]) {
      assert (p + "," + q)[1..] == p[1..] + "," + q;
      WhoBeforeComma(p[1..], q, who + ClassBits(p[0]));
    }
  }

  lemma {:induction false} PermsBeforeComma(acc: seq<BitCmd>, p: string, q: string, s: Action, mask: Mode)
    ensures var (cmds, w, rest) := ScanPerms(acc, p, s, mask);
            ScanPerms(acc, p + "," + q, s, mask) == (cmds, w, rest + "," + q)
    decreases |p|
  {
    if p == "" {
      assert p + "," + q == "," + q;
    } else {
      assert (p + "," + q)[1..] == p[1..] + "," + q;
      if IsPermLetter(p[0]) {
        PermsBeforeComma(acc, p[1..], q, WithLetter(s, p[0]), mask);
      } else if IsCopyOp(p[0]) {
        PermsBeforeComma(acc + FlushAndCopy(s, p[0], mask), p[1..], q, AfterCopy(s), mask);
      }
    }
  }

  lemma {:induction false} ActionsBeforeComma(acc: seq<BitCmd>, p: string, q: string, who: Mode, mask: Mode)
    requires CompileActions(acc, p, who, mask).Some?
    ensures CompileActions(acc, p + "," + q, who, mask) == Compile(CompileActions(acc, p, who, mask).value, q, mask)
    decreases |p|, 0
  {
    var s := Start(p[0], who);
    var (cmds, who', rest) := ScanPerms(acc, p[1..], s, mask);
    assert (p + "," + q)[1..] == p[1..] + "," + q;
    PermsBeforeComma(acc, p[1..], q, s, mask);
    if rest == "" {
      assert (rest + "," + q)[1..] == q;
    } else {
      assert (rest + "," + q)[1..] == rest[1..] + "," + q;
      if rest[0] == ',' {
        ClauseBeforeComma(cmds, rest[1..], q, mask);
      } else {
        ActionsBeforeComma(cmds, rest, q, who', mask);
      }
    }
  }

  lemma {:induction false} ClauseBeforeComma(acc: seq<BitCmd>, p: string, q: string, mask: Mode)
    requires Compile(acc, p, mask).Some?
    ensures Compile(acc, p + "," + q, mask) == Compile(Compile(acc, p, mask).value, q, mask)
    decreases |p|, 1
  {
    var (who, rest) := ScanWho(p, {});
    WhoBeforeComma(p, q, {});
    ActionsBeforeComma(acc, rest, q, who, mask);
  }

  /** Clauses compile to the concatenation of their commands. */
  lemma ClausesConcatenate(p: string, q: string, mask: Mode)
    requires Compile([], p, mask).Some?
    ensures Compile([], p + "," + q, mask) ==
            if Compile([], q, mask).None? then None
            else Some(Compile([], p, mask).value + Compile([], q, mask).value)
  {
    ClauseBeforeComma([], p, q, mask);
    CompileAfter(Compile([], p, mask).value, q, mask);
  }

  // ---------------------------------------------------------------- numeric modes have no terminator

  /** Memory that starts with the two commands of a numeric mode. */
  predicate NumericList(cells: seq<BitCmd>, perm: Mode, mask: Mode) {
    |cells| > 2 && Agrees(cells[..2], BitCmds('=', NUMERIC_BITS, perm, mask))
  }

  lemma NumericRun(cells: seq<BitCmd>, perm: Mode, mask: Mode, omode: Mode)
    requires NumericList(cells, perm, mask)
    ensures Run(cells, omode, omode) == Run(cells[2..], omode, omode - NUMERIC_BITS + NUMERIC_BITS * perm)
  {
    assert cells[..2][0] == cells[0] && cells[..2][1] == cells[1];
    assert cells[1..][1..] == cells[2..];
    assert cells[1..][0] == cells[1];
  }

  /** The list of a numeric mode does what the number says when the cell after its two commands
      happens to be no command. */
  lemma NumericModeThenNoCommand(cells: seq<BitCmd>, perm: Mode, mask: Mode, omode: Mode)
    requires perm <= NUMERIC_BITS && NumericList(cells, perm, mask)
    requires !IsBitOp(cells[2].cmd) && !IsCopyOp(cells[2].cmd)
    ensures Run(cells, omode, omode) == omode - NUMERIC_BITS + perm
  {
    NumericRun(cells, perm, mask, omode);
    assert NUMERIC_BITS * perm == perm;
  }

  /** With a command left there by an earlier use of the memory, it need not. */
  lemma NumericModeNeedsATerminator(perm: Mode, mask: Mode, omode: Mode) returns (cells: seq<BitCmd>)
    requires perm <= NUMERIC_BITS
    ensures NumericList(cells, perm, mask) && Run(cells, omode, omode) != omode - NUMERIC_BITS + perm
  {
    var stale := if 0 in perm then BitCmd('-', {}, {0}) else BitCmd('+', {}, {0});
    cells := BitCmds('=', NUMERIC_BITS, perm, mask) + [stale];
    assert cells[..2] == BitCmds('=', NUMERIC_BITS, perm, mask);
    NumericRun(cells, perm, mask, omode);
    assert cells[2..] == [stale];
    RunSingle(stale, omode, omode - NUMERIC_BITS + NUMERIC_BITS * perm);
    assert 0 in NUMERIC_BITS;
    assert (0 in Run(cells, omode, omode)) != (0 in omode - NUMERIC_BITS + perm);
  }
}
