/** Laws of file modes: what a symbolic mode leaves alone, when it adds although it says '-', and exactly
    when a numeric mode does what it says. */
module SetModeLaws {

  import opened CStrings
  import opened Numbers
  import opened Wrappers
  import opened SetMode
  import opened SetModeCompile

  // ---------------------------------------------------------------- numeric modes

  /** The two commands of a numeric mode give the number on every mode, whatever follows the next cell,
      exactly when that cell holds no command: the terminator that is missing. */
  lemma NumericModeExactly(c: BitCmd, perm: Mode, mask: Mode)
    requires perm <= NUMERIC_BITS
    ensures (forall rest: seq<BitCmd>, omode: Mode :: NumericWorks(c, perm, mask, rest, omode)) <==> !IsBitOp(c.cmd) && !IsCopyOp(c.cmd)
  {
    if !IsBitOp(c.cmd) && !IsCopyOp(c.cmd) {
      forall rest: seq<BitCmd>, omode: Mode ensures NumericWorks(c, perm, mask, rest, omode) {
        var cells := BitCmds('=', NUMERIC_BITS, perm, mask) + [c] + rest;
        assert cells[..2] == BitCmds('=', NUMERIC_BITS, perm, mask) && cells[2] == c;
        NumericModeThenNoCommand(cells, perm, mask, omode);
      }
    } else {
      var stale := if 0 in perm then BitCmd('-', {}, {0}) else BitCmd('+', {}, {0});
      StaleRuns(c, stale, perm, mask, {});
      assert !NumericWorks(c, perm, mask, [stale], {});
    }
  }

  ghost predicate NumericWorks(c: BitCmd, perm: Mode, mask: Mode, rest: seq<BitCmd>, omode: Mode) {
    Run(BitCmds('=', NUMERIC_BITS, perm, mask) + [c] + rest, omode, omode) == omode - NUMERIC_BITS + perm
  }

  lemma StaleRuns(c: BitCmd, stale: BitCmd, perm: Mode, mask: Mode, omode: Mode)
    requires IsBitOp(c.cmd) || IsCopyOp(c.cmd)
    requires stale == if 0 in perm then BitCmd('-', {}, {0}) else BitCmd('+', {}, {0})
    ensures (0 in Run(BitCmds('=', NUMERIC_BITS, perm, mask) + [c] + [stale], omode, omode)) != (0 in perm)
  {
    var cells := BitCmds('=', NUMERIC_BITS, perm, mask) + [c] + [stale];
    assert cells[..2] == BitCmds('=', NUMERIC_BITS, perm, mask) && cells[2..] == [c] + [stale];
    NumericRun(cells, perm, mask, omode);
    var m := omode - NUMERIC_BITS + NUMERIC_BITS * perm;
    RunAppends([c], [stale], omode, m);
    RunSingle(stale, omode, Run([c], omode, m));
  }

  /** A numeric string with a character that is no octal digit is accepted exactly when that character
      is the first one, an 8 or a 9; it then means no bits at all. */
  lemma NonOctalAcceptedExactly(p: string)
    requires p != "" && IsDigit(p[0])
    ensures NumericMode(p).Some? && (exists c :: c in p && !IsOctal(c)) <==>
            !IsOctal(p[0]) && forall c :: c in p[1..] ==> IsOctal(c)
    ensures !IsOctal(p[0]) && NumericMode(p).Some? ==> NumericMode(p) == Some({})
  {
    assert p == [p[0]] + p[1..] && p[0] in p;
    if !IsOctal(p[0]) {
      NoBitsOfZero();
    }
  }

  lemma NoBitsOfZero()
    ensures BitsOf(0) == {}
  {
    forall b: nat ensures b !in BitsOf(0) {
      assert 0 / Pow2(b) == 0;
    }
  }

  lemma EightIsAccepted()
    ensures NumericMode("8") == Some({})
  {
    NonOctalAcceptedExactly("8");
    assert "8"[1..] == "";
  }

  // ---------------------------------------------------------------- what '-' does

  /** The letters that one action reads. */
  function Letters(p: string): string {
    if p != "" && (IsPermLetter(p[0]) || IsCopyOp(p[0])) then [p[0]] + Letters(p[1..]) else ""
  }

  lemma RemovedBits(s: Action, mask: Mode, omode: Mode, m: Mode)
    requires s.op == '-'
    ensures BitsEffect(s.op, s.who, s.perm, mask, omode, m) <= m
  {}

  lemma CopyRemoves(source: char, who: Mode, mask: Mode, m: Mode)
    ensures CopyEffect(source, who, '-', mask, m) <= m
  {
    forall b | b in CopyEffect(source, who, '-', mask, m) ensures b in m {}
  }

  /** What an X among the letters of a '-' adds. */
  function AddedByX(x: bool, who: Mode, mask: Mode, omode: Mode): Mode {
    if x && Executable(omode) then Selected(who, mask) * EXEC_BITS else {}
  }

  /** An action with '-' removes bits, and then adds what its X asks for. */
  lemma {:induction false} MinusThenX(p: string, s: Action, mask: Mode, omode: Mode, m: Mode) returns (kept: Mode)
    requires s.op == '-' && (s.permX == {} || s.permX == EXEC_BITS)
    ensures kept <= m
    ensures var (m', who, _) := PermsMeaning(p, s, mask, omode, m);
            m' == kept + AddedByX(s.permX != {} || 'X' in Letters(p), who, mask, omode)
    decreases |p|
  {
    if p != "" && IsPermLetter(p[0]) {
      kept := MinusThenX(p[1..], WithLetter(s, p[0]), mask, omode, m);
    } else if p != "" && IsCopyOp(p[0]) {
      RemovedBits(s, mask, omode, m);
      var m1 := if s.perm != {} then BitsEffect(s.op, s.who, s.perm, mask, omode, m) else m;
      CopyRemoves(p[0], s.who, mask, m1);
      kept := MinusThenX(p[1..], AfterCopy(s), mask, omode, FlushEffect(s, p[0], mask, omode, m));
    } else {
      RemovedBits(s, mask, omode, m);
      kept := if s.perm != {} then BitsEffect(s.op, s.who, s.perm, mask, omode, m) else m;
    }
  }

  /** A single clause: classes, an operator, letters. */
  predicate IsClause(p: string, op: char) {
    var (_, rest) := ScanWho(p, {});
    rest != "" && rest[0] == op && IsOperator(op) && Letters(rest[1..]) == rest[1..]
  }

  /** The classes of a clause once its letters were read: 't' adds the sticky bit to them. */
  function ClauseWho(p: string, mask: Mode): Mode
    requires IsClause(p, '-')
  {
    var (who, rest) := ScanWho(p, {});
    ScanPerms([], rest[1..], Start('-', who), mask).1
  }

  lemma {:induction false} LettersAreRead(p: string, s: Action, mask: Mode, omode: Mode, m: Mode)
    requires Letters(p) == p
    ensures PermsMeaning(p, s, mask, omode, m).2 == ""
    ensures PermsMeaning(p, s, mask, omode, m).1 == ScanPerms([], p, s, mask).1
    decreases |p|
  {
    PermsAgree([], p, s, mask, omode, m);
    if p != "" {
      assert Letters(p)[1..] == Letters(p[1..]);
      if IsPermLetter(p[0]) {
        LettersAreRead(p[1..], WithLetter(s, p[0]), mask, omode, m);
      } else {
        LettersAreRead(p[1..], AfterCopy(s), mask, omode, FlushEffect(s, p[0], mask, omode, m));
      }
    }
  }

  lemma {:induction false} PermsAgree(acc: seq<BitCmd>, p: string, s: Action, mask: Mode, omode: Mode, m: Mode)
    ensures PermsMeaning(p, s, mask, omode, m).1 == ScanPerms(acc, p, s, mask).1
    decreases |p|
  {
    if p != "" && IsPermLetter(p[0]) {
      PermsAgree(acc, p[1..], WithLetter(s, p[0]), mask, omode, m);
    } else if p != "" && IsCopyOp(p[0]) {
      PermsAgree(acc + FlushAndCopy(s, p[0], mask), p[1..], AfterCopy(s), mask, omode, FlushEffect(s, p[0], mask, omode, m));
    }
  }

  /** A clause with '-' adds no bit to a mode exactly when it has no X, or the old mode is not executable,
      or the mode has all execute bits that the clause selects. */
  lemma MinusAddsExactly(p: string, mask: Mode, omode: Mode, m: Mode)
    requires IsClause(p, '-')
    ensures Meaning(p, mask, omode, m).Some?
    ensures Meaning(p, mask, omode, m).value <= m <==>
            'X' !in ScanWho(p, {}).1 || !Executable(omode) || Selected(ClauseWho(p, mask), mask) * EXEC_BITS <= m
  {
    var (who, rest) := ScanWho(p, {});
    var s := Start('-', who);
    LettersAreRead(rest[1..], s, mask, omode, m);
    assert rest == [rest[0]] + rest[1..];
    var kept := MinusThenX(rest[1..], s, mask, omode, m);
  }

  /** On an executable mode "a-X" sets all execute bits. */
  lemma MinusXAdds()
    ensures Meaning("a-X", {}, {6}, {6}) == Some({6} + EXEC_BITS)
  {
    var p, s := "a-X", Start('-', STANDARD_BITS);
    assert p[1..] == "-X" && "-X"[1..] == "X" && "X"[1..] == "";
    assert ScanWho("-X", {} + ClassBits('a')) == ({} + ClassBits('a'), "-X");
    assert {} + ClassBits('a') == STANDARD_BITS;
    assert ScanWho(p, {}) == (STANDARD_BITS, "-X");
    assert 6 in {6} * (S_IFDIR + EXEC_BITS);
    assert PermsMeaning("", WithLetter(s, 'X'), {}, {6}, {6}).0 == {6} + STANDARD_BITS * EXEC_BITS;
    assert STANDARD_BITS * EXEC_BITS == EXEC_BITS;
    assert PermsMeaning("X", s, {}, {6}, {6}) == PermsMeaning("", WithLetter(s, 'X'), {}, {6}, {6});
  }

  // ---------------------------------------------------------------- what stays

  lemma BitsStay(op: char, who: Mode, bits: Mode, mask: Mode, omode: Mode, m: Mode)
    requires who <= NUMERIC_BITS && bits <= NUMERIC_BITS
    ensures BitsEffect(op, who, bits, mask, omode, m) - NUMERIC_BITS == m - NUMERIC_BITS
  {}

  lemma CopyStays(source: char, who: Mode, op: char, mask: Mode, m: Mode)
    ensures CopyEffect(source, who, op, mask, m) - NUMERIC_BITS == m - NUMERIC_BITS
  {}

  lemma {:induction false} PermsStay(p: string, s: Action, mask: Mode, omode: Mode, m: Mode)
    requires s.who <= NUMERIC_BITS && s.perm <= NUMERIC_BITS && s.permX <= NUMERIC_BITS
    ensures var (m', who, _) := PermsMeaning(p, s, mask, omode, m);
            m' - NUMERIC_BITS == m - NUMERIC_BITS && who <= NUMERIC_BITS
    decreases |p|
  {
    if p != "" && IsPermLetter(p[0]) {
      PermsStay(p[1..], WithLetter(s, p[0]), mask, omode, m);
    } else if p != "" && IsCopyOp(p[0]) {
      BitsStay(s.op, s.who, s.perm, mask, omode, m);
      var m1 := if s.perm != {} then BitsEffect(s.op, s.who, s.perm, mask, omode, m) else m;
      BitsStay('X', s.who, s.permX, mask, omode, m1);
      var m2 := if s.op == '+' && s.permX != {} then BitsEffect('X', s.who, s.permX, mask, omode, m1) else m1;
      CopyStays(p[0], s.who, s.op, mask, m2);
      PermsStay(p[1..], AfterCopy(s), mask, omode, FlushEffect(s, p[0], mask, omode, m));
    } else {
      BitsStay(s.op, s.who, s.perm, mask, omode, m);
      var m1 := if s.perm != {} || (s.op == '=' && !s.equalDone) then BitsEffect(s.op, s.who, s.perm, mask, omode, m) else m;
      BitsStay('X', s.who, s.permX, mask, omode, m1);
    }
  }

  lemma {:induction false} WhoStays(p: string, who: Mode)
    requires who <= NUMERIC_BITS
    ensures ScanWho(p, who).0 <= NUMERIC_BITS
  {
    if p != "" && IsClass(p[0]) {
      WhoStays(p[1..], who + ClassBits(p[0]));
    }
  }

  lemma {:induction false} ActionsStay(p: string, who: Mode, mask: Mode, omode: Mode, m: Mode)
    requires who <= NUMERIC_BITS && ActionsMeaning(p, who, mask, omode, m).Some?
    ensures ActionsMeaning(p, who, mask, omode, m).value - NUMERIC_BITS == m - NUMERIC_BITS
    decreases |p|, 0
  {
    var (m', who', rest) := PermsMeaning(p[1..], Start(p[0], who), mask, omode, m);
    PermsStay(p[1..], Start(p[0], who), mask, omode, m);
    if rest != "" && rest[0] == ',' {
      OnlyPermissionBitsChange(rest[1..], mask, omode, m');
    } else if rest != "" {
      ActionsStay(rest, who', mask, omode, m');
    }
  }

  /** A symbolic mode changes nothing but the twelve permission bits. */
  lemma {:induction false} OnlyPermissionBitsChange(p: string, mask: Mode, omode: Mode, m: Mode)
    requires Meaning(p, mask, omode, m).Some?
    ensures Meaning(p, mask, omode, m).value - NUMERIC_BITS == m - NUMERIC_BITS
    decreases |p|, 1
  {
    WhoStays(p, {});
    ActionsStay(ScanWho(p, {}).1, ScanWho(p, {}).0, mask, omode, m);
  }

  /** Two clauses, or lists of them, mean the second after the first. */
  lemma CommaIsThen(p: string, q: string, mask: Mode, omode: Mode, m: Mode)
    requires Meaning(p, mask, omode, m).Some?
    ensures Meaning(p + "," + q, mask, omode, m) == Meaning(q, mask, omode, Meaning(p, mask, omode, m).value)
  {
    CompileCorrect([], p, mask, omode, m);
    CompileCorrect([], p + "," + q, mask, omode, m);
    ClausesConcatenate(p, q, mask);
    var first := Compile([], p, mask).value;
    CompileGivesCommands([], p, mask);
    CompileCorrect([], q, mask, omode, Run(first, omode, m));
    if Compile([], q, mask).Some? {
      RunAppends(first, Compile([], q, mask).value, omode, m);
    }
  }
}
