/** What symbolic and numeric modes do, bit by bit: in characters and bit numbers, without the masks and the states
    that the compiler and the meaning share. */
module SetModeBits {

  import opened CStrings
  import opened Numbers
  import opened Wrappers
  import opened SetMode
  import opened SetModeCompile

  // ---------------------------------------------------------------- classes and letters

  /** The bits of a class: 8, 7, 6 are read, write and execute of the user, 5, 4, 3 of the group, 2, 1, 0 of others;
      11 and 10 set the ids of user and group, 9 is the sticky bit. */
  predicate InClass(c: char, b: nat) {
    (c == 'u' && (6 <= b <= 8 || b == 11)) || (c == 'g' && (3 <= b <= 5 || b == 10)) || (c == 'o' && b <= 2)
    || (c == 'a' && (b <= 8 || b == 10 || b == 11))
  }

  /** The bits a letter names. */
  predicate Names(l: char, b: nat) {
    (l == 'r' && (b == 8 || b == 5 || b == 2)) || (l == 'w' && (b == 7 || b == 4 || b == 1))
    || (l == 'x' && (b == 6 || b == 3 || b == 0)) || (l == 's' && (b == 11 || b == 10)) || (l == 't' && b == 9)
  }

  predicate OverClasses(cs: string) { forall c :: c in cs ==> c == 'a' || c == 'u' || c == 'g' || c == 'o' }

  predicate OverLetters(ls: string) {
    forall l :: l in ls ==> l == 'r' || l == 'w' || l == 'x' || l == 'X' || l == 's' || l == 't'
  }

  predicate Chosen(cs: string, b: nat) { exists c :: c in cs && InClass(c, b) }

  /** 's' and 't' count unless only others are chosen. */
  predicate NotOnlyOthers(cs: string) { cs == "" || exists c :: c in cs && c != 'o' }

  predicate Sticky(cs: string, ls: string) { NotOnlyOthers(cs) && 't' in ls }

  /** The bits that the letters reach.  Without classes it is those that the umask leaves, but once a 't' was read
      only the sticky bit. */
  predicate Touched(cs: string, ls: string, mask: Mode, b: nat) {
    if cs == "" then (if Sticky(cs, ls) then b == 9 else b in mask) else Chosen(cs, b) || (Sticky(cs, ls) && b == 9)
  }

  predicate Named(cs: string, ls: string, b: nat) { (exists l :: l in ls && Names(l, b)) && (b <= 8 || NotOnlyOthers(cs)) }

  /** The bits that '=' clears first: without classes all but the sticky bit, whatever the umask. */
  predicate Cleared(cs: string, ls: string, mask: Mode, b: nat) {
    if cs == "" && !Sticky(cs, ls) then b <= 8 || b == 10 || b == 11 else Touched(cs, ls, mask, b)
  }

  /** The bits that an 'X' adds, when the old mode is a directory or has an execute bit. */
  predicate AddedByX(cs: string, ls: string, mask: Mode, omode: Mode, b: nat) {
    'X' in ls && (b == 6 || b == 3 || b == 0) && (14 in omode || 6 in omode || 3 in omode || 0 in omode)
    && Touched(cs, ls, mask, b)
  }

  /** Bit b after a clause. */
  predicate BitAfter(cs: string, op: char, ls: string, mask: Mode, omode: Mode, m: Mode, b: nat) {
    AddedByX(cs, ls, mask, omode, b)
    || if op == '+' then b in m || (Touched(cs, ls, mask, b) && Named(cs, ls, b))
       else if op == '-' then b in m && !(Touched(cs, ls, mask, b) && Named(cs, ls, b))
       else (b in m && !Cleared(cs, ls, mask, b)) || (Touched(cs, ls, mask, b) && Named(cs, ls, b))
  }

  // ---------------------------------------------------------------- reading them

  lemma TailOf(s: string)
    requires s != ""
    ensures s == [s[0]] + s[1..] && s[0] in s && forall c :: c in s[1..] ==> c in s
  {}

  lemma ClassBitsAre(c: char, b: nat)
    requires c == 'a' || c == 'u' || c == 'g' || c == 'o'
    ensures b in ClassBits(c) <==> InClass(c, b)
  {}

  lemma {:induction false} ClassesRead(cs: string, rest: string, who: Mode)
    requires OverClasses(cs) && (rest == "" || !IsClass(rest[0]))
    ensures ScanWho(cs + rest, who) == (ScanWho(cs, who).0, rest)
    ensures forall b: nat :: b in ScanWho(cs, who).0 <==> b in who || Chosen(cs, b)
    decreases |cs|
  {
    if cs == "" {
      assert cs + rest == rest;
    } else {
      assert (cs + rest)[0] == cs[0] && (cs + rest)[1..] == cs[1..] + rest;
      TailOf(cs);
      ClassesRead(cs[1..], rest, who + ClassBits(cs[0]));
      forall b: nat ensures b in ClassBits(cs[0]) || Chosen(cs[1..], b) <==> Chosen(cs, b) {
        ClassBitsAre(cs[0], b);
        FirstChosen(cs, b);
      }
    }
  }

  lemma FirstChosen(cs: string, b: nat)
    requires cs != ""
    ensures Chosen(cs, b) <==> InClass(cs[0], b) || Chosen(cs[1..], b)
  {
    assert cs == [cs[0]] + cs[1..];
    if InClass(cs[0], b) {
      assert cs[0] in cs;
    }
  }

  /** The classes as the mask that the compiler makes of them. */
  function Who(cs: string): Mode { ScanWho(cs, {}).0 }

  lemma WhoIs(cs: string)
    requires OverClasses(cs)
    ensures forall b: nat :: b in Who(cs) <==> Chosen(cs, b)
    ensures 9 !in Who(cs) && (Who(cs) == {} <==> cs == "") && (SpecialBitsApply(Who(cs)) <==> NotOnlyOthers(cs))
  {
    var who := Who(cs);
    ClassesRead(cs, "", {});
    if cs != "" {
      assert cs[0] in cs && Chosen(cs, if cs[0] == 'g' then 3 else if cs[0] == 'o' then 0 else 6);
    }
    if c :| c in cs && c != 'o' {
      assert Chosen(cs, if c == 'g' then 3 else 6);
      assert (if c == 'g' then 3 else 6) in who - S_IRWXO;
    }
    if who - S_IRWXO != {} {
      var b: nat :| b in who - S_IRWXO;
      assert Chosen(cs, b);
    }
  }

  /** A single clause. */
  lemma ClauseIs(cs: string, op: char, ls: string, mask: Mode, omode: Mode, m: Mode)
    requires OverClasses(cs) && IsOperator(op) && PermsMeaning(ls, Start(op, Who(cs)), mask, omode, m).2 == ""
    ensures Meaning(cs + [op] + ls, mask, omode, m) == Some(PermsMeaning(ls, Start(op, Who(cs)), mask, omode, m).0)
  {
    var rest := [op] + ls;
    assert cs + [op] + ls == cs + rest && rest[1..] == ls && rest != "" && rest[0] == op;
    ClassesRead(cs, rest, {});
  }

  /** The state after a list of letters. */
  function WithLetters(s: Action, ls: string): Action
    decreases |ls|
  {
    if ls == "" then s else WithLetters(WithLetter(s, ls[0]), ls[1..])
  }

  lemma LetterRead(s: Action, l: char, b: nat)
    requires l == 'r' || l == 'w' || l == 'x' || l == 'X' || l == 's' || l == 't'
    ensures var s' := WithLetter(s, l);
            s'.op == s.op && s'.equalDone == s.equalDone && SpecialBitsApply(s'.who) == SpecialBitsApply(s.who)
            && (b in s'.perm <==> b in s.perm || (Names(l, b) && (b <= 8 || SpecialBitsApply(s.who))))
            && (b in s'.who <==> b in s.who || (b == 9 && l == 't' && SpecialBitsApply(s.who)))
            && s'.permX == if l == 'X' then EXEC_BITS else s.permX
  {
    if l == 't' && SpecialBitsApply(s.who) {
      assert 9 in s.who + S_ISTXT - S_IRWXO;
    }
  }

  lemma {:induction false} LettersRead(s: Action, ls: string)
    requires OverLetters(ls)
    ensures var s' := WithLetters(s, ls);
            s'.op == s.op && s'.equalDone == s.equalDone
            && (forall b: nat :: b in s'.perm <==> b in s.perm || LettersName(s.who, ls, b))
            && (forall b: nat :: b in s'.who <==> b in s.who || (b == 9 && 't' in ls && SpecialBitsApply(s.who)))
            && s'.permX == if 'X' in ls then EXEC_BITS else s.permX
    decreases |ls|
  {
    if ls != "" {
      TailOf(ls);
      LettersRead(WithLetter(s, ls[0]), ls[1..]);
      forall b: nat ensures LettersName(s.who, ls, b) <==> (Names(ls[0], b) && (b <= 8 || SpecialBitsApply(s.who))) || LettersName(s.who, ls[1..], b) {
        FirstNamed(s.who, ls, b);
      }
      forall b: nat {
        LetterRead(s, ls[0], b);
      }
    }
  }

  predicate LettersName(who: Mode, ls: string, b: nat) {
    (exists l :: l in ls && Names(l, b)) && (b <= 8 || SpecialBitsApply(who))
  }

  lemma FirstNamed(who: Mode, ls: string, b: nat)
    requires ls != ""
    ensures LettersName(who, ls, b) <==> (Names(ls[0], b) && (b <= 8 || SpecialBitsApply(who))) || LettersName(who, ls[1..], b)
  {
    assert ls == [ls[0]] + ls[1..] && ls[0] in ls;
  }

  lemma {:induction false} PermsOfLetters(ls: string, s: Action, mask: Mode, omode: Mode, m: Mode)
    requires OverLetters(ls)
    ensures var s' := WithLetters(s, ls); PermsMeaning(ls, s, mask, omode, m) == (EndEffect(s', mask, omode, m), s'.who, "")
    decreases |ls|
  {
    if ls != "" {
      TailOf(ls);
      PermsOfLetters(ls[1..], WithLetter(s, ls[0]), mask, omode, m);
    }
  }

  // ---------------------------------------------------------------- what a clause of letters does

  /** The state at the end of the letters. */
  ghost predicate Collected(s: Action, cs: string, op: char, ls: string, mask: Mode) {
    s.op == op && !s.equalDone && (s.who == {} <==> cs == "" && !Sticky(cs, ls))
    && s.permX == (if 'X' in ls then EXEC_BITS else {})
    && (forall b: nat :: b in s.perm <==> Named(cs, ls, b)) && (forall b: nat :: b in Selected(s.who, mask) <==> Touched(cs, ls, mask, b))
  }

  lemma Collects(cs: string, op: char, ls: string, mask: Mode, who: Mode)
    requires OverClasses(cs) && OverLetters(ls)
    requires (forall b: nat :: b in who <==> Chosen(cs, b)) && (who == {} <==> cs == "")
    requires SpecialBitsApply(who) <==> NotOnlyOthers(cs)
    ensures Collected(WithLetters(Start(op, who), ls), cs, op, ls, mask)
  {
    var s := Start(op, who);
    assert s.who == who;
    LettersRead(s, ls);
    var s' := WithLetters(s, ls);
    assert (9 in s'.who) == Sticky(cs, ls);
  }

  lemma EndBits(s: Action, cs: string, op: char, ls: string, mask: Mode, omode: Mode, m: Mode, b: nat)
    requires Collected(s, cs, op, ls, mask) && IsOperator(op)
    ensures b in EndEffect(s, mask, omode, m) <==> BitAfter(cs, op, ls, mask, omode, m, b)
  {
    var m1 := if s.perm != {} || (s.op == '=' && !s.equalDone) then BitsEffect(s.op, s.who, s.perm, mask, omode, m) else m;
    var named := Touched(cs, ls, mask, b) && Named(cs, ls, b);
    assert b in Selected(s.who, mask) * s.perm <==> named;
    ClearedIs(s, cs, op, ls, mask, b);
    assert b in m1 <==> if op == '+' then b in m || named else if op == '-' then b in m && !named
                        else (b in m && !Cleared(cs, ls, mask, b)) || named;
    assert b in Selected(s.who, mask) * EXEC_BITS <==> (b == 6 || b == 3 || b == 0) && Touched(cs, ls, mask, b);
    ExecutableIs(omode);
  }

  lemma ClearedIs(s: Action, cs: string, op: char, ls: string, mask: Mode, b: nat)
    requires Collected(s, cs, op, ls, mask)
    ensures b in (if s.who != {} then s.who else STANDARD_BITS) <==> Cleared(cs, ls, mask, b)
  {}

  lemma ExecutableIs(omode: Mode)
    ensures Executable(omode) <==> 14 in omode || 6 in omode || 3 in omode || 0 in omode
  {
    assert forall b: nat :: b in S_IFDIR + EXEC_BITS <==> b == 14 || b == 6 || b == 3 || b == 0;
  }

  /** A clause of any classes, an operator and any letters means what BitAfter says, on every bit. */
  lemma LettersMean(cs: string, op: char, ls: string, mask: Mode, omode: Mode, m: Mode)
    requires OverClasses(cs) && (op == '+' || op == '-' || op == '=') && OverLetters(ls)
    ensures var r := Meaning(cs + [op] + ls, mask, omode, m);
            r.Some? && forall b: nat :: b in r.value <==> BitAfter(cs, op, ls, mask, omode, m, b)
  {
    var who := Who(cs);
    WhoIs(cs);
    PermsOfLetters(ls, Start(op, who), mask, omode, m);
    ClauseIs(cs, op, ls, mask, omode, m);
    Collects(cs, op, ls, mask, who);
    forall b: nat ensures b in EndEffect(WithLetters(Start(op, who), ls), mask, omode, m) <==> BitAfter(cs, op, ls, mask, omode, m, b) {
      EndBits(WithLetters(Start(op, who), ls), cs, op, ls, mask, omode, m, b);
    }
  }

  /** The bit of one class and one permission. */
  function PairBit(c: char, l: char): nat {
    (if c == 'u' then 6 else if c == 'g' then 3 else 0) + (if l == 'r' then 2 else if l == 'w' then 1 else 0)
  }

  /** One class and one permission: exactly that bit is set, cleared, or set with the others of the class cleared. */
  lemma OneLetterMeans(c: char, l: char, mask: Mode, omode: Mode, m: Mode)
    requires (c == 'u' || c == 'g' || c == 'o') && (l == 'r' || l == 'w' || l == 'x')
    ensures Meaning([c] + ['+'] + [l], mask, omode, m) == Some(m + {PairBit(c, l)})
    ensures Meaning([c] + ['-'] + [l], mask, omode, m) == Some(m - {PairBit(c, l)})
    ensures Meaning([c] + ['='] + [l], mask, omode, m) == Some((set b | b in m && !InClass(c, b)) + {PairBit(c, l)})
  {
    OneLetterWith(c, '+', l, mask, omode, m, m + {PairBit(c, l)});
    OneLetterWith(c, '-', l, mask, omode, m, m - {PairBit(c, l)});
    OneLetterWith(c, '=', l, mask, omode, m, (set b | b in m && !InClass(c, b)) + {PairBit(c, l)});
  }

  predicate OneBitAfter(c: char, op: char, l: char, m: Mode, b: nat) {
    if op == '+' then b in m || b == PairBit(c, l)
    else if op == '-' then b in m && b != PairBit(c, l)
    else (b in m && !InClass(c, b)) || b == PairBit(c, l)
  }

  lemma OneLetterWith(c: char, op: char, l: char, mask: Mode, omode: Mode, m: Mode, r: Mode)
    requires (c == 'u' || c == 'g' || c == 'o') && (l == 'r' || l == 'w' || l == 'x') && IsOperator(op)
    requires forall b: nat :: b in r <==> OneBitAfter(c, op, l, m, b)
    ensures Meaning([c] + [op] + [l], mask, omode, m) == Some(r)
  {
    LettersMean([c], op, [l], mask, omode, m);
    var v := Meaning([c] + [op] + [l], mask, omode, m).value;
    forall b: nat ensures b in v <==> b in r {
      OneLetterBit(c, op, l, mask, omode, m, b);
    }
    assert v == r;
  }

  lemma OneLetterBit(c: char, op: char, l: char, mask: Mode, omode: Mode, m: Mode, b: nat)
    requires (c == 'u' || c == 'g' || c == 'o') && (l == 'r' || l == 'w' || l == 'x') && IsOperator(op)
    ensures BitAfter([c], op, [l], mask, omode, m, b) <==> OneBitAfter(c, op, l, m, b)
  {
    assert InClass(c, b) && Names(l, b) <==> b == PairBit(c, l);
    assert c in [c] && l in [l] && 't' !in [l] && 'X' !in [l];
    assert Chosen([c], b) <==> InClass(c, b);
    assert Named([c], [l], b) <==> Names(l, b);
  }

  /** Without classes a 't' makes the other permission letters count for nothing: the clause only sets or clears the
      sticky bit. */
  lemma StickyAlone(ls: string, mask: Mode, omode: Mode, m: Mode)
    requires OverLetters(ls) && 't' in ls
    ensures Meaning("" + ['+'] + ls, mask, omode, m) == Some(m + {9})
    ensures Meaning("" + ['-'] + ls, mask, omode, m) == Some(m - {9})
  {
    StickyWith('+', ls, mask, omode, m, m + {9});
    StickyWith('-', ls, mask, omode, m, m - {9});
  }

  lemma StickyWith(op: char, ls: string, mask: Mode, omode: Mode, m: Mode, r: Mode)
    requires OverLetters(ls) && 't' in ls && (op == '+' || op == '-')
    requires forall b: nat :: b in r <==> if op == '+' then b in m || b == 9 else b in m && b != 9
    ensures Meaning("" + [op] + ls, mask, omode, m) == Some(r)
  {
    LettersMean("", op, ls, mask, omode, m);
    var v := Meaning("" + [op] + ls, mask, omode, m).value;
    forall b: nat ensures b in v <==> b in r {
      assert Names('t', 9);
      assert Named("", ls, 9);
    }
    assert v == r;
  }

  // ---------------------------------------------------------------- what copying a class does

  /** Where the three permissions of a class start. */
  function StartOf(c: char): nat { if c == 'u' then 6 else if c == 'g' then 3 else 0 }

  /** The class of a permission bit is chosen. */
  predicate Receives(cs: string, b: nat) {
    b <= 8 && (cs == "" || 'a' in cs || (if b >= 6 then 'u' in cs else if b >= 3 then 'g' in cs else 'o' in cs))
  }

  /** Bit b after the permissions of class source were copied. */
  predicate BitCopied(cs: string, op: char, source: char, mask: Mode, m: Mode, b: nat) {
    var allowed := cs != "" || b in mask;
    var given := StartOf(source) + b % 3 in m && allowed;
    if !Receives(cs, b) then b in m
    else if op == '+' then b in m || given
    else if op == '-' then b in m && !given
    else (b in m && !allowed) || given
  }

  lemma CopyBits(who: Mode, cs: string, op: char, source: char, mask: Mode, m: Mode, b: nat)
    requires (forall b: nat :: b in who <==> Chosen(cs, b)) && (who == {} <==> cs == "")
    requires OverClasses(cs) && IsOperator(op) && IsCopyOp(source)
    ensures b in CopyEffect(source, who, op, mask, m) <==> BitCopied(cs, op, source, mask, m, b)
  {
    if b <= 8 {
      var c := if b >= 6 then 'u' else if b >= 3 then 'g' else 'o';
      assert b == StartOf(c) + b % 3;
      CopyLow(who, cs, op, source, mask, m, c, b % 3);
    } else {
      HighBitsStay(source, who, op, mask, m, b);
    }
  }

  lemma HighBitsStay(source: char, who: Mode, op: char, mask: Mode, m: Mode, b: nat)
    requires b > 8
    ensures b in CopyEffect(source, who, op, mask, m) <==> b in m
  {}

  lemma CopyLow(who: Mode, cs: string, op: char, source: char, mask: Mode, m: Mode, c: char, k: nat)
    requires (forall b: nat :: b in who <==> Chosen(cs, b)) && (who == {} <==> cs == "")
    requires OverClasses(cs) && IsOperator(op) && IsCopyOp(source) && IsCopyOp(c) && k <= 2
    ensures StartOf(c) + k in CopyEffect(source, who, op, mask, m) <==> BitCopied(cs, op, source, mask, m, StartOf(c) + k)
  {
    CopiedInto(source, who, op, mask, m, c, k);
    CopiedBit(who, cs, op, source, mask, m, c, k);
  }

  lemma CopiedInto(source: char, who: Mode, op: char, mask: Mode, m: Mode, c: char, k: nat)
    requires k <= 2 && IsCopyOp(c)
    ensures StartOf(c) + k in CopyEffect(source, who, op, mask, m) <==> k in CopiedClass(source, who, op, mask, m, c)
  {}

  lemma CopiedBit(who: Mode, cs: string, op: char, source: char, mask: Mode, m: Mode, c: char, k: nat)
    requires (forall b: nat :: b in who <==> Chosen(cs, b)) && (who == {} <==> cs == "")
    requires OverClasses(cs) && IsOperator(op) && IsCopyOp(source) && IsCopyOp(c) && k <= 2
    ensures k in CopiedClass(source, who, op, mask, m, c) <==> BitCopied(cs, op, source, mask, m, StartOf(c) + k)
  {
    ChosenBit(cs, StartOf(c) + 2, c);
    FieldBit(m, c, k);
    FieldBit(m, source, k);
    FieldBit(mask, c, k);
    assert (StartOf(c) + k) % 3 == k;
  }

  lemma FieldBit(m: Mode, c: char, k: nat)
    requires k <= 2 && IsCopyOp(c)
    ensures k in Field(m, c) <==> StartOf(c) + k in m
    ensures k in S_IRWXO
  {}

  lemma ChosenBit(cs: string, b: nat, c: char)
    requires OverClasses(cs) && ((b == 8 && c == 'u') || (b == 5 && c == 'g') || (b == 2 && c == 'o'))
    ensures Chosen(cs, b) <==> c in cs || 'a' in cs
  {
    if c in cs {
      assert InClass(c, b);
    }
    if 'a' in cs {
      assert InClass('a', b);
    }
  }

  /** A clause of any classes, an operator and a class to copy from means what BitCopied says, on every bit. */
  lemma CopyMeans(cs: string, op: char, source: char, mask: Mode, omode: Mode, m: Mode)
    requires OverClasses(cs) && (op == '+' || op == '-' || op == '=') && (source == 'u' || source == 'g' || source == 'o')
    ensures var r := Meaning(cs + [op] + [source], mask, omode, m);
            r.Some? && forall b: nat :: b in r.value <==> BitCopied(cs, op, source, mask, m, b)
  {
    var who := Who(cs);
    WhoIs(cs);
    CopyAlone(op, who, source, mask, omode, m);
    ClauseIs(cs, op, [source], mask, omode, m);
    forall b: nat ensures b in CopyEffect(source, who, op, mask, m) <==> BitCopied(cs, op, source, mask, m, b) {
      CopyBits(who, cs, op, source, mask, m, b);
    }
  }

  lemma CopyAlone(op: char, who: Mode, source: char, mask: Mode, omode: Mode, m: Mode)
    requires 9 !in who && IsOperator(op) && IsCopyOp(source)
    ensures PermsMeaning([source], Start(op, who), mask, omode, m) == (CopyEffect(source, who, op, mask, m), who, "")
  {
    var s := Start(op, who);
    assert s.who == who && [source][1..] == "";
    assert PermsMeaning([source], s, mask, omode, m) ==
           PermsMeaning("", AfterCopy(s), mask, omode, FlushEffect(s, source, mask, omode, m));
  }

  // ---------------------------------------------------------------- copies among letters, and more than one operator

  predicate OverPermissions(ls: string) { forall l :: l in ls ==> l == 'r' || l == 'w' || l == 'x' }

  /** The mode after a clause of classes, an operator and letters; nothing for no letters. */
  function AfterLetters(cs: string, op: char, ls: string, mask: Mode, omode: Mode, m: Mode): Mode {
    if ls == "" then m else var r := Meaning(cs + [op] + ls, mask, omode, m); if r.Some? then r.value else m
  }

  function AfterCopying(cs: string, op: char, source: char, mask: Mode, omode: Mode, m: Mode): Mode {
    var r := Meaning(cs + [op] + [source], mask, omode, m); if r.Some? then r.value else m
  }

  lemma LettersThen(ls: string, rest: string, s: Action, mask: Mode, omode: Mode, m: Mode)
    requires OverLetters(ls)
    ensures PermsMeaning(ls + rest, s, mask, omode, m) == PermsMeaning(rest, WithLetters(s, ls), mask, omode, m)
    decreases |ls|
  {
    if ls == "" {
      assert ls + rest == rest;
    } else {
      TailOf(ls);
      assert (ls + rest)[0] == ls[0] && (ls + rest)[1..] == ls[1..] + rest;
      LettersThen(ls[1..], rest, WithLetter(s, ls[0]), mask, omode, m);
    }
  }

  /** The state of an action that has read permissions only. */
  lemma PermissionsRead(s: Action, ls: string)
    requires OverPermissions(ls) && s.perm == {}
    ensures var s' := WithLetters(s, ls); s' == s.(perm := s'.perm) && (s'.perm == {} <==> ls == "")
  {
    LettersRead(s, ls);
    var s' := WithLetters(s, ls);
    assert s'.who == s.who && 'X' !in ls;
    if ls != "" {
      TailOf(ls);
      assert Names(ls[0], if ls[0] == 'r' then 2 else if ls[0] == 'w' then 1 else 0);
      assert (if ls[0] == 'r' then 2 else if ls[0] == 'w' then 1 else 0) in s'.perm;
    }
    PermXKept(s, ls);
  }

  lemma {:induction false} PermXKept(s: Action, ls: string)
    requires OverPermissions(ls)
    ensures WithLetters(s, ls).permX == s.permX
    decreases |ls|
  {
    if ls != "" {
      TailOf(ls);
      PermXKept(WithLetter(s, ls[0]), ls[1..]);
    }
  }

  /** A clause that is a list of permissions, or a class to copy from. */
  lemma PermissionsMean(cs: string, op: char, ls: string, mask: Mode, omode: Mode, m: Mode)
    requires OverClasses(cs) && IsOperator(op) && OverPermissions(ls) && ls != ""
    ensures AfterLetters(cs, op, ls, mask, omode, m) ==
            BitsEffect(op, Who(cs), WithLetters(Start(op, Who(cs)), ls).perm, mask, omode, m)
  {
    WhoIs(cs);
    PermsOfLetters(ls, Start(op, Who(cs)), mask, omode, m);
    PermissionsRead(Start(op, Who(cs)), ls);
    ClauseIs(cs, op, ls, mask, omode, m);
  }

  lemma CopyingMeans(cs: string, op: char, source: char, mask: Mode, omode: Mode, m: Mode)
    requires OverClasses(cs) && IsOperator(op) && IsCopyOp(source)
    ensures AfterCopying(cs, op, source, mask, omode, m) == CopyEffect(source, Who(cs), op, mask, m)
  {
    WhoIs(cs);
    CopyAlone(op, Who(cs), source, mask, omode, m);
    ClauseIs(cs, op, [source], mask, omode, m);
  }

  /** Letters, a class to copy from, and letters: three clauses, one after the other. */
  lemma CopyAmongLetters(cs: string, op: char, l1: string, source: char, l2: string, mask: Mode, omode: Mode, m: Mode)
    requires OverClasses(cs) && (op == '+' || op == '-' || op == '=') && (source == 'u' || source == 'g' || source == 'o')
    requires OverPermissions(l1) && OverPermissions(l2)
    ensures var m1 := AfterLetters(cs, op, l1, mask, omode, m);
            var m2 := AfterCopying(cs, op, source, mask, omode, m1);
            Meaning(cs + [op] + (l1 + ([source] + l2)), mask, omode, m) == Some(AfterLetters(cs, op, l2, mask, omode, m2))
  {
    var s := Start(op, Who(cs));
    WhoIs(cs);
    assert s.who == Who(cs);
    var m1 := AfterLetters(cs, op, l1, mask, omode, m);
    var m2 := AfterCopying(cs, op, source, mask, omode, m1);
    CopyingMeans(cs, op, source, mask, omode, m1);
    if l1 != "" {
      PermissionsMean(cs, op, l1, mask, omode, m);
    }
    if l2 != "" {
      PermissionsMean(cs, op, l2, mask, omode, m2);
    }
    ThreeParts(s, l1, source, l2, mask, omode, m);
    ClauseIs(cs, op, l1 + ([source] + l2), mask, omode, m);
  }

  lemma ThreeParts(s: Action, l1: string, source: char, l2: string, mask: Mode, omode: Mode, m: Mode)
    requires OverPermissions(l1) && OverPermissions(l2) && IsCopyOp(source) && IsOperator(s.op)
    requires s.perm == s.permX == {} && !s.equalDone
    ensures var m1 := if l1 == "" then m else BitsEffect(s.op, s.who, WithLetters(s, l1).perm, mask, omode, m);
            var m2 := CopyEffect(source, s.who, s.op, mask, m1);
            PermsMeaning(l1 + ([source] + l2), s, mask, omode, m) ==
            (if l2 == "" then m2 else BitsEffect(s.op, s.who, WithLetters(s, l2).perm, mask, omode, m2), s.who, "")
  {
    LettersThen(l1, [source] + l2, s, mask, omode, m);
    PermissionsRead(s, l1);
    AfterThat(WithLetters(s, l1), source, l2, mask, omode, m);
    SamePerm(AfterCopy(WithLetters(s, l1)), s, l2);
  }

  lemma AfterThat(s: Action, source: char, ls: string, mask: Mode, omode: Mode, m: Mode)
    requires OverPermissions(ls) && IsCopyOp(source) && IsOperator(s.op) && s.permX == {}
    ensures var m2 := FlushEffect(s, source, mask, omode, m); var p := WithLetters(AfterCopy(s), ls).perm;
            PermsMeaning([source] + ls, s, mask, omode, m) ==
            (if ls == "" then m2 else BitsEffect(s.op, s.who, p, mask, omode, m2), s.who, "")
  {
    assert ([source] + ls)[1..] == ls;
    PermsOfLetters(ls, AfterCopy(s), mask, omode, FlushEffect(s, source, mask, omode, m));
    PermissionsRead(AfterCopy(s), ls);
  }

  lemma SamePerm(s: Action, t: Action, ls: string)
    requires OverPermissions(ls) && s.perm == t.perm == {} && s.who == t.who
    ensures WithLetters(s, ls).perm == WithLetters(t, ls).perm
  {
    LettersRead(s, ls);
    LettersRead(t, ls);
  }

  /** An X before a class to copy from: '+' adds before the copy, '-' and '=' behind it. */
  lemma XBeforeCopy(cs: string, op: char, source: char, mask: Mode, omode: Mode, m: Mode)
    requires OverClasses(cs) && (op == '+' || op == '-' || op == '=') && (source == 'u' || source == 'g' || source == 'o')
    ensures Meaning(cs + [op] + (['X'] + [source]), mask, omode, m) ==
            Some(if op == '+' then AfterCopying(cs, op, source, mask, omode, AfterLetters(cs, '+', ['X'], mask, omode, m))
                 else AfterLetters(cs, '+', ['X'], mask, omode, AfterCopying(cs, op, source, mask, omode, m)))
  {
    WhoIs(cs);
    var m1 := AfterLetters(cs, '+', ['X'], mask, omode, m);
    XAlone(cs, mask, omode, m);
    CopyingMeans(cs, op, source, mask, omode, if op == '+' then m1 else m);
    XAlone(cs, mask, omode, AfterCopying(cs, op, source, mask, omode, m));
    XThenCopy(op, Who(cs), source, mask, omode, m);
    ClauseIs(cs, op, ['X'] + [source], mask, omode, m);
  }

  lemma XAlone(cs: string, mask: Mode, omode: Mode, m: Mode)
    requires OverClasses(cs)
    ensures AfterLetters(cs, '+', ['X'], mask, omode, m) == BitsEffect('X', Who(cs), EXEC_BITS, mask, omode, m)
  {
    WhoIs(cs);
    var s := Start('+', Who(cs));
    assert s.who == Who(cs) && ['X'][1..] == "" && 0 in EXEC_BITS;
    assert PermsMeaning(['X'], s, mask, omode, m) == PermsMeaning("", WithLetter(s, 'X'), mask, omode, m);
    ClauseIs(cs, '+', ['X'], mask, omode, m);
  }

  lemma XThenCopy(op: char, who: Mode, source: char, mask: Mode, omode: Mode, m: Mode)
    requires 9 !in who && IsOperator(op) && IsCopyOp(source)
    ensures PermsMeaning(['X'] + [source], Start(op, who), mask, omode, m) ==
            (if op == '+' then CopyEffect(source, who, op, mask, BitsEffect('X', who, EXEC_BITS, mask, omode, m))
             else BitsEffect('X', who, EXEC_BITS, mask, omode, CopyEffect(source, who, op, mask, m)), who, "")
  {
    var s := Start(op, who);
    var s1 := WithLetter(s, 'X');
    assert s.who == who && EXEC_BITS != {} && 0 in EXEC_BITS;
    assert (['X'] + [source])[1..] == [source] && [source][1..] == "";
    assert PermsMeaning(['X'] + [source], s, mask, omode, m) == PermsMeaning([source], s1, mask, omode, m);
    assert PermsMeaning([source], s1, mask, omode, m) ==
           PermsMeaning("", AfterCopy(s1), mask, omode, FlushEffect(s1, source, mask, omode, m));
  }

  // ---------------------------------------------------------------- more than one operator in a clause

  predicate OverPerms(ls: string) { forall l :: l in ls ==> IsPermLetter(l) || IsCopyOp(l) }

  lemma ActionOver(p: string, s: Action, mask: Mode, omode: Mode, m: Mode)
    requires p == "" || !(IsPermLetter(p[0]) || IsCopyOp(p[0]))
    ensures PermsMeaning(p, s, mask, omode, m) == (EndEffect(s, mask, omode, m), s.who, p)
  {}

  /** What an action reads ends where its letters end, and its classes are the same but for the sticky bit. */
  lemma {:induction false} ActionEnds(ls: string, rest: string, s: Action, mask: Mode, omode: Mode, m: Mode)
    requires OverPerms(ls) && (rest == "" || rest[0] == '+' || rest[0] == '-' || rest[0] == '=' || rest[0] == ',')
    ensures var r := PermsMeaning(ls, s, mask, omode, m);
            r.2 == "" && PermsMeaning(ls + rest, s, mask, omode, m) == (r.0, r.1, rest) && r.1 - S_ISTXT == s.who - S_ISTXT
    decreases |ls|
  {
    if ls == "" {
      assert ls + rest == rest;
      ActionOver(rest, s, mask, omode, m);
      ActionOver(ls, s, mask, omode, m);
    } else {
      TailOf(ls);
      assert (ls + rest)[0] == ls[0] && (ls + rest)[1..] == ls[1..] + rest;
      if IsPermLetter(ls[0]) {
        assert WithLetter(s, ls[0]).who - S_ISTXT == s.who - S_ISTXT;
        ActionEnds(ls[1..], rest, WithLetter(s, ls[0]), mask, omode, m);
      } else {
        ActionEnds(ls[1..], rest, AfterCopy(s), mask, omode, FlushEffect(s, ls[0], mask, omode, m));
      }
    }
  }

  /** A second operator works on the same classes, and on the mode that the first one left. */
  lemma OperatorsInTurn(cs: string, op: char, ls: string, op2: char, more: string, mask: Mode, omode: Mode, m: Mode)
    requires OverClasses(cs) && OverPerms(ls)
    requires (op == '+' || op == '-' || op == '=') && (op2 == '+' || op2 == '-' || op2 == '=')
    ensures var first := Meaning(cs + [op] + ls, mask, omode, m);
            first.Some?
            && Meaning(cs + [op] + ls + ([op2] + more), mask, omode, m) == Meaning(cs + ([op2] + more), mask, omode, first.value)
  {
    var rest := [op2] + more;
    var p := [op] + (ls + rest);
    assert cs + [op] + ls + rest == cs + p && p[0] == op && p[1..] == ls + rest && rest[0] == op2;
    ClassesRead(cs, p, {});
    ClassesRead(cs, rest, {});
    WhoIs(cs);
    ActionEnds(ls, "", Start(op, Who(cs)), mask, omode, m);
    ActionEnds(ls, rest, Start(op, Who(cs)), mask, omode, m);
    ClauseIs(cs, op, ls, mask, omode, m);
    var (m', who', _) := PermsMeaning(ls, Start(op, Who(cs)), mask, omode, m);
    SameStart(rest, Who(cs), who', mask, omode, m');
  }

  lemma SameStart(p: string, w: Mode, v: Mode, mask: Mode, omode: Mode, m: Mode)
    requires w - S_ISTXT == v - S_ISTXT
    ensures ActionsMeaning(p, w, mask, omode, m) == ActionsMeaning(p, v, mask, omode, m)
  {
    if p != "" {
      assert Start(p[0], w) == Start(p[0], v);
    }
  }

  // ---------------------------------------------------------------- which strings are accepted

  /** Classes, then an operator, then operators and letters up to a comma or the end. */
  predicate WellFormed(p: string)
    decreases |p|, 1
  {
    if p != "" && (p[0] == 'a' || p[0] == 'u' || p[0] == 'g' || p[0] == 'o') then WellFormed(p[1..])
    else p != "" && (p[0] == '+' || p[0] == '-' || p[0] == '=') && GoesOn(p[1..])
  }

  predicate GoesOn(p: string)
    decreases |p|, 0
  {
    if p == "" then true
    else if p[0] == ',' then WellFormed(p[1..])
    else (p[0] == '+' || p[0] == '-' || p[0] == '=' || p[0] == 'r' || p[0] == 'w' || p[0] == 'x' || p[0] == 'X' || p[0] == 's'
          || p[0] == 't' || p[0] == 'u' || p[0] == 'g' || p[0] == 'o') && GoesOn(p[1..])
  }

  lemma {:induction false} ClassesGoOn(p: string, who: Mode)
    ensures WellFormed(p) == WellFormed(ScanWho(p, who).1)
    ensures var rest := ScanWho(p, who).1; rest == "" || !IsClass(rest[0])
  {
    if p != "" && IsClass(p[0]) {
      ClassesGoOn(p[1..], who + ClassBits(p[0]));
    }
  }

  lemma {:induction false} LettersGoOn(p: string, s: Action, mask: Mode, omode: Mode, m: Mode)
    ensures var rest := PermsMeaning(p, s, mask, omode, m).2;
            GoesOn(p) == GoesOn(rest) && (rest == "" || !(IsPermLetter(rest[0]) || IsCopyOp(rest[0])))
    decreases |p|
  {
    if p != "" && IsPermLetter(p[0]) {
      LettersGoOn(p[1..], WithLetter(s, p[0]), mask, omode, m);
    } else if p != "" && IsCopyOp(p[0]) {
      LettersGoOn(p[1..], AfterCopy(s), mask, omode, FlushEffect(s, p[0], mask, omode, m));
    }
  }

  lemma {:induction false} ActionsAccepted(p: string, who: Mode, mask: Mode, omode: Mode, m: Mode)
    ensures ActionsMeaning(p, who, mask, omode, m).Some? <==> p != "" && IsOperator(p[0]) && GoesOn(p[1..])
    decreases |p|, 0
  {
    if p != "" && IsOperator(p[0]) {
      var (m', who', rest) := PermsMeaning(p[1..], Start(p[0], who), mask, omode, m);
      LettersGoOn(p[1..], Start(p[0], who), mask, omode, m);
      if rest != "" && rest[0] == ',' {
        AcceptedExactly(rest[1..], mask, omode, m');
      } else if rest != "" {
        ActionsAccepted(rest, who', mask, omode, m');
      }
    }
  }

  /** A symbolic string has a meaning exactly when it is well formed. */
  lemma {:induction false} AcceptedExactly(p: string, mask: Mode, omode: Mode, m: Mode)
    ensures Meaning(p, mask, omode, m).Some? <==> WellFormed(p)
    decreases |p|, 1
  {
    ClassesGoOn(p, {});
    ActionsAccepted(ScanWho(p, {}).1, ScanWho(p, {}).0, mask, omode, m);
  }

  // ---------------------------------------------------------------- numeric modes

  predicate Octal(p: string) { forall c :: c in p ==> '0' <= c <= '7' }

  /** Bit k of an octal digit. */
  predicate DigitBit(c: char, k: nat) {
    if k == 0 then c == '1' || c == '3' || c == '5' || c == '7'
    else if k == 1 then c == '2' || c == '3' || c == '6' || c == '7'
    else k == 2 && (c == '4' || c == '5' || c == '6' || c == '7')
  }

  lemma {:induction false} PrefixMore(p: string, c: char, acc: nat)
    requires Octal(p) && '0' <= c <= '7'
    ensures OctalPrefix(p + [c], acc) == 8 * OctalPrefix(p, acc) + (c as nat - '0' as nat)
    decreases |p|
  {
    if p == "" {
      assert p + [c] == [c] && [c][1..] == "";
      assert OctalPrefix([c], acc) == OctalPrefix([c][1..], 8 * acc + (c as nat - '0' as nat));
    } else {
      TailOf(p);
      assert (p + [c])[1..] == p[1..] + [c] && (p + [c])[0] == p[0];
      PrefixMore(p[1..], c, 8 * acc + (p[0] as nat - '0' as nat));
    }
  }

  lemma LastDigit(p: string)
    requires p != "" && Octal(p)
    ensures var n := |p| - 1;
            Octal(p[..n]) && OctalPrefix(p, 0) == 8 * OctalPrefix(p[..n], 0) + (p[n] as nat - '0' as nat)
  {
    var n := |p| - 1;
    assert p == p[..n] + [p[n]] && p[n] in p;
    assert forall c :: c in p[..n] ==> c in p;
    PrefixMore(p[..n], p[n], 0);
  }

  /** Bit b of an octal number is bit b mod 3 of its digit b / 3 from the end. */
  lemma {:induction false} OctalBit(p: string, b: nat)
    requires Octal(p)
    ensures OctalPrefix(p, 0) / Pow2(b) % 2 == 1 <==> b / 3 < |p| && DigitBit(p[|p| - 1 - b / 3], b % 3)
    decreases |p|
  {
    if p == "" {
      ZeroBits(b);
    } else {
      var n := |p| - 1;
      LastDigit(p);
      var v, d := OctalPrefix(p[..n], 0), p[n] as nat - '0' as nat;
      assert p[n] in p;
      if b < 3 {
        LowBits(v, d, b);
      } else {
        OctalBit(p[..n], b - 3);
        HighBits(v, d, b);
      }
    }
  }

  lemma ZeroBits(b: nat)
    ensures OctalPrefix("", 0) / Pow2(b) % 2 == 0
  {
    assert 0 / Pow2(b) == 0;
  }

  lemma LowBits(v: nat, d: nat, b: nat)
    requires d < 8 && b < 3
    ensures (8 * v + d) / Pow2(b) % 2 == 1 <==> if b == 0 then d == 1 || d == 3 || d == 5 || d == 7
                                                else if b == 1 then d == 2 || d == 3 || d == 6 || d == 7 else d >= 4
  {
    FirstPowers();
    LowThree(v, d);
  }

  lemma LowThree(v: nat, d: nat)
    requires d < 8
    ensures (8 * v + d) % 2 == d % 2 && (8 * v + d) / 2 % 2 == d / 2 % 2 && (8 * v + d) / 4 % 2 == d / 4 % 2
  {
    DivModUnique(8 * v + d, 2, 4 * v + d / 2, d % 2);
    DivModUnique(8 * v + d, 4, 2 * v + d / 4, d % 4);
    DivModUnique(4 * v + d / 2, 2, 2 * v + d / 4, d / 2 % 2);
    DivModUnique(2 * v + d / 4, 2, v, d / 4);
  }

  lemma FirstPowers()
    ensures Pow2(0) == 1 && Pow2(1) == 2 && Pow2(2) == 4
  {}

  lemma HighBits(v: nat, d: nat, b: nat)
    requires d < 8 && b >= 3
    ensures (8 * v + d) / Pow2(b) == v / Pow2(b - 3)
  {
    ThreeMore(b - 3);
    EightTimes(v, d, Pow2(b - 3));
  }

  lemma EightTimes(v: nat, d: nat, q: nat)
    requires d < 8 && q > 0
    ensures (8 * v + d) / (8 * q) == v / q
  {
    var k, r := v / q, v % q;
    assert v == q * k + r;
    assert 8 * v + d == (8 * q) * k + (8 * r + d) && 8 * r + d < 8 * q;
    DivModUnique(8 * v + d, 8 * q, k, 8 * r + d);
  }

  predicate AllZero(p: string) { forall c :: c in p ==> c == '0' }

  lemma {:induction false} ZeroExactly(p: string)
    requires Octal(p)
    ensures OctalPrefix(p, 0) == 0 <==> AllZero(p)
    decreases |p|
  {
    if p != "" {
      var n := |p| - 1;
      LastDigit(p);
      ZeroExactly(p[..n]);
      assert p == p[..n] + [p[n]] && p[n] in p && forall c :: c in p[..n] ==> c in p;
    }
  }

  /** Only zeros come before the last k digits. */
  predicate ZerosBefore(p: string, k: nat) { |p| <= k || AllZero(p[..|p| - k]) }

  lemma {:induction false} SmallExactly(p: string, k: nat)
    requires Octal(p)
    ensures OctalPrefix(p, 0) < Pow2(3 * k) <==> ZerosBefore(p, k)
    decreases k
  {
    if k == 0 {
      assert p[..|p|] == p;
      ZeroExactly(p);
    } else if p != "" {
      LastDigit(p);
      SmallExactly(p[..|p| - 1], k - 1);
      EightPower(k);
      assert p[|p| - 1] in p && (|p| > k ==> p[..|p| - 1][..|p| - 1 - (k - 1)] == p[..|p| - k]);
      assert ZerosBefore(p, k) <==> ZerosBefore(p[..|p| - 1], k - 1);
    }
  }

  lemma EightPower(k: nat)
    requires k > 0
    ensures Pow2(3 * k) == 8 * Pow2(3 * (k - 1))
  {
    var n: nat := 3 * (k - 1);
    ThreeMore(n);
    assert 3 * k == n + 3;
  }

  lemma ThreeMore(n: nat)
    ensures Pow2(n + 3) == 8 * Pow2(n)
  {
    assert Pow2(n + 3) == 2 * Pow2(n + 2) && Pow2(n + 2) == 2 * Pow2(n + 1);
  }

  /** A string of octal digits is a mode exactly when only zeros come before its last four digits; its bits are those of
      the digits. */
  lemma NumericMeans(p: string)
    requires p != "" && IsDigit(p[0]) && Octal(p)
    ensures NumericMode(p).Some? <==> ZerosBefore(p, 4)
    ensures NumericMode(p).Some? ==>
      forall b: nat :: b in NumericMode(p).value <==> b < 12 && b / 3 < |p| && DigitBit(p[|p| - 1 - b / 3], b % 3)
    ensures forall b: nat :: b in NUMERIC_BITS <==> b < 12
  {
    TailOf(p);
    SmallExactly(p, 4);
    TwelveBits();
    forall b: nat ensures b in BitsOf(OctalPrefix(p, 0)) <==> b < 12 && b / 3 < |p| && DigitBit(p[|p| - 1 - b / 3], b % 3) {
      OctalBit(p, b);
    }
  }

  lemma TwelveBits()
    ensures Pow2(3 * 4) == 4096
  {}

  /** Which bits the umask leaves. */
  lemma UmaskLeaves(umask: Mode, b: nat)
    requires b < 16
    ensures b in ALL_BITS - umask <==> b !in umask
  {}
}
