/** Version comparison: digit runs are compared as numbers without being converted, and why this orders
    versions of numbers. */
module VerComp {

  import opened CStrings
  import opened Wrappers

  predicate IsAlpha(c: char) { 'a' <= c <= 'z' || 'A' <= c <= 'Z' }
  predicate IsAlnum(c: char) { IsDigit(c) || IsAlpha(c) }

  // ---------------------------------------------------------------- the comparison

  /** What remains behind leading separators. */
  function Skip(s: string): (r: string)
    ensures |r| <= |s| && (r != "" ==> IsAlnum(r[0]))
  {
    if s == "" || IsAlnum(s[0]) then s else Skip(s[1..])
  }

  /** The length of a leading segment of digits or of letters. */
  function Run(digits: bool, s: string): (n: nat)
    ensures n <= |s|
  {
    if s != "" && (if digits then IsDigit(s[0]) else IsAlpha(s[0])) then 1 + Run(digits, s[1..]) else 0
  }

  function StripZeros(s: string): (r: string)
    ensures |r| <= |s|
  {
    if s != "" && s[0] == '0' then StripZeros(s[1..]) else s
  }

  /** The first difference of two segments; a segment and its prefix do not differ. */
  function Text(s: string, t: string): int {
    if s == "" || t == "" then 0
    else if s[0] == t[0] then Text(s[1..], t[1..])
    else s[0] as int - t[0] as int
  }

  /** How two segments of the same kind compare. */
  function Segment(digits: bool, s: string, t: string): int {
    if !digits then Text(s, t)
    else
      var s1, t1 := StripZeros(s), StripZeros(t);
      if |s1| > |t1| then 1 else if |s1| < |t1| then -1 else Text(s1, t1)
  }

  /** The comparison of what is left of both versions.  The loop that skips separators in A is not
      bounded by the end of A: None stands for reading behind it. */
  function Cmp(a: string, b: string): Option<int>
    decreases |a|
  {
    if a == "" || b == "" then Some(if a != "" then 1 else if b != "" then -1 else 0)
    else
      var a1, b1 := Skip(a), Skip(b);
      if a1 == "" then None
      else if IsDigit(a1[0]) && (b1 == "" || !IsDigit(b1[0])) then Some(1)
      else if IsAlpha(a1[0]) && b1 != "" && IsDigit(b1[0]) then Some(-1)
      else
        var digits := !IsAlpha(a1[0]);
        var m, n := Run(digits, a1), Run(digits, b1);
        var c := Segment(digits, a1[..m], b1[..n]);
        if c != 0 then Some(c) else Cmp(a1[m..], b1[n..])
  }

  function VerCmp(a: string, b: string): Option<int> { if a == b then Some(0) else Cmp(a, b) }

  // ---------------------------------------------------------------- its loops

  /** while (ptr != end && !isalnum(*ptr)) ptr++; */
  method SkipSeparators(s: string, from: nat) returns (i: nat)
    requires from <= |s|
    ensures from <= i <= |s| && s[i..] == Skip(s[from..])
  {
    i := from;
    while i < |s| && !IsAlnum(s[i])
      invariant from <= i <= |s| && Skip(s[i..]) == Skip(s[from..])
    {
      assert s[i..][1..] == s[i + 1..];
      i := i + 1;
    }
  }

  /** The end of the segment at the cursor. */
  method SegmentEnd(digits: bool, s: string, from: nat) returns (i: nat)
    requires from <= |s|
    ensures from <= i <= |s| && i - from == Run(digits, s[from..])
  {
    i := from;
    while i < |s| && (if digits then IsDigit(s[i]) else IsAlpha(s[i]))
      invariant from <= i <= |s| && i - from + Run(digits, s[i..]) == Run(digits, s[from..])
    {
      assert s[i..][1..] == s[i + 1..];
      i := i + 1;
    }
  }

  /** Leading zeros are skipped and no longer counted. */
  method SkipZeros(s: string, from: nat, to: nat) returns (i: nat)
    requires from <= to <= |s|
    ensures from <= i <= to && s[i..to] == StripZeros(s[from..to])
  {
    i := from;
    while i < to && s[i] == '0'
      invariant from <= i <= to && StripZeros(s[i..to]) == StripZeros(s[from..to])
    {
      assert s[i..to][1..] == s[i + 1..to];
      i := i + 1;
    }
  }

  /** Compares two segments lexicographically. */
  method CompareText(a: string, i0: nat, ei: nat, b: string, j0: nat, ej: nat) returns (r: int)
    requires i0 <= ei <= |a| && j0 <= ej <= |b|
    ensures r == Text(a[i0..ei], b[j0..ej])
  {
    var i, j := i0, j0;
    while i < ei && j < ej && a[i] == b[j]
      invariant i0 <= i <= ei && j0 <= j <= ej && Text(a[i..ei], b[j..ej]) == Text(a[i0..ei], b[j0..ej])
    {
      assert a[i..ei][1..] == a[i + 1..ei] && b[j..ej][1..] == b[j + 1..ej];
      i, j := i + 1, j + 1;
    }
    r := if i < ei && j < ej then a[i] as int - b[j] as int else 0;
  }

  method CompareSegments(digits: bool, a: string, i0: nat, ei: nat, b: string, j0: nat, ej: nat) returns (r: int)
    requires i0 <= ei <= |a| && j0 <= ej <= |b|
    ensures r == Segment(digits, a[i0..ei], b[j0..ej])
  {
    var i, j := i0, j0;
    if digits {
      i := SkipZeros(a, i0, ei);
      j := SkipZeros(b, j0, ej);
      if ei - i > ej - j {
        return 1;
      }
      if ej - j > ei - i {
        return -1;
      }
    }
    r := CompareText(a, i, ei, b, j, ej);
  }

  /** vercmp; a terminator follows each version. */
  method Vercmp(a: string, b: string) returns (r: Option<int>)
    ensures r == VerCmp(a, b)
  {
    if a == b {
      return Some(0);
    }
    var i: nat, j: nat := 0, 0;
    assert a[0..] == a && b[0..] == b;
    while i < |a| && j < |b|
      invariant i <= |a| && j <= |b| && Cmp(a[i..], b[j..]) == Cmp(a, b)
      decreases |a| - i
    {
      var done;
      done, r, i, j := OneSegment(a, i, b, j);
      if done {
        return;
      }
    }
    r := Some(if i < |a| then 1 else if j < |b| then -1 else 0);
  }

  /** The body of its loop: it decides, or it moves behind two equal segments. */
  method OneSegment(a: string, i0: nat, b: string, j0: nat) returns (done: bool, r: Option<int>, i: nat, j: nat)
    requires i0 < |a| && j0 < |b|
    ensures done ==> r == Cmp(a[i0..], b[j0..])
    ensures !done ==> i0 < i <= |a| && j <= |b| && Cmp(a[i..], b[j..]) == Cmp(a[i0..], b[j0..])
  {
    done := true;
    i := SkipSeparators(a, i0);
    j := j0;
    if i == |a| {
      r := None;
      return;
    }
    j := SkipSeparators(b, j0);
    if IsDigit(a[i]) && !IsDigit(At(b, j)) {
      r := Some(1);
      return;
    }
    if IsAlpha(a[i]) && IsDigit(At(b, j)) {
      r := Some(-1);
      return;
    }
    var c, ei, ej := CompareAt(a, i, b, j);
    SegmentStep(a[i0..], b[j0..], a[i..], b[j..], !IsAlpha(a[i]), ei - i, ej - j, c);
    done, r, i, j := c != 0, Some(c), ei, ej;
  }

  /** Two segments of the same kind: how they compare, and where they end. */
  method CompareAt(a: string, i: nat, b: string, j: nat) returns (c: int, ei: nat, ej: nat)
    requires i < |a| && j <= |b| && IsAlnum(a[i])
    ensures i < ei <= |a| && j <= ej <= |b| && a[i..][ei - i..] == a[ei..] && b[j..][ej - j..] == b[ej..]
    ensures var digits := !IsAlpha(a[i]);
            ei - i == Run(digits, a[i..]) && ej - j == Run(digits, b[j..])
            && c == Segment(digits, a[i..][..ei - i], b[j..][..ej - j])
  {
    var digits := !IsAlpha(a[i]);
    ei := SegmentEnd(digits, a, i);
    ej := SegmentEnd(digits, b, j);
    c := CompareSegments(digits, a, i, ei, b, j, ej);
    Segments(a, i, ei);
    Segments(b, j, ej);
    RunStarts(digits, a[i..]);
  }

  lemma SegmentStep(a: string, b: string, a1: string, b1: string, digits: bool, m: nat, n: nat, c: int)
    requires a != "" && b != "" && a1 == Skip(a) && b1 == Skip(b) && a1 != ""
    requires !(IsDigit(a1[0]) && (b1 == "" || !IsDigit(b1[0]))) && !(IsAlpha(a1[0]) && b1 != "" && IsDigit(b1[0]))
    requires digits == !IsAlpha(a1[0]) && m == Run(digits, a1) && n == Run(digits, b1) && c == Segment(digits, a1[..m], b1[..n])
    ensures Cmp(a, b) == if c != 0 then Some(c) else Cmp(a1[m..], b1[n..])
  {}

  lemma Segments(s: string, i: nat, e: nat)
    requires i <= e <= |s|
    ensures s[i..][..e - i] == s[i..e] && s[i..][e - i..] == s[e..]
  {}

  lemma RunStarts(digits: bool, s: string)
    requires s != "" && IsAlnum(s[0]) && digits == !IsAlpha(s[0])
    ensures Run(digits, s) > 0
  {}

  // ---------------------------------------------------------------- versions of numbers

  /** The number a digit run denotes. */
  function Number(s: string): nat {
    if s == "" then 0 else 10 * Number(s[..|s| - 1]) + (if IsDigit(s[|s| - 1]) then s[|s| - 1] as int - '0' as int else 0)
  }

  /** The numbers of a version, in order. */
  function Numbers(a: string): seq<nat>
    decreases |a|
  {
    var a1 := Skip(a);
    var m := Run(true, a1);
    if m == 0 then [] else [Number(a1[..m])] + Numbers(a1[m..])
  }

  /** No letters, and no separator at the end. */
  predicate Numeric(a: string) {
    (forall c :: c in a ==> !IsAlpha(c)) && (a != "" ==> IsDigit(a[|a| - 1]))
  }

  predicate AllDigits(s: string) { forall c :: c in s ==> IsDigit(c) }

  function Sign(x: int): int { if x > 0 then 1 else if x < 0 then -1 else 0 }

  /** Lexicographic comparison; a proper prefix is smaller. */
  function Lex(x: seq<nat>, y: seq<nat>): int {
    if x == [] || y == [] then (if x != [] then 1 else if y != [] then -1 else 0)
    else if x[0] > y[0] then 1
    else if x[0] < y[0] then -1
    else Lex(x[1..], y[1..])
  }

  function Pow10(n: nat): nat { if n == 0 then 1 else 10 * Pow10(n - 1) }

  lemma {:induction false} NumberFromLeft(s: string)
    requires s != "" && AllDigits(s)
    ensures Number(s) == (s[0] as int - '0' as int) * Pow10(|s| - 1) + Number(s[1..])
  {
    if |s| == 1 {
      assert s[..0] == "" && s[1..] == "";
    } else {
      var front, n := s[..|s| - 1], |s|;
      NumberFromLeft(front);
      assert front[1..] == s[1..][..n - 2] && s[1..][n - 2] == s[n - 1];
      Shifted(s[0] as int - '0' as int, Pow10(n - 2), Number(front[1..]), s[n - 1] as int - '0' as int);
    }
  }

  lemma Shifted(d: int, p: int, x: int, e: int)
    ensures 10 * (d * p + x) + e == d * (10 * p) + (10 * x + e)
  {}

  lemma {:induction false} NumberBelow(s: string)
    ensures Number(s) < Pow10(|s|)
  {
    if s != "" {
      NumberBelow(s[..|s| - 1]);
    }
  }

  lemma {:induction false} ZerosDoNotCount(s: string)
    requires AllDigits(s)
    ensures Number(StripZeros(s)) == Number(s) && AllDigits(StripZeros(s))
    ensures StripZeros(s) != "" ==> StripZeros(s)[0] != '0'
  {
    if s != "" && s[0] == '0' {
      NumberFromLeft(s);
      ZerosDoNotCount(s[1..]);
    }
  }

  lemma {:induction false} TextIsNumeric(s: string, t: string)
    requires AllDigits(s) && AllDigits(t) && |s| == |t|
    ensures Sign(Text(s, t)) == Sign(Number(s) - Number(t))
  {
    if s != "" {
      NumberFromLeft(s);
      NumberFromLeft(t);
      assert s[0] in s && t[0] in t;
      if s[0] == t[0] {
        TextIsNumeric(s[1..], t[1..]);
      } else {
        NumberBelow(s[1..]);
        NumberBelow(t[1..]);
        HigherDigit(s[0] as int - '0' as int, t[0] as int - '0' as int, Pow10(|s| - 1), Number(s[1..]), Number(t[1..]));
      }
    }
  }

  lemma HigherDigit(d: nat, e: nat, p: nat, x: nat, y: nat)
    requires d != e && x < p && y < p
    ensures Sign(d - e) == Sign(d * p + x - (e * p + y))
  {
    if d > e {
      Apart(d, e, p);
    } else {
      Apart(e, d, p);
    }
  }

  lemma Apart(d: nat, e: nat, p: nat)
    requires d > e
    ensures d * p >= e * p + p
  {
    var k := d - e - 1;
    assert d * p == (e + k + 1) * p == e * p + k * p + p;
  }

  lemma LongerIsLarger(s: string, t: string)
    requires AllDigits(s) && AllDigits(t) && |s| > |t| && s[0] != '0'
    ensures Number(s) > Number(t)
  {
    NumberFromLeft(s);
    NumberBelow(t);
    assert s[0] in s;
    PowGrows(|t|, |s| - 1);
    Apart(s[0] as int - '0' as int, 0, Pow10(|s| - 1));
  }

  lemma {:induction false} PowGrows(m: nat, n: nat)
    requires m <= n
    ensures 0 < Pow10(m) <= Pow10(n)
  {
    if n > 0 {
      PowGrows(if m > 0 then m - 1 else 0, n - 1);
    }
  }

  /** Digit runs of any length compare as the numbers they denote. */
  lemma SegmentIsNumeric(s: string, t: string)
    requires AllDigits(s) && AllDigits(t)
    ensures Sign(Segment(true, s, t)) == Sign(Number(s) - Number(t))
  {
    var s1, t1 := StripZeros(s), StripZeros(t);
    ZerosDoNotCount(s);
    ZerosDoNotCount(t);
    if |s1| > |t1| {
      LongerIsLarger(s1, t1);
    } else if |s1| < |t1| {
      LongerIsLarger(t1, s1);
    } else {
      TextIsNumeric(s1, t1);
      assert Sign(Segment(true, s, t)) == Sign(Number(s1) - Number(t1));
    }
  }

  /** A numeric version starts, behind its separators, with a digit run, and what follows is numeric. */
  lemma {:induction false} FirstNumber(a: string)
    requires Numeric(a) && a != ""
    ensures var a1 := Skip(a);
            a1 != "" && IsDigit(a1[0]) && var m := Run(true, a1);
            0 < m && AllDigits(a1[..m]) && Numeric(a1[m..])
  {
    if IsAlnum(a[0]) {
      assert a[0] in a;
      RunOfDigits(a);
      var m := Run(true, a);
      forall c | c in a[m..] ensures !IsAlpha(c) {
        assert c in a;
      }
    } else {
      forall c | c in a[1..] ensures !IsAlpha(c) {
        assert c in a;
      }
      FirstNumber(a[1..]);
    }
  }

  lemma {:induction false} RunOfDigits(a: string)
    ensures AllDigits(a[..Run(true, a)])
  {
    if a != "" && IsDigit(a[0]) {
      RunOfDigits(a[1..]);
      assert a[..Run(true, a)] == [a[0]] + a[1..][..Run(true, a[1..])];
    }
  }

  /** On versions of numbers, with any separators, vercmp is the lexicographic order of the numbers. */
  lemma {:induction false} CmpIsLex(a: string, b: string)
    requires Numeric(a) && Numeric(b)
    ensures Cmp(a, b).Some? && Sign(Cmp(a, b).value) == Lex(Numbers(a), Numbers(b))
    decreases |a|
  {
    if a == "" || b == "" {
      if a != "" {
        FirstNumber(a);
      }
      if b != "" {
        FirstNumber(b);
      }
    } else {
      FirstNumber(a);
      FirstNumber(b);
      var a1, b1 := Skip(a), Skip(b);
      var m, n := Run(true, a1), Run(true, b1);
      SegmentIsNumeric(a1[..m], b1[..n]);
      CmpIsLex(a1[m..], b1[n..]);
      assert Numbers(a)[1..] == Numbers(a1[m..]) && Numbers(b)[1..] == Numbers(b1[n..]);
    }
  }

  lemma VerCmpIsLex(a: string, b: string)
    requires Numeric(a) && Numeric(b)
    ensures VerCmp(a, b).Some? && Sign(VerCmp(a, b).value) == Lex(Numbers(a), Numbers(b))
  {
    if a == b {
      LexReflexive(Numbers(a));
    } else {
      CmpIsLex(a, b);
    }
  }

  lemma {:induction false} LexReflexive(x: seq<nat>)
    ensures Lex(x, x) == 0
  {
    if x != [] {
      LexReflexive(x[1..]);
    }
  }

  lemma {:induction false} LexOpposite(x: seq<nat>, y: seq<nat>)
    ensures Lex(x, y) == -Lex(y, x)
  {
    if x != [] && y != [] && x[0] == y[0] {
      LexOpposite(x[1..], y[1..]);
    }
  }

  lemma {:induction false} LexTransitive(x: seq<nat>, y: seq<nat>, z: seq<nat>)
    requires Lex(x, y) <= 0 && Lex(y, z) <= 0
    ensures Lex(x, z) <= 0
  {
    if x != [] && y != [] && z != [] && x[0] == y[0] == z[0] {
      LexTransitive(x[1..], y[1..], z[1..]);
    }
  }

  lemma {:induction false} LexZero(x: seq<nat>, y: seq<nat>)
    ensures Lex(x, y) == 0 <==> x == y
  {
    if x != [] && y != [] {
      if x[0] == y[0] {
        LexZero(x[1..], y[1..]);
      }
      assert x == [x[0]] + x[1..] && y == [y[0]] + y[1..];
    }
  }

  /** So it is a collation on them: total, antisymmetric in its sign, transitive, and equality means
      that the numbers are the same. */
  lemma CollatesNumericVersions(a: string, b: string, c: string)
    requires Numeric(a) && Numeric(b) && Numeric(c)
    ensures var ab, ba, bc, ac := VerCmp(a, b), VerCmp(b, a), VerCmp(b, c), VerCmp(a, c);
            ab.Some? && ba.Some? && bc.Some? && ac.Some?
            && Sign(ab.value) == -Sign(ba.value)
            && (ab.value <= 0 && bc.value <= 0 ==> ac.value <= 0)
            && (ab.value == 0 <==> Numbers(a) == Numbers(b))
  {
    VerCmpIsLex(a, b);
    VerCmpIsLex(b, a);
    VerCmpIsLex(b, c);
    VerCmpIsLex(a, c);
    LexOpposite(Numbers(a), Numbers(b));
    LexZero(Numbers(a), Numbers(b));
    if Lex(Numbers(a), Numbers(b)) <= 0 && Lex(Numbers(b), Numbers(c)) <= 0 {
      LexTransitive(Numbers(a), Numbers(b), Numbers(c));
    }
  }

  /** With letters it is not: a segment equals each of its prefixes. */
  lemma LettersAreNotCollated()
    ensures VerCmp("ab", "a") == Some(0) && VerCmp("a", "ac") == Some(0) && VerCmp("ab", "ac") == Some(-1)
  {
    var x, y, z := "a", "ab", "ac";
    assert y[1..] == "b" && z[1..] == "c" && x[1..] == "" && "b"[1..] == "" && "c"[1..] == "";
    assert Run(false, x) == 1 && Run(false, y) == 2 && Run(false, z) == 2;
    assert x[..1] == x && y[..2] == y && z[..2] == z && x[1..] == "" && y[2..] == "" && z[2..] == "";
    assert Text(y, x) == 0 && Text(x, z) == 0 && Text(y, z) == -1;
  }

  // ---------------------------------------------------------------- reading behind A

  lemma {:induction false} SkipKeepsEnd(a: string)
    requires a != ""
    ensures IsAlnum(a[|a| - 1]) ==> Skip(a) != "" && Skip(a)[|Skip(a)| - 1] == a[|a| - 1]
    ensures Skip(a) != "" ==> Skip(a)[|Skip(a)| - 1] == a[|a| - 1]
  {
    if !IsAlnum(a[0]) && |a| > 1 {
      SkipKeepsEnd(a[1..]);
    }
  }

  lemma {:induction false} EndsWell(a: string, b: string)
    requires a != "" ==> IsAlnum(a[|a| - 1])
    ensures Cmp(a, b).Some?
    decreases |a|
  {
    if a != "" && b != "" {
      SkipKeepsEnd(a);
      var a1, b1 := Skip(a), Skip(b);
      if !(IsDigit(a1[0]) && (b1 == "" || !IsDigit(b1[0]))) {
        var digits := !IsAlpha(a1[0]);
        RunStarts(digits, a1);
        EndsWell(a1[Run(digits, a1)..], b1[Run(digits, b1)..]);
      }
    }
  }

  lemma {:induction false} SkipExtended(a: string)
    ensures Skip(a) != "" ==> Skip(a + "0") == Skip(a) + "0"
  {
    if a != "" && !IsAlnum(a[0]) {
      assert (a + "0")[1..] == a[1..] + "0";
      SkipExtended(a[1..]);
    }
  }

  lemma {:induction false} RunExtended(digits: bool, a: string)
    requires a != "" && !IsAlnum(a[|a| - 1])
    ensures Run(digits, a + "0") == Run(digits, a) < |a|
  {
    if (digits && IsDigit(a[0])) || (!digits && IsAlpha(a[0])) {
      assert (a + "0")[1..] == a[1..] + "0";
      RunExtended(digits, a[1..]);
    }
  }

  lemma {:induction false} SegmentReflexive(digits: bool, s: string)
    ensures Segment(digits, s, s) == 0
  {
    TextReflexive(if digits then StripZeros(s) else s);
  }

  lemma {:induction false} TextReflexive(s: string)
    ensures Text(s, s) == 0
  {
    if s != "" {
      TextReflexive(s[1..]);
    }
  }

  lemma {:induction false} EndsBadly(a: string)
    requires a != "" && !IsAlnum(a[|a| - 1])
    ensures Cmp(a, a + "0").None?
    decreases |a|
  {
    SkipKeepsEnd(a);
    SkipExtended(a);
    var a1 := Skip(a);
    if a1 != "" {
      var digits := !IsAlpha(a1[0]);
      RunStarts(digits, a1);
      RunExtended(digits, a1);
      var m := Run(digits, a1);
      assert (a1 + "0")[..m] == a1[..m] && (a1 + "0")[m..] == a1[m..] + "0" && (a1 + "0")[0] == a1[0];
      SegmentReflexive(digits, a1[..m]);
      EndsBadly(a1[m..]);
    }
  }

  /** No comparison reads behind a version exactly when the version is empty or ends in a letter or a digit. */
  lemma StaysInsideExactly(a: string)
    ensures (forall b :: VerCmp(a, b).Some?) <==> (a == "" || IsAlnum(a[|a| - 1]))
  {
    if a == "" || IsAlnum(a[|a| - 1]) {
      forall b ensures VerCmp(a, b).Some? {
        EndsWell(a, b);
      }
    } else {
      EndsBadly(a);
      assert VerCmp(a, a + "0").None?;
    }
  }

  /** Such a comparison. */
  lemma ReadsBehind()
    ensures VerCmp("1.", "1.0").None?
  {
    EndsBadly("1.");
    assert "1." + "0" == "1.0";
  }
}
