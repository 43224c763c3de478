/** The order that vercmp gives versions of letters and numbers: what it finds equal, and on which versions
    it is a collation. */
module VerOrder {

  import opened Wrappers
  import opened VerComp

  // ---------------------------------------------------------------- versions as lists of segments

  datatype Seg = Num(n: nat) | Word(w: string)

  /** The segments of a version, without their separators. */
  function Segs(a: string): seq<Seg>
    decreases |a|
  {
    var a1 := Skip(a);
    if a1 == "" then []
    else if IsAlpha(a1[0]) then
      var m := Run(false, a1);
      [Word(a1[..m])] + Segs(a1[m..])
    else
      var m := Run(true, a1);
      [Num(Number(a1[..m]))] + Segs(a1[m..])
  }

  /** A version that ends in a letter or a digit. */
  predicate Proper(a: string) { a == "" || IsAlnum(a[|a| - 1]) }

  function SegCmp(x: Seg, y: Seg): int {
    match (x, y)
    case (Num(m), Num(n)) => if m > n then 1 else if m < n then -1 else 0
    case (Num(_), Word(_)) => 1
    case (Word(_), Num(_)) => -1
    case (Word(v), Word(w)) => Sign(Text(v, w))
  }

  /** Lexicographic comparison of lists of segments; a proper prefix is smaller. */
  function SegLex(x: seq<Seg>, y: seq<Seg>): int {
    if x == [] || y == [] then (if x != [] then 1 else if y != [] then -1 else 0)
    else if SegCmp(x[0], y[0]) != 0 then SegCmp(x[0], y[0])
    else SegLex(x[1..], y[1..])
  }

  lemma ProperRest(a: string, m: nat)
    requires Proper(a) && a != "" && m <= |Skip(a)|
    ensures Skip(a) != "" && Proper(Skip(a)[m..])
  {
    SkipKeepsEnd(a);
  }

  /** Two segments, as the program compares them. */
  lemma SegmentIsSegCmp(a1: string, b1: string)
    requires a1 != "" && b1 != "" && IsAlnum(a1[0]) && IsAlnum(b1[0]) && IsAlpha(a1[0]) == IsAlpha(b1[0])
    ensures var digits := !IsAlpha(a1[0]);
            Segs(a1) != [] && Segs(b1) != []
            && Sign(Segment(digits, a1[..Run(digits, a1)], b1[..Run(digits, b1)])) == SegCmp(Segs(a1)[0], Segs(b1)[0])
            && Segs(a1)[1..] == Segs(a1[Run(digits, a1)..]) && Segs(b1)[1..] == Segs(b1[Run(digits, b1)..])
  {
    if !IsAlpha(a1[0]) {
      RunOfDigits(a1);
      RunOfDigits(b1);
      SegmentIsNumeric(a1[..Run(true, a1)], b1[..Run(true, b1)]);
    }
  }

  lemma {:induction false} SegsOfSkip(a: string)
    ensures Segs(Skip(a)) == Segs(a)
    decreases |a|
  {
    SkipTwice(a);
  }

  lemma {:induction false} SkipTwice(a: string)
    ensures Skip(Skip(a)) == Skip(a)
  {
    if a != "" && !IsAlnum(a[0]) {
      SkipTwice(a[1..]);
    }
  }

  /** On versions that end in a letter or a digit, vercmp is the lexicographic order of their segments. */
  lemma {:induction false} CmpIsSegLex(a: string, b: string)
    requires Proper(a) && Proper(b)
    ensures Cmp(a, b).Some? && Sign(Cmp(a, b).value) == SegLex(Segs(a), Segs(b))
    decreases |a|
  {
    SegsOfSkip(a);
    SegsOfSkip(b);
    if a != "" {
      ProperRest(a, 0);
    }
    if b != "" {
      ProperRest(b, 0);
    }
    var a1, b1 := Skip(a), Skip(b);
    if a != "" && b != "" && IsAlpha(a1[0]) == IsAlpha(b1[0]) {
      var digits := !IsAlpha(a1[0]);
      RunStarts(digits, a1);
      ProperRest(a, Run(digits, a1));
      ProperRest(b, Run(digits, b1));
      SegmentIsSegCmp(a1, b1);
      CmpIsSegLex(a1[Run(digits, a1)..], b1[Run(digits, b1)..]);
    }
  }

  lemma VerCmpIsSegLex(a: string, b: string)
    requires Proper(a) && Proper(b)
    ensures VerCmp(a, b).Some? && Sign(VerCmp(a, b).value) == SegLex(Segs(a), Segs(b))
  {
    if a == b {
      SegLexReflexive(Segs(a));
    } else {
      CmpIsSegLex(a, b);
    }
  }

  lemma {:induction false} SegLexReflexive(x: seq<Seg>)
    ensures SegLex(x, x) == 0
  {
    if x != [] {
      if x[0].Word? {
        TextReflexive(x[0].w);
      }
      SegLexReflexive(x[1..]);
    }
  }

  // ---------------------------------------------------------------- what is equal

  predicate Related(v: string, w: string) { v <= w || w <= v }

  lemma {:induction false} TextZero(v: string, w: string)
    ensures Text(v, w) == 0 <==> Related(v, w)
  {
    if v != "" && w != "" && v[0] == w[0] {
      TextZero(v[1..], w[1..]);
      RelatedTails(v, w);
    }
  }

  lemma RelatedTails(v: string, w: string)
    requires v != "" && w != "" && v[0] == w[0]
    ensures Related(v, w) <==> Related(v[1..], w[1..])
  {
    assert v == [v[0]] + v[1..] && w == [w[0]] + w[1..];
  }

  predicate Matches(x: Seg, y: Seg) {
    match (x, y)
    case (Num(m), Num(n)) => m == n
    case (Word(v), Word(w)) => Related(v, w)
    case _ => false
  }

  predicate AllMatch(x: seq<Seg>, y: seq<Seg>) {
    |x| == |y| && forall i :: 0 <= i < |x| ==> Matches(x[i], y[i])
  }

  lemma {:induction false} SegLexZero(x: seq<Seg>, y: seq<Seg>)
    ensures SegLex(x, y) == 0 <==> AllMatch(x, y)
  {
    if x != [] && y != [] {
      if x[0].Word? && y[0].Word? {
        TextZero(x[0].w, y[0].w);
      }
      assert SegCmp(x[0], y[0]) == 0 <==> Matches(x[0], y[0]);
      SegLexZero(x[1..], y[1..]);
      if AllMatch(x[1..], y[1..]) && Matches(x[0], y[0]) {
        forall i | 0 <= i < |x| ensures Matches(x[i], y[i]) {
          assert i > 0 ==> x[i] == x[1..][i - 1] && y[i] == y[1..][i - 1];
        }
      }
      if AllMatch(x, y) {
        forall i | 0 <= i < |x[1..]| ensures Matches(x[1..][i], y[1..][i]) {
          assert Matches(x[i + 1], y[i + 1]);
        }
      }
    }
  }

  /** vercmp finds two versions equal exactly when their segments match one by one: numbers are equal, and
      of two runs of letters one is a prefix of the other. */
  lemma EqualExactly(a: string, b: string)
    requires Proper(a) && Proper(b)
    ensures VerCmp(a, b) == Some(0) <==> AllMatch(Segs(a), Segs(b))
  {
    VerCmpIsSegLex(a, b);
    SegLexZero(Segs(a), Segs(b));
  }

  // ---------------------------------------------------------------- when it is a collation

  lemma {:induction false} TextOpposite(v: string, w: string)
    ensures Sign(Text(v, w)) == -Sign(Text(w, v))
  {
    if v != "" && w != "" && v[0] == w[0] {
      TextOpposite(v[1..], w[1..]);
    }
  }

  lemma {:induction false} SegLexOpposite(x: seq<Seg>, y: seq<Seg>)
    ensures SegLex(x, y) == -SegLex(y, x)
  {
    if x != [] && y != [] {
      if x[0].Word? && y[0].Word? {
        TextOpposite(x[0].w, y[0].w);
      }
      SegLexOpposite(x[1..], y[1..]);
    }
  }

  predicate AtMost(a: string, b: string) { VerCmp(a, b).Some? && VerCmp(a, b).value <= 0 }

  /** Any two of them can be compared, and the sign changes when they are exchanged. */
  lemma Total(a: string, b: string)
    requires Proper(a) && Proper(b)
    ensures VerCmp(a, b).Some? && VerCmp(b, a).Some? && Sign(VerCmp(a, b).value) == -Sign(VerCmp(b, a).value)
    ensures AtMost(a, b) || AtMost(b, a)
  {
    VerCmpIsSegLex(a, b);
    VerCmpIsSegLex(b, a);
    SegLexOpposite(Segs(a), Segs(b));
  }

  /** Among three words, being related is transitive. */
  predicate Closed(u: string, v: string, w: string) {
    (Related(u, v) && Related(v, w) ==> Related(u, w))
    && (Related(u, v) && Related(u, w) ==> Related(v, w))
    && (Related(u, w) && Related(v, w) ==> Related(u, v))
  }

  lemma {:induction false} TextChain(u: string, v: string, w: string)
    requires Closed(u, v, w) && Text(u, v) <= 0 && Text(v, w) <= 0
    ensures Text(u, w) <= 0 && (Text(u, v) < 0 || Text(v, w) < 0 ==> Text(u, w) < 0)
  {
    if u == "" || v == "" || w == "" {
      TextZero(u, v);
      TextZero(v, w);
      TextZero(u, w);
    } else if u[0] == v[0] == w[0] {
      RelatedTails(u, v);
      RelatedTails(v, w);
      RelatedTails(u, w);
      TextChain(u[1..], v[1..], w[1..]);
    }
  }

  /** Words are related in a transitive way. */
  ghost predicate Transitive(words: iset<string>) {
    forall u, v, w :: u in words && v in words && w in words && Related(u, v) && Related(v, w) ==> Related(u, w)
  }

  predicate Over(x: Seg, words: iset<string>) { x.Word? ==> x.w in words }

  predicate AllOver(x: seq<Seg>, words: iset<string>) { forall i :: 0 <= i < |x| ==> Over(x[i], words) }

  lemma SegChain(x: Seg, y: Seg, z: Seg, words: iset<string>)
    requires Transitive(words) && Over(x, words) && Over(y, words) && Over(z, words)
    requires SegCmp(x, y) <= 0 && SegCmp(y, z) <= 0
    ensures SegCmp(x, z) <= 0 && (SegCmp(x, y) < 0 || SegCmp(y, z) < 0 ==> SegCmp(x, z) < 0)
  {
    if x.Word? && y.Word? && z.Word? {
      assert Related(y.w, x.w) <==> Related(x.w, y.w);
      assert Related(z.w, y.w) <==> Related(y.w, z.w);
      TextChain(x.w, y.w, z.w);
    }
  }

  lemma {:induction false} SegLexChain(x: seq<Seg>, y: seq<Seg>, z: seq<Seg>, words: iset<string>)
    requires Transitive(words) && AllOver(x, words) && AllOver(y, words) && AllOver(z, words)
    requires SegLex(x, y) <= 0 && SegLex(y, z) <= 0
    ensures SegLex(x, z) <= 0
  {
    if x != [] && y != [] && z != [] {
      SegChain(x[0], y[0], z[0], words);
      if SegCmp(x[0], y[0]) == 0 && SegCmp(y[0], z[0]) == 0 {
        SegLexChain(x[1..], y[1..], z[1..], words);
      }
    }
  }

  predicate IsWord(w: string) { w != "" && forall i :: 0 <= i < |w| ==> IsAlpha(w[i]) }

  /** Versions whose runs of letters are among these words. */
  predicate VersionOver(a: string, words: iset<string>) { Proper(a) && AllOver(Segs(a), words) }

  lemma {:induction false} RunOfWord(w: string)
    requires forall i :: 0 <= i < |w| ==> IsAlpha(w[i])
    ensures Run(false, w) == |w|
  {
    if w != "" {
      RunOfWord(w[1..]);
    }
  }

  lemma WordIsVersion(w: string)
    requires IsWord(w)
    ensures Proper(w) && Segs(w) == [Word(w)]
  {
    RunOfWord(w);
    assert Skip(w) == w && w[..|w|] == w && w[|w|..] == "";
    assert Segs("") == [];
  }

  lemma WordsCompare(v: string, w: string)
    requires IsWord(v) && IsWord(w)
    ensures VerCmp(v, w).Some? && Sign(VerCmp(v, w).value) == Sign(Text(v, w))
  {
    WordIsVersion(v);
    WordIsVersion(w);
    VerCmpIsSegLex(v, w);
  }

  ghost predicate OrderIsTransitive(words: iset<string>) {
    forall a, b, c :: VersionOver(a, words) && VersionOver(b, words) && VersionOver(c, words) && AtMost(a, b) && AtMost(b, c)
                      ==> AtMost(a, c)
  }

  /** On the versions over a set of words, vercmp is a collation (total by the above, and transitive)
      exactly when being a prefix one way or the other is transitive on the words. */
  lemma CollatesExactly(words: iset<string>)
    requires forall w :: w in words ==> IsWord(w)
    ensures OrderIsTransitive(words) <==> Transitive(words)
  {
    if Transitive(words) {
      forall a, b, c | VersionOver(a, words) && VersionOver(b, words) && VersionOver(c, words) && AtMost(a, b) && AtMost(b, c)
        ensures AtMost(a, c)
      {
        VerCmpIsSegLex(a, b);
        VerCmpIsSegLex(b, c);
        VerCmpIsSegLex(a, c);
        SegLexChain(Segs(a), Segs(b), Segs(c), words);
      }
    }
    if OrderIsTransitive(words) {
      forall u, v, w | u in words && v in words && w in words && Related(u, v) && Related(v, w) ensures Related(u, w) {
        WordsTransitive(u, v, w, words);
      }
    }
  }

  lemma WordsTransitive(u: string, v: string, w: string, words: iset<string>)
    requires IsWord(u) && IsWord(v) && IsWord(w) && u in words && v in words && w in words
    requires OrderIsTransitive(words) && Related(u, v) && Related(v, w)
    ensures Related(u, w)
  {
    WordIsVersion(u);
    WordIsVersion(v);
    WordIsVersion(w);
    WordsZero(u, v);
    WordsZero(v, w);
    WordsZero(u, w);
    assert VersionOver(u, words) && VersionOver(v, words) && VersionOver(w, words);
    assert AtMost(u, w) && AtMost(w, u);
  }

  lemma WordsZero(v: string, w: string)
    requires IsWord(v) && IsWord(w)
    ensures AtMost(v, w) && AtMost(w, v) <==> Related(v, w)
  {
    WordsCompare(v, w);
    WordsCompare(w, v);
    TextOpposite(v, w);
    TextZero(v, w);
  }
}
