/** What vercmp takes for digits, letters and segments, character by character, and which character decides. */
module VerLaws {

  import opened CStrings
  import opened Wrappers
  import opened VerComp
  import opened VerOrder

  // ---------------------------------------------------------------- characters

  predicate Digit(c: char) { 48 <= c as int <= 57 }

  predicate Letter(c: char) { 65 <= c as int <= 90 || 97 <= c as int <= 122 }

  lemma KindsAre(c: char)
    ensures (IsDigit(c) <==> Digit(c)) && (IsAlpha(c) <==> Letter(c)) && (IsAlnum(c) <==> Digit(c) || Letter(c))
  {}

  // ---------------------------------------------------------------- segments

  /** Characters i to j of a version are digits, or letters, and no longer run of them starts at i. */
  predicate RunAt(digits: bool, a: string, i: nat, j: nat) {
    i < j <= |a| && (forall k :: i <= k < j ==> if digits then Digit(a[k]) else Letter(a[k]))
    && (j < |a| ==> !(if digits then Digit(a[j]) else Letter(a[j])))
  }

  lemma {:induction false} Skips(a: string, i: nat)
    requires i <= |a| && forall k :: 0 <= k < i ==> !Digit(a[k]) && !Letter(a[k])
    requires i < |a| ==> Digit(a[i]) || Letter(a[i])
    ensures Skip(a) == a[i..]
  {
    if i > 0 {
      KindsAre(a[0]);
      Skips(a[1..], i - 1);
    } else if a != "" {
      KindsAre(a[0]);
    }
  }

  lemma {:induction false} RunIs(digits: bool, a: string, j: nat)
    requires j <= |a| && forall k :: 0 <= k < j ==> if digits then Digit(a[k]) else Letter(a[k])
    requires j < |a| ==> !(if digits then Digit(a[j]) else Letter(a[j]))
    ensures Run(digits, a) == j
  {
    if a != "" {
      KindsAre(a[0]);
    }
    if j > 0 {
      RunIs(digits, a[1..], j - 1);
    }
  }

  /** Behind characters that are neither, the first run is the first segment, and the others follow behind it. */
  lemma FirstSegment(digits: bool, a: string, i: nat, j: nat)
    requires RunAt(digits, a, i, j) && forall k :: 0 <= k < i ==> !Digit(a[k]) && !Letter(a[k])
    ensures Segs(a) == [if digits then Num(Number(a[i..j])) else Word(a[i..j])] + Segs(a[j..])
  {
    Skips(a, i);
    KindsAre(a[i]);
    RunIs(digits, a[i..], j - i);
    Segments(a, i, j);
  }

  lemma NoSegments(a: string)
    requires forall k :: 0 <= k < |a| ==> !Digit(a[k]) && !Letter(a[k])
    ensures Segs(a) == []
  {
    Skips(a, |a|);
  }

  predicate AreNumbers(x: seq<Seg>, n: seq<nat>) { |x| == |n| && forall i :: 0 <= i < |x| ==> x[i] == Num(n[i]) }

  /** The numbers of a version of numbers are its segments. */
  lemma {:induction false} NumbersAreSegments(a: string)
    requires Numeric(a)
    ensures AreNumbers(Segs(a), Numbers(a))
    decreases |a|
  {
    if a != "" {
      FirstNumber(a);
      NumbersAreSegments(Skip(a)[Run(true, Skip(a))..]);
    }
  }

  // ---------------------------------------------------------------- which character decides

  /** The first characters that differ decide; without them the segments do not differ. */
  lemma {:induction false} TextDecides(s: string, t: string, n: nat)
    requires n <= |s| && n <= |t| && s[..n] == t[..n]
    ensures n < |s| && n < |t| && s[n] != t[n] ==> Text(s, t) == s[n] as int - t[n] as int
    ensures n == |s| || n == |t| ==> Text(s, t) == 0
  {
    if n > 0 {
      assert s[0] == s[..n][0] == t[..n][0] == t[0];
      assert s[1..][..n - 1] == s[..n][1..] && t[1..][..n - 1] == t[..n][1..];
      TextDecides(s[1..], t[1..], n - 1);
    }
  }

  predicate Letters(w: string) { w != "" && forall i :: 0 <= i < |w| ==> Letter(w[i]) }

  lemma AreWords(w: string)
    requires Letters(w)
    ensures IsWord(w)
  {
    forall i | 0 <= i < |w| ensures IsAlpha(w[i]) {
      KindsAre(w[i]);
    }
  }

  /** Of two words the one with the larger character where they first differ is newer; a word and its prefix are the
      same version. */
  lemma WordsDecide(v: string, w: string, n: nat)
    requires Letters(v) && Letters(w) && n <= |v| && n <= |w| && v[..n] == w[..n]
    ensures VerCmp(v, w).Some?
    ensures n < |v| && n < |w| && v[n] != w[n] ==> (VerCmp(v, w).value > 0 <==> v[n] > w[n]) && VerCmp(v, w).value != 0
    ensures n == |v| || n == |w| ==> VerCmp(v, w).value == 0
  {
    AreWords(v);
    AreWords(w);
    WordsCompare(v, w);
    TextDecides(v, w, n);
  }

  /** A number is newer than a word. */
  lemma NumbersAreNewer(a: string, b: string)
    requires a != "" && b != "" && Digit(a[0]) && Letter(b[0])
    ensures VerCmp(a, b) == Some(1) && VerCmp(b, a) == Some(-1)
  {
    KindsAre(a[0]);
    KindsAre(b[0]);
  }
}
