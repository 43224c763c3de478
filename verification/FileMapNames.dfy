/** What the filemap takes for the same name, character by character: ASCII letters are compared without regard to
    case, and nothing else is changed. */
module FileMapNames {

  import opened CStrings
  import opened Wrappers
  import opened FileMap
  import opened FileMapDelete
  import FileMapList

  // ---------------------------------------------------------------- names

  /** The same character, or the upper and the lower case of an ASCII letter, which are 32 apart. */
  predicate SameLetter(c: char, d: char) {
    c == d || ('A' <= c <= 'Z' && d as int == c as int + 32) || ('A' <= d <= 'Z' && c as int == d as int + 32)
  }

  predicate SameText(a: string, b: string) { |a| == |b| && forall i :: 0 <= i < |a| ==> SameLetter(a[i], b[i]) }

  /** The number that decides the order of characters: that of the lower case. */
  function Rank(c: char): int { if 'A' <= c <= 'Z' then c as int + 32 else c as int }

  lemma LetterFolds(c: char, d: char)
    ensures (Fold(c) == Fold(d) <==> SameLetter(c, d)) && Fold(c) as int == Rank(c)
  {}

  lemma {:induction false} SameFolded(a: string, b: string)
    ensures Folded(a) == Folded(b) <==> SameText(a, b)
  {
    if a != "" && b != "" {
      assert Folded(a)[0] == Fold(a[0]) && Folded(a)[1..] == Folded(a[1..]);
      assert Folded(b)[0] == Fold(b[0]) && Folded(b)[1..] == Folded(b[1..]);
      assert Folded(a) == [Fold(a[0])] + Folded(a[1..]) && Folded(b) == [Fold(b[0])] + Folded(b[1..]);
      LetterFolds(a[0], b[0]);
      SameFolded(a[1..], b[1..]);
      FirstSame(a, b);
    }
  }

  lemma FirstSame(a: string, b: string)
    requires a != "" && b != ""
    ensures SameText(a, b) <==> SameLetter(a[0], b[0]) && SameText(a[1..], b[1..])
  {
    if SameLetter(a[0], b[0]) && SameText(a[1..], b[1..]) {
      forall i | 0 <= i < |a| ensures SameLetter(a[i], b[i]) {
        assert i > 0 ==> a[i] == a[1..][i - 1] && b[i] == b[1..][i - 1];
      }
    }
  }

  lemma SameBehind(a: string, b: string, n: nat)
    requires SameText(a, b) && n <= |a|
    ensures SameText(a[..n], b[..n]) && SameText(a[n..], b[n..])
  {
    forall i | 0 <= i < |a| - n ensures SameLetter(a[n..][i], b[n..][i]) {
      assert SameLetter(a[n + i], b[n + i]);
    }
  }

  /** Two names compare equal exactly when they are the same text. */
  lemma CompareEqual(a: string, b: string)
    requires NUL !in a && NUL !in b
    ensures Cmp(a, b) == 0 <==> SameText(a, b)
  {
    CmpZero(a, b);
    SameFolded(a, b);
  }

  /** The first character that is not the same decides; a name before which the other one ends is larger. */
  lemma {:induction false} CompareDecides(a: string, b: string, n: nat)
    requires NUL !in a && NUL !in b && n <= |a| && n <= |b| && SameText(a[..n], b[..n])
    ensures n < |a| && n < |b| && !SameLetter(a[n], b[n]) ==> (Cmp(a, b) < 0 <==> Rank(a[n]) < Rank(b[n])) && Cmp(a, b) != 0
    ensures n == |a| < |b| ==> Cmp(a, b) < 0
    ensures n == |b| < |a| ==> Cmp(a, b) > 0
  {
    assert a != "" ==> a[0] in a;
    assert b != "" ==> b[0] in b;
    if n == 0 {
      if a != "" && b != "" {
        LetterFolds(a[0], b[0]);
        LetterFolds(b[0], a[0]);
      }
    } else {
      assert SameLetter(a[..n][0], b[..n][0]);
      LetterFolds(a[0], b[0]);
      FirstSame(a[..n], b[..n]);
      assert a[..n][1..] == a[1..][..n - 1] && b[..n][1..] == b[1..][..n - 1];
      CompareDecides(a[1..], b[1..], n - 1);
    }
  }

  /** List takes the same texts for equal. */
  lemma ValuesAlike(a: string, b: string)
    ensures FileMapList.Alike(a, b) <==> SameText(a, b)
  {
    SameFolded(a, b);
  }

  // ---------------------------------------------------------------- paths

  /** The components of a path as they are written. */
  function Components(path: string): seq<string>
    decreases |path|
  {
    match NextPart(path)
    case NoPart => []
    case FilePart(name) => [name]
    case DirPart(name, rest) => [name] + Components(rest)
  }

  /** A path denotes a key exactly when it is not empty and does not end in a slash. */
  lemma {:induction false} KeyExactly(path: string)
    ensures KeyOf(path).Some? <==> path != "" && path[|path| - 1] != '/'
    decreases |path|
  {
    if path != "" && path[0] == '/' {
      KeyExactly(path[1..]);
    } else if path != "" {
      var n := SpanToSlash(path);
      SpanFacts(path);
      if n < |path| {
        KeyExactly(path[n + 1..]);
      }
    }
  }

  predicate SameComponents(p: string, q: string) {
    |Components(p)| == |Components(q)|
    && forall i :: 0 <= i < |Components(p)| ==> SameText(Components(p)[i], Components(q)[i])
  }

  lemma {:induction false} KeyAt(path: string)
    requires KeyOf(path).Some?
    ensures |KeyOf(path).value| == |Components(path)|
    ensures forall i :: 0 <= i < |Components(path)| ==> KeyOf(path).value[i] == Folded(Components(path)[i])
    decreases |path|
  {
    match NextPart(path)
    case DirPart(_, rest) => KeyAt(rest);
    case _ =>
  }

  /** Two paths that denote keys denote the same one exactly when their components are the same text, one by one. */
  lemma SameKeyExactly(p: string, q: string)
    requires KeyOf(p).Some? && KeyOf(q).Some?
    ensures KeyOf(p) == KeyOf(q) <==> SameComponents(p, q)
  {
    KeyAt(p);
    KeyAt(q);
    var k, l := KeyOf(p).value, KeyOf(q).value;
    if |k| == |l| {
      forall i | 0 <= i < |k| ensures k[i] == l[i] <==> SameText(Components(p)[i], Components(q)[i]) {
        SameFolded(Components(p)[i], Components(q)[i]);
      }
      if SameComponents(p, q) {
        assert k == l;
      }
    }
  }

  lemma {:induction false} SpansAlike(p: string, q: string)
    requires SameText(p, q)
    ensures SpanToSlash(p) == SpanToSlash(q)
  {
    if p != "" {
      assert SameLetter(p[0], q[0]);
      FirstSame(p, q);
      if p[0] != '/' {
        SpansAlike(p[1..], q[1..]);
      }
    }
  }

  /** Paths that differ only in case have the same key. */
  lemma {:induction false} KeysAlike(p: string, q: string)
    requires SameText(p, q)
    ensures KeyOf(p) == KeyOf(q)
    decreases |p|
  {
    if p != "" {
      assert SameLetter(p[0], q[0]);
      FirstSame(p, q);
      if p[0] == '/' {
        KeysAlike(p[1..], q[1..]);
      } else {
        SpansAlike(p, q);
        var n := SpanToSlash(p);
        SameFolded(p[..n], q[..n]);
        SameFolded(p, q);
        if n < |p| {
          SameBehind(p, q, n + 1);
          KeysAlike(p[n + 1..], q[n + 1..]);
        }
      }
    }
  }

  /** So they find the same field in every tree. */
  lemma CaseDoesNotMatter(subs: seq<Tree>, p: string, q: string)
    requires Sorted(subs) && NUL !in p && NUL !in q && SameText(p, q)
    ensures Get(subs, p) == Get(subs, q)
  {
    KeysAlike(p, q);
    GetIsLookup(subs, p);
    GetIsLookup(subs, q);
  }

  /** What was set for a path is found by exactly the paths with the same components; all others find what they found
      before. */
  lemma SetIsFoundBy(subs: seq<Tree>, p: string, value: string, q: string)
    requires Sorted(subs) && NUL !in p && NUL !in q && ShortParts(p) && Set(subs, p, value).1 == Ok
    ensures var s := Set(subs, p, value).0;
            if q != "" && q[|q| - 1] != '/' && SameComponents(p, q) then Get(s, q).Some? && Get(s, q).value.text == Cut(value)
            else Get(s, q) == Get(subs, q)
  {
    KeyExactly(q);
    SetKeepsSorted(subs, p, value);
    GetIsLookup(Set(subs, p, value).0, q);
    GetIsLookup(subs, q);
    SetBindsExactly(subs, p, value, if KeyOf(q).Some? then KeyOf(q).value else []);
    if KeyOf(q).Some? {
      SameKeyExactly(p, q);
    }
  }

  /** After an Unset exactly the paths at and below its own find nothing more. */
  lemma UnsetIsMissedBy(subs: seq<Tree>, p: string, q: string)
    requires Sorted(subs) && NUL !in p && NUL !in q && Deletable(subs, p) && KeyOf(p).Some?
    ensures var s, c, d := Delete(subs, p).0, Components(p), Components(q);
            Get(s, q) ==
            if |c| <= |d| && (forall i :: 0 <= i < |c| ==> SameText(c[i], d[i])) then None else Get(subs, q)
  {
    DeleteKeepsSorted(subs, p);
    GetIsLookup(Delete(subs, p).0, q);
    GetIsLookup(subs, q);
    if KeyOf(q).Some? {
      var k, l := KeyOf(p).value, KeyOf(q).value;
      DeleteUnbindsExactly(subs, p, l);
      KeyAt(p);
      KeyAt(q);
      forall i | 0 <= i < |k| && i < |l| ensures k[i] == l[i] <==> SameText(Components(p)[i], Components(q)[i]) {
        SameFolded(Components(p)[i], Components(q)[i]);
      }
      if |k| <= |l| && forall i :: 0 <= i < |k| ==> k[i] == l[i] {
        assert k == l[..|k|];
      }
    }
  }
}
