/** Strings as C sees them: characters up to a terminator. */
module CStrings {

  const NUL: char := 0 as char

  /** The character a cursor at i reads in a string without NUL. */
  function At(p: string, i: nat): char { if i < |p| then p[i] else NUL }

  lemma Terminator(p: string, i: nat)
    requires NUL !in p
    ensures At(p, i) == NUL <==> i >= |p|
  {
    if i < |p| {
      assert p[i] in p;
    }
  }

  predicate IsDigit(c: char) { '0' <= c <= '9' }

  /** A path component. */
  predicate IsName(c: string) { c != "" && '/' !in c && NUL !in c }

  /** strcspn(s, "/"). */
  function SpanToSlash(s: string): (n: nat)
    ensures n <= |s|
  {
    if s == "" || s[0] == '/' then 0 else 1 + SpanToSlash(s[1..])
  }

  lemma {:induction false} SpanFacts(s: string)
    ensures var n := SpanToSlash(s);
            (forall i :: 0 <= i < n ==> s[i] != '/') && (n < |s| ==> s[n] == '/')
  {
    if s != "" && s[0] != '/' {
      SpanFacts(s[1..]);
      var n := SpanToSlash(s);
      forall i | 0 <= i < n ensures s[i] != '/' {
        assert i > 0 ==> s[i] == s[1..][i - 1];
      }
    }
  }

  lemma {:induction false} SpanOfName(c: string, x: string)
    requires '/' !in c && (x == "" || x[0] == '/')
    ensures SpanToSlash(c + x) == |c|
  {
    if c == "" {
      assert c + x == x;
    } else {
      assert (c + x)[1..] == c[1..] + x;
      SpanOfName(c[1..], x);
    }
  }
}
