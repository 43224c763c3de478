/** Sequences regrouped, and translated group by group. */
module Sequences {

  lemma Regroup<T>(a: seq<T>, b: seq<T>, c: seq<T>)
    ensures a + b + c == a + (b + c)
  {}

  /** Groups of k elements, each replaced by what f makes of it; an incomplete group is left out. */
  function Chunks<A, B>(f: seq<A> -> seq<B>, k: nat, s: seq<A>): seq<B>
    requires k > 0
    decreases |s|
  {
    if |s| < k then [] else f(s[..k]) + Chunks(f, k, s[k..])
  }

  /** f makes l elements of k. */
  ghost predicate Maps<A(!new), B>(f: seq<A> -> seq<B>, k: nat, l: nat) { forall g :: |g| == k ==> |f(g)| == l }

  lemma OneLess(k: nat, n: nat)
    requires n > 0
    ensures k * (n - 1) == k * n - k && k * n >= k
  {}

  lemma {:induction false} ChunksLength<A(!new), B>(f: seq<A> -> seq<B>, k: nat, l: nat, n: nat, s: seq<A>)
    requires k > 0 && Maps(f, k, l) && |s| == k * n
    ensures |Chunks(f, k, s)| == l * n
    decreases n
  {
    if n > 0 {
      OneLess(k, n);
      OneLess(l, n);
      ChunksLength(f, k, l, n - 1, s[k..]);
    }
  }

  /** Whole groups in front are translated on their own. */
  lemma {:induction false} ChunksAppend<A, B>(f: seq<A> -> seq<B>, k: nat, n: nat, s: seq<A>, t: seq<A>)
    requires k > 0 && |s| == k * n
    ensures Chunks(f, k, s + t) == Chunks(f, k, s) + Chunks(f, k, t)
    decreases n
  {
    if n == 0 {
      assert s + t == t;
    } else {
      OneLess(k, n);
      ChunksAppend(f, k, n - 1, s[k..], t);
      assert (s + t)[..k] == s[..k] && (s + t)[k..] == s[k..] + t;
    }
  }

  /** Where g undoes f on a group, it undoes it on whole groups. */
  lemma {:induction false} ChunksUndo<A(!new), B>(f: seq<A> -> seq<B>, g: seq<B> -> seq<A>, k: nat, l: nat, n: nat, s: seq<A>)
    requires k > 0 && l > 0 && Maps(f, k, l) && |s| == k * n && forall c :: |c| == k ==> g(f(c)) == c
    ensures Chunks(g, l, Chunks(f, k, s)) == s
    decreases n
  {
    if n > 0 {
      OneLess(k, n);
      ChunksUndo(f, g, k, l, n - 1, s[k..]);
      var x, y := f(s[..k]), Chunks(f, k, s[k..]);
      assert (x + y)[..l] == x && (x + y)[l..] == y;
      assert s == s[..k] + s[k..];
    }
  }
}
