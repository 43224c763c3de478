/** Listing the paths of a value: the recursive walk, and why it finds each of them once and in order. */
module FileMapList {

  import opened CStrings
  import opened Wrappers
  import opened Sequences
  import opened FileMap
  import opened FileMapNodes

  // ---------------------------------------------------------------- the list of paths

  /** strcasecmp says that the strings are equal. */
  predicate Alike(a: string, b: string) { Folded(a) == Folded(b) }

  /** strcasecmp on a value field ends within it: at a terminator, or at a difference before. */
  predicate Ends(v: Value, value: string) { Readable(v) || !(Folded(v.text) <= Folded(value)) }

  /** What the walk appends below the path sub. */
  function ListTree(t: Tree, value: string, sub: string): seq<string>
    decreases t, 0
  {
    match t
    case Leaf(name, w) => if Alike(w.text, value) then [sub + name] else []
    case Dir(name, subs) => ListTrees(subs, value, sub + name + "/")
  }

  function ListTrees(subs: seq<Tree>, value: string, sub: string): seq<string>
    decreases subs, 1
  {
    if subs == [] then [] else ListTree(subs[0], value, sub) + ListTrees(subs[1..], value, sub)
  }

  /** List on a root with the given subnodes. */
  function List(subs: seq<Tree>, value: string): seq<string> { ListTree(Dir("", subs), value, "") }

  // ---------------------------------------------------------------- the walk

  class OutList {
    var items: seq<string>

    constructor ()
      ensures items == []
    {
      items := [];
    }

    /** ListSubtree; not ended when a comparison runs on behind a value field. */
    method ListSubtree(n: Node, value: string, sub: string) returns (ends: bool)
      requires n.Valid()
      modifies this
      ensures ends == EachValue(n.AsTree(), v => Ends(v, value))
      ensures ends ==> items == old(items) + ListTree(n.AsTree(), value, sub)
      decreases n.Repr, 1
    {
      ends := true;
      if n.isLeaf {
        if !Ends(Value(n.value, n.closed), value) {
          return false;
        }
        if Alike(n.value, value) {
          items := items + [sub + n.name];
        }
      } else {
        ends := ListSubnodes(n, value, sub + n.name + "/");
      }
    }

    /** The iteration over the subnodes. */
    method ListSubnodes(n: Node, value: string, sub: string) returns (ends: bool)
      requires n.Valid() && !n.isLeaf
      modifies this
      ensures ends == EachValueIn(n.subs, v => Ends(v, value))
      ensures ends ==> items == old(items) + ListTrees(n.subs, value, sub)
      decreases n.Repr, 0
    {
      var i := 0;
      ghost var p: Value -> bool := v => Ends(v, value);
      ghost var all := items + ListTrees(n.subs, value, sub);
      assert n.subs[0..] == n.subs;
      while i < |n.subnodes|
        invariant i <= |n.subnodes|
        invariant all == items + ListTrees(n.subs[i..], value, sub)
        invariant EachValueIn(n.subs, p) == EachValueIn(n.subs[i..], p)
      {
        var c := n.subnodes[i];
        assert c.Valid() && c.Repr < n.Repr && n.subs[i] == c.AsTree();
        Unfold(n.subs, i, value, sub, p);
        Regroup(items, ListTree(n.subs[i], value, sub), ListTrees(n.subs[i + 1..], value, sub));
        ends := ListSubtree(c, value, sub);
        if !ends {
          return;
        }
        i := i + 1;
      }
      assert n.subs[i..] == [];
      ends := true;
    }
  }

  lemma Unfold(subs: seq<Tree>, i: nat, value: string, sub: string, p: Value -> bool)
    requires i < |subs|
    ensures ListTrees(subs[i..], value, sub) == ListTree(subs[i], value, sub) + ListTrees(subs[i + 1..], value, sub)
    ensures EachValueIn(subs[i..], p) == (EachValue(subs[i], p) && EachValueIn(subs[i + 1..], p))
  {
    assert subs[i..][1..] == subs[i + 1..];
  }

  // ---------------------------------------------------------------- the list of keys

  function Below(f: string, keys: seq<Key>): (r: seq<Key>)
    ensures |r| == |keys| && forall i :: 0 <= i < |r| ==> r[i] == [f] + keys[i]
  {
    seq(|keys|, i requires 0 <= i < |keys| => [f] + keys[i])
  }

  function KeysIn(t: Tree, value: string): seq<Key>
    decreases t, 0
  {
    match t
    case Leaf(name, w) => if Alike(w.text, value) then [[Folded(name)]] else []
    case Dir(name, subs) => Below(Folded(name), Keys(subs, value))
  }

  function Keys(subs: seq<Tree>, value: string): seq<Key>
    decreases subs, 1
  {
    if subs == [] then [] else KeysIn(subs[0], value) + Keys(subs[1..], value)
  }

  function Prepend(pre: Key, k: Option<Key>): Option<Key> { if k.None? then None else Some(pre + k.value) }

  /** What follows the path sub has its key below the key pre. */
  ghost predicate Leads(sub: string, pre: Key) { forall q :: KeyOf(sub + q) == Prepend(pre, KeyOf(q)) }

  lemma RootLeads()
    ensures Leads("/", [])
  {
    forall q: string ensures KeyOf("/" + q) == Prepend([], KeyOf(q)) {
      assert ("/" + q)[1..] == q;
      assert NextPart("/" + q) == NextPart(q);
      var k := KeyOf(q);
      assert k.Some? ==> [] + k.value == k.value;
    }
  }

  lemma KeyOfDir(name: string, q: string)
    requires IsName(name)
    ensures KeyOf(name + "/" + q) == Prepend([Folded(name)], KeyOf(q))
  {
    var p := name + "/" + q;
    assert p == name + ("/" + q) && p[0] == name[0] && name[0] in name;
    SpanOfName(name, "/" + q);
    assert p[..|name|] == name && p[|name| + 1..] == q;
    assert NextPart(p) == DirPart(name, q);
  }

  lemma KeyOfFile(name: string)
    requires IsName(name)
    ensures KeyOf(name) == Some([Folded(name)])
  {
    assert name + "" == name && name[0] in name;
    SpanOfName(name, "");
    assert NextPart(name) == FilePart(name);
  }

  lemma DirLeads(sub: string, pre: Key, name: string)
    requires Leads(sub, pre) && IsName(name)
    ensures Leads(sub + name + "/", pre + [Folded(name)])
  {
    forall q ensures KeyOf(sub + name + "/" + q) == Prepend(pre + [Folded(name)], KeyOf(q)) {
      KeyBelow(sub, pre, name, q);
    }
  }

  lemma KeyBelow(sub: string, pre: Key, name: string, q: string)
    requires Leads(sub, pre) && IsName(name)
    ensures KeyOf(sub + name + "/" + q) == Prepend(pre + [Folded(name)], KeyOf(q))
  {
    var tail := name + "/" + q;
    Shift(sub, name, "/", q);
    assert KeyOf(sub + tail) == Prepend(pre, KeyOf(tail));
    KeyOfDir(name, q);
    if KeyOf(q).Some? {
      Regroup(pre, [Folded(name)], KeyOf(q).value);
    }
  }

  lemma Shift(a: string, b: string, c: string, d: string)
    ensures a + b + c + d == a + (b + c + d)
  {}

  /** The paths and the keys, in step. */
  predicate Parallel(paths: seq<string>, pre: Key, keys: seq<Key>) {
    |paths| == |keys| && forall i :: 0 <= i < |paths| ==> KeyOf(paths[i]) == Some(pre + keys[i])
  }

  lemma {:induction false} TreeParallel(t: Tree, value: string, sub: string, pre: Key)
    requires IsName(t.name) && (t.Dir? ==> Sorted(t.subs)) && Leads(sub, pre)
    ensures Parallel(ListTree(t, value, sub), pre, KeysIn(t, value))
    decreases t, 0
  {
    if t.Leaf? {
      KeyOfFile(t.name);
      assert KeyOf(sub + t.name) == Prepend(pre, KeyOf(t.name));
    } else {
      DirLeads(sub, pre, t.name);
      TreesParallel(t.subs, value, sub + t.name + "/", pre + [Folded(t.name)]);
      Deeper(ListTree(t, value, sub), pre, Folded(t.name), Keys(t.subs, value));
    }
  }

  lemma Deeper(paths: seq<string>, pre: Key, f: string, keys: seq<Key>)
    requires Parallel(paths, pre + [f], keys)
    ensures Parallel(paths, pre, Below(f, keys))
  {
    forall i | 0 <= i < |paths| ensures KeyOf(paths[i]) == Some(pre + Below(f, keys)[i]) {
      assert pre + [f] + keys[i] == pre + ([f] + keys[i]);
    }
  }

  lemma {:induction false} TreesParallel(subs: seq<Tree>, value: string, sub: string, pre: Key)
    requires Sorted(subs) && Leads(sub, pre)
    ensures Parallel(ListTrees(subs, value, sub), pre, Keys(subs, value))
    decreases subs, 1
  {
    if subs != [] {
      assert subs[0] in subs;
      TreeParallel(subs[0], value, sub, pre);
      SortedTail(subs);
      TreesParallel(subs[1..], value, sub, pre);
    }
  }

  // ---------------------------------------------------------------- which keys they are

  /** The key is bound to a value like this one. */
  predicate Matches(subs: seq<Tree>, key: Key, value: string) {
    Lookup(subs, key).Some? && Alike(Lookup(subs, key).value.text, value)
  }

  predicate MatchesIn(t: Tree, key: Key, value: string) {
    key != [] && key[0] == Folded(t.name) && MatchesChild(t, key, value)
  }

  lemma BelowHas(f: string, keys: seq<Key>, key: Key)
    ensures key in Below(f, keys) <==> key != [] && key[0] == f && key[1..] in keys
  {
    if key in Below(f, keys) {
      var i :| 0 <= i < |keys| && Below(f, keys)[i] == key;
      assert key[1..] == keys[i];
    }
    if key != [] && key[0] == f && key[1..] in keys {
      var i :| 0 <= i < |keys| && keys[i] == key[1..];
      assert Below(f, keys)[i] == key;
    }
  }

  lemma {:induction false} KeysInExactly(t: Tree, value: string, key: Key)
    requires t.Dir? ==> Sorted(t.subs)
    ensures key in KeysIn(t, value) <==> MatchesIn(t, key, value)
    decreases t, 0
  {
    if t.Leaf? {
      assert key != [] && |key| == 1 ==> key == [key[0]];
    } else {
      BelowHas(Folded(t.name), Keys(t.subs, value), key);
      if key != [] {
        KeysExactly(t.subs, value, key[1..]);
      }
    }
  }

  /** The keys are those bound to such a value. */
  lemma {:induction false} KeysExactly(subs: seq<Tree>, value: string, key: Key)
    requires Sorted(subs)
    ensures key in Keys(subs, value) <==> Matches(subs, key, value)
    decreases subs, 1
  {
    if subs != [] {
      assert subs[0] in subs;
      KeysInExactly(subs[0], value, key);
      SortedTail(subs);
      KeysExactly(subs[1..], value, key);
      FirstOrLater(subs, key, value);
    }
  }

  /** A match is decided by the child that the first component of the key names. */
  lemma MatchIsIn(subs: seq<Tree>, key: Key, value: string)
    ensures Matches(subs, key, value) <==>
            key != [] && Child(subs, key[0]).Some? && MatchesChild(Child(subs, key[0]).value, key, value)
  {
    if |key| > 1 {
      LookupBelow(subs, key);
    }
  }

  predicate MatchesChild(t: Tree, key: Key, value: string)
    requires key != []
  {
    if t.Leaf? then |key| == 1 && Alike(t.value.text, value) else Matches(t.subs, key[1..], value)
  }

  lemma FirstOrLater(subs: seq<Tree>, key: Key, value: string)
    requires Sorted(subs) && subs != []
    ensures Matches(subs, key, value) <==> MatchesIn(subs[0], key, value) || Matches(subs[1..], key, value)
  {
    MatchIsIn(subs, key, value);
    MatchIsIn(subs[1..], key, value);
    OnlyFirst(subs);
  }

  // ---------------------------------------------------------------- their order

  /** Tree order: the first component that differs decides. */
  predicate Before(k: Key, l: Key) {
    k != [] && l != [] && (Cmp(k[0], l[0]) < 0 || (k[0] == l[0] && Before(k[1..], l[1..])))
  }

  lemma {:induction false} BeforeIsStrict(k: Key)
    ensures !Before(k, k)
  {
    if k != [] {
      SelfIsZero(k[0]);
      BeforeIsStrict(k[1..]);
    }
  }

  lemma {:induction false} SelfIsZero(a: string)
    ensures Cmp(a, a) == 0
  {
    if a != "" {
      SelfIsZero(a[1..]);
    }
  }

  lemma {:induction false} CmpFolded(a: string, b: string)
    requires NUL !in a
    ensures Cmp(a, b) < 0 <==> Cmp(Folded(a), Folded(b)) < 0
  {
    if a != "" {
      assert a[0] in a && Folded(a)[1..] == Folded(a[1..]);
    }
    if b != "" {
      assert Folded(b)[1..] == Folded(b[1..]);
    }
    if a != "" && b != "" && Fold(a[0]) == Fold(b[0]) {
      CmpFolded(a[1..], b[1..]);
    }
  }

  predicate Ascending(keys: seq<Key>) { forall i, j :: 0 <= i < j < |keys| ==> Before(keys[i], keys[j]) }

  lemma {:induction false} KeysInAscending(t: Tree, value: string)
    requires t.Dir? ==> Sorted(t.subs)
    ensures Ascending(KeysIn(t, value))
    decreases t, 0
  {
    if t.Dir? {
      var keys := Keys(t.subs, value);
      KeysAscending(t.subs, value);
      var b := KeysIn(t, value);
      forall i, j | 0 <= i < j < |b| ensures Before(b[i], b[j]) {
        assert b[i][1..] == keys[i] && b[j][1..] == keys[j];
      }
    }
  }

  /** The keys are in tree order, so each occurs once. */
  lemma {:induction false} KeysAscending(subs: seq<Tree>, value: string)
    requires Sorted(subs)
    ensures Ascending(Keys(subs, value))
    decreases subs, 1
  {
    if subs != [] {
      assert subs[0] in subs;
      SortedTail(subs);
      KeysInAscending(subs[0], value);
      KeysAscending(subs[1..], value);
      forall k, l | k in KeysIn(subs[0], value) && l in Keys(subs[1..], value) ensures Before(k, l) {
        FirstBefore(subs, value, k, l);
      }
      Joined(KeysIn(subs[0], value), Keys(subs[1..], value));
    }
  }

  lemma FirstBefore(subs: seq<Tree>, value: string, k: Key, l: Key)
    requires Sorted(subs) && subs != [] && k in KeysIn(subs[0], value) && l in Keys(subs[1..], value)
    ensures Before(k, l)
  {
    assert subs[0] in subs;
    SortedTail(subs);
    KeysInExactly(subs[0], value, k);
    KeysExactly(subs[1..], value, l);
    if |l| > 1 {
      LookupBelow(subs[1..], l);
    }
    var i := ChildFacts(subs[1..], l[0]);
    assert Cmp(subs[0].name, subs[i + 1].name) < 0;
    CmpFolded(subs[0].name, subs[i + 1].name);
  }

  lemma Joined(a: seq<Key>, b: seq<Key>)
    requires Ascending(a) && Ascending(b) && forall k, l :: k in a && l in b ==> Before(k, l)
    ensures Ascending(a + b)
  {
    var c := a + b;
    forall i, j | 0 <= i < j < |c| ensures Before(c[i], c[j]) {
      if i < |a| <= j {
        assert c[i] in a && c[j] in b;
      }
    }
  }

  // ---------------------------------------------------------------- what List returns

  /** Get on a listed path finds a value that is equal ignoring case. */
  lemma ListedIsBound(subs: seq<Tree>, value: string, i: nat)
    requires Sorted(subs) && i < |List(subs, value)|
    ensures var g := Get(subs, List(subs, value)[i]);
            g.Some? && Alike(g.value.text, value)
  {
    ListInStep(subs, value);
    KeysExactly(subs, value, Keys(subs, value)[i]);
    ListedAreStrings(subs, value, "/");
    GetIsLookup(subs, List(subs, value)[i]);
  }

  lemma {:induction false} ListedIsString(t: Tree, value: string, sub: string)
    requires IsName(t.name) && (t.Dir? ==> Sorted(t.subs)) && NUL !in sub
    ensures forall p :: p in ListTree(t, value, sub) ==> NUL !in p
    decreases t, 0
  {
    if t.Dir? {
      ListedAreStrings(t.subs, value, sub + t.name + "/");
    }
  }

  lemma {:induction false} ListedAreStrings(subs: seq<Tree>, value: string, sub: string)
    requires Sorted(subs) && NUL !in sub
    ensures forall p :: p in ListTrees(subs, value, sub) ==> NUL !in p
    decreases subs, 1
  {
    if subs != [] {
      assert subs[0] in subs;
      ListedIsString(subs[0], value, sub);
      SortedTail(subs);
      ListedAreStrings(subs[1..], value, sub);
    }
  }

  lemma ListInStep(subs: seq<Tree>, value: string)
    requires Sorted(subs)
    ensures List(subs, value) == ListTrees(subs, value, "/") && |List(subs, value)| == |Keys(subs, value)|
    ensures forall i :: 0 <= i < |List(subs, value)| ==> KeyOf(List(subs, value)[i]) == Some(Keys(subs, value)[i])
  {
    RootLeads();
    assert "" + "" + "/" == "/";
    TreesParallel(subs, value, "/", []);
    forall i | 0 <= i < |Keys(subs, value)| ensures [] + Keys(subs, value)[i] == Keys(subs, value)[i] {}
  }

  /** A key is listed precisely when it is bound to a value that is equal ignoring case. */
  lemma ListsExactly(subs: seq<Tree>, value: string, key: Key)
    requires Sorted(subs)
    ensures Matches(subs, key, value) <==>
            exists i :: 0 <= i < |List(subs, value)| && KeyOf(List(subs, value)[i]) == Some(key)
  {
    ListInStep(subs, value);
    KeysExactly(subs, value, key);
    var paths, keys := List(subs, value), Keys(subs, value);
    if key in keys {
      var i :| 0 <= i < |keys| && keys[i] == key;
      assert KeyOf(paths[i]) == Some(key);
    }
  }

  /** The listed keys are strictly ascending in tree order, so no key is listed twice. */
  lemma ListsInOrder(subs: seq<Tree>, value: string, i: nat, j: nat)
    requires Sorted(subs) && i < j < |List(subs, value)|
    ensures var k, l := KeyOf(List(subs, value)[i]), KeyOf(List(subs, value)[j]);
            k.Some? && l.Some? && Before(k.value, l.value) && k != l
  {
    ListInStep(subs, value);
    KeysAscending(subs, value);
    BeforeIsStrict(Keys(subs, value)[i]);
  }
}
