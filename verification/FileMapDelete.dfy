/** Deleting from a filemap: which keys it unbinds, when it succeeds, and what it must not meet on its way. */
module FileMapDelete {

  import opened CStrings
  import opened Wrappers
  import opened FileMap

  // ---------------------------------------------------------------- Delete

  /** Delete keeps the siblings strictly sorted. */
  lemma {:induction false} DeleteKeepsSorted(subs: seq<Tree>, path: string)
    requires Sorted(subs) && NUL !in path
    ensures Sorted(Delete(subs, path).0)
    decreases |path|
  {
    PartFacts(path);
    match NextPart(path)
    case NoPart =>
    case FilePart(name) =>
      var i := Search(subs, name);
      if Hit(subs, i, name) {
        SortedRemove(subs, i);
      }
    case DirPart(name, rest) =>
      var i := Search(subs, name);
      if Hit(subs, i, name) && subs[i].Dir? {
        assert subs[i] in subs;
        DeleteKeepsSorted(subs[i].subs, rest);
        SortedRemove(subs, i);
        SortedUpdate(subs, i, Dir(subs[i].name, Delete(subs[i].subs, rest).0));
      }
  }

  /** Delete prunes the directories it empties. */
  lemma {:induction false} DeleteKeepsPruned(subs: seq<Tree>, path: string)
    requires Pruned(subs)
    ensures Pruned(Delete(subs, path).0)
    decreases |path|
  {
    match NextPart(path)
    case NoPart =>
    case FilePart(name) =>
      var i := Search(subs, name);
      if Hit(subs, i, name) {
        PrunedUpdate(subs, i, Leaf("", Stored(true, "")));
      }
    case DirPart(name, rest) =>
      var i := Search(subs, name);
      if Hit(subs, i, name) && subs[i].Dir? {
        assert subs[i] in subs;
        DeleteKeepsPruned(subs[i].subs, rest);
        var below := Delete(subs[i].subs, rest).0;
        if below == [] {
          PrunedUpdate(subs, i, Leaf("", Stored(true, "")));
        } else {
          PrunedUpdate(subs, i, Dir(subs[i].name, below));
        }
      }
  }

  lemma EmptyBindsNothing(key: Key)
    ensures Lookup([], key) == None
  {}

  /** A directory after a deletion below it: pruned when empty. */
  function Emptied(name: string, below: seq<Tree>): Option<Tree> {
    if below == [] then None else Some(Dir(name, below))
  }

  /** What deleting below a directory did to its keys, it did to the keys through it. */
  lemma DeletedThrough(subs: seq<Tree>, s: seq<Tree>, f: string, d: Tree, below: seq<Tree>,
                       deleted: Option<Key>, key: Key)
    requires Child(subs, f) == Some(d) && d.Dir?
    requires forall g :: Child(s, g) == (if g != f then Child(subs, g) else Emptied(d.name, below))
    requires deleted.Some? ==> deleted.value != []
    requires |key| > 1 ==>
      Lookup(below, key[1..]) == if deleted.Some? && deleted.value <= key[1..] then None else Lookup(d.subs, key[1..])
    ensures Lookup(s, key) == if deleted.Some? && [f] + deleted.value <= key then None else Lookup(subs, key)
  {
    if |key| > 1 {
      LookupBelow(subs, key);
      LookupBelow(s, key);
      EmptyBindsNothing(key[1..]);
      assert key == [key[0]] + key[1..];
      if deleted.Some? {
        assert [f] + deleted.value <= key <==> key[0] == f && deleted.value <= key[1..];
      }
    }
  }

  /** Delete unbinds the keys at and below the key of its path and no other; on a path that denotes
      no key it unbinds nothing. */
  lemma {:induction false} DeleteUnbindsExactly(subs: seq<Tree>, path: string, key: Key)
    requires Sorted(subs) && NUL !in path && Deletable(subs, path)
    ensures Lookup(Delete(subs, path).0, key) ==
            if KeyOf(path).Some? && KeyOf(path).value <= key then None else Lookup(subs, key)
    decreases |path|, 1
  {
    PartFacts(path);
    match NextPart(path)
    case NoPart =>
    case FilePart(name) =>
      DeleteFile(subs, name, key);
    case DirPart(name, rest) =>
      DeleteBelow(subs, path, key, name, rest);
  }

  lemma DeleteFile(subs: seq<Tree>, name: string, key: Key)
    requires Sorted(subs) && IsName(name)
    ensures var i := Search(subs, name);
            Lookup(if Hit(subs, i, name) then Removed(subs, i) else subs, key) ==
              if [Folded(name)] <= key then None else Lookup(subs, key)
  {
    var i, f := Search(subs, name), Folded(name);
    SearchSound(subs, name);
    assert key != [] ==> ([f] <= key <==> key[0] == f);
    if |key| > 1 {
      LookupBelow(subs, key);
    }
    if Hit(subs, i, name) {
      HitIsOnly(subs, name);
      var s := Removed(subs, i);
      forall g ensures Child(s, g) == if g == f then None else Child(subs, g) {
        ChildRemoved(subs, i, g);
      }
      if |key| > 1 {
        LookupBelow(s, key);
      }
    }
  }

  lemma DeleteBelow(subs: seq<Tree>, path: string, key: Key, name: string, rest: string)
    requires Sorted(subs) && NUL !in path && Deletable(subs, path) && NextPart(path) == DirPart(name, rest)
    ensures Lookup(Delete(subs, path).0, key) ==
            if KeyOf(path).Some? && KeyOf(path).value <= key then None else Lookup(subs, key)
    decreases |path|, 0
  {
    PartFacts(path);
    var i, f := Search(subs, name), Folded(name);
    SearchSound(subs, name);
    KeyNotEmpty(rest);
    if Hit(subs, i, name) {
      HitIsOnly(subs, name);
      var d := subs[i];
      var below := Delete(d.subs, rest).0;
      DeleteUnbindsExactly(d.subs, rest, if key == [] then [] else key[1..]);
      var s := Delete(subs, path).0;
      forall g ensures Child(s, g) == (if g != f then Child(subs, g) else Emptied(d.name, below)) {
        if below == [] {
          ChildRemoved(subs, i, g);
        } else {
          ChildUpdated(subs, i, Dir(d.name, below), g);
        }
      }
      DeletedThrough(subs, s, f, d, below, KeyOf(rest), key);
    } else if KeyOf(path).Some? && KeyOf(path).value <= key {
      UnboundBelow(subs, f, KeyOf(rest).value, key);
    }
  }

  lemma UnboundBelow(subs: seq<Tree>, f: string, k: Key, key: Key)
    requires Child(subs, f) == None && [f] + k <= key
    ensures Lookup(subs, key) == None
  {
    assert key[0] == f;
    if |key| > 1 {
      LookupBelow(subs, key);
    }
  }

  /** Delete succeeds exactly when the path denotes a key and some node, of either kind, is there. */
  lemma {:induction false} DeleteSucceedsExactly(subs: seq<Tree>, path: string)
    requires Sorted(subs) && NUL !in path && Deletable(subs, path)
    ensures Delete(subs, path).1 == Ok <==> KeyOf(path).Some? && NodeAt(subs, KeyOf(path).value).Some?
    ensures KeyOf(path).Some? && Delete(subs, path).1 != Ok ==> Delete(subs, path).1 == KeyNotFound
    decreases |path|
  {
    PartFacts(path);
    match NextPart(path)
    case NoPart =>
    case FilePart(name) =>
      SearchSound(subs, name);
    case DirPart(name, rest) =>
      var i := Search(subs, name);
      SearchSound(subs, name);
      KeyNotEmpty(rest);
      if Hit(subs, i, name) {
        assert subs[i] in subs;
        DeleteSucceedsExactly(subs[i].subs, rest);
      }
      if KeyOf(rest).Some? {
        var key := KeyOf(path).value;
        assert key[0] == Folded(name) && key[1..] == KeyOf(rest).value;
      }
  }

  /** A bound path can be deleted. */
  lemma {:induction false} BoundIsDeletable(subs: seq<Tree>, path: string)
    requires Get(subs, path).Some?
    ensures Deletable(subs, path)
    decreases |path|
  {
    match NextPart(path)
    case DirPart(name, rest) =>
      BoundIsDeletable(subs[Search(subs, name)].subs, rest);
    case _ =>
  }

  /** Deleting a bound path removes exactly its key. */
  lemma DeleteBoundPath(subs: seq<Tree>, path: string, key: Key)
    requires Sorted(subs) && NUL !in path && Get(subs, path).Some?
    ensures KeyOf(path).Some? && Delete(subs, path).1 == Ok
    ensures Lookup(Delete(subs, path).0, key) == if key == KeyOf(path).value then None else Lookup(subs, key)
  {
    GetIsLookup(subs, path);
    BoundIsDeletable(subs, path);
    DeleteUnbindsExactly(subs, path, key);
    DeleteSucceedsExactly(subs, path);
    var k := KeyOf(path).value;
    if k <= key && k != key && Lookup(subs, key).Some? {
      KeysPrefixFree(subs, k, key);
    }
  }

  /** Deleting a path that is not bound, but where a directory is, removes all keys below it:
      Delete removes exactly the key of its path unless some key below that one is bound, which in a tree without
      empty directories is to say that a directory is there. */
  lemma DeleteRemovesOnlyItsKeyExactly(subs: seq<Tree>, path: string)
    requires Sorted(subs) && NUL !in path && Deletable(subs, path) && KeyOf(path).Some?
    ensures (forall key :: key != KeyOf(path).value ==> Lookup(Delete(subs, path).0, key) == Lookup(subs, key))
            <==> !(exists l :: KeyOf(path).value < l && Lookup(subs, l).Some?)
    ensures Pruned(subs) ==>
      (IsDirAt(subs, KeyOf(path).value) <==> exists l :: KeyOf(path).value < l && Lookup(subs, l).Some?)
  {
    var k := KeyOf(path).value;
    KeyNotEmpty(path);
    forall key ensures Lookup(Delete(subs, path).0, key) == if k <= key then None else Lookup(subs, key) {
      DeleteUnbindsExactly(subs, path, key);
    }
    if l :| k < l && Lookup(subs, l).Some? {
      assert l != k && Lookup(Delete(subs, path).0, l) != Lookup(subs, l);
    }
    if Pruned(subs) {
      DirectoryHasKeys(subs, k);
    }
  }

  /** Without a node at a key nothing is bound at or below it. */
  lemma {:induction false} NothingBelow(subs: seq<Tree>, k: Key, key: Key)
    requires k != [] && NodeAt(subs, k).None? && k <= key
    ensures Lookup(subs, key) == None
    decreases |k|
  {
    if |key| > 1 {
      LookupBelow(subs, key);
      if |k| > 1 && Child(subs, k[0]).Some? && Child(subs, k[0]).value.Dir? {
        NothingBelow(Child(subs, k[0]).value.subs, k[1..], key[1..]);
      }
    }
  }

  /** In a tree without empty directories Delete finds its node exactly when some key at or below that of the path
      is bound. */
  lemma DeleteFindsExactly(subs: seq<Tree>, path: string)
    requires Sorted(subs) && Pruned(subs) && NUL !in path && Deletable(subs, path) && KeyOf(path).Some?
    ensures Delete(subs, path).1 ==
            if exists l :: KeyOf(path).value <= l && Lookup(subs, l).Some? then Ok else KeyNotFound
  {
    var k := KeyOf(path).value;
    KeyNotEmpty(path);
    DeleteSucceedsExactly(subs, path);
    DirectoryHasKeys(subs, k);
    if NodeAt(subs, k).Some? {
      assert IsDirAt(subs, k) || Lookup(subs, k).Some?;
    } else {
      forall l | k <= l ensures Lookup(subs, l).None? {
        NothingBelow(subs, k, l);
      }
    }
  }

  /** Delete meets no leaf on its way exactly when no key above that of the path is bound, nor the key itself
      when the path ends in a slash. */
  lemma {:induction false} DeletableExactly(subs: seq<Tree>, path: string)
    requires Sorted(subs) && NUL !in path
    ensures Deletable(subs, path) <==> !Blocked(subs, Parts(path), KeyOf(path).None?)
    decreases |path|
  {
    PartFacts(path);
    match NextPart(path)
    case NoPart =>
    case FilePart(name) =>
      NotBlockedYet(subs, Folded(name));
    case DirPart(name, rest) =>
      var i := Search(subs, name);
      SearchSound(subs, name);
      KeyIsParts(rest);
      BlockedBelow(subs, Folded(name), Parts(rest), KeyOf(rest).None?);
      if Hit(subs, i, name) && subs[i].Dir? {
        assert subs[i] in subs;
        DeletableExactly(subs[i].subs, rest);
      }
  }

  /** Below the leaf "a" it does. */
  lemma LeafIsMet()
    ensures !Deletable([Leaf("a", Value("v", true))], "a/b")
  {
    assert SpanToSlash("a/b") == 1 && "a/b"[..1] == "a" && "a/b"[2..] == "b" && NextPart("a/b") == DirPart("a", "b");
    assert Cmp("a", "a") == 0 && "a"[1..] == "";
  }

  /** Deleting the directory "a" of a tree that binds "a/b" succeeds, and unbinds it. */
  lemma DirectoryIsDeleted()
    ensures var subs := [Dir("a", [Leaf("b", Value("v", true))])];
            Delete(subs, "a") == ([], Ok) && Get(subs, "a/b") == Some(Value("v", true)) && Get([], "a/b") == None
  {
    var subs := [Dir("a", [Leaf("b", Value("v", true))])];
    assert SpanToSlash("a") == 1 && "a"[1..] == "" && NextPart("a") == FilePart("a");
    assert Cmp("a", "a") == 0 && Cmp("b", "b") == 0 by {
      assert "b"[1..] == "";
    }
    assert Removed(subs, 0) == [];
    assert SpanToSlash("a/b") == 1 && "a/b"[..1] == "a" && "a/b"[2..] == "b" && NextPart("a/b") == DirPart("a", "b");
    assert SpanToSlash("b") == 1 && NextPart("b") == FilePart("b");
  }
}
