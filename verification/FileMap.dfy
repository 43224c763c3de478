/** The filemap trie of filemap.c, on values: sorted, case-insensitive trees of path components, and
    the finite map from keys to values that such a tree stands for.

    A key is the list of the case-folded components of a path.  The operations here follow the code
    branch by branch; FileMapNodes carries them out in place. */
module FileMap {

  import opened CStrings
  import opened Wrappers

  const NAME_MAX: nat := 255

  /** The value field of a leaf: its text, and whether the byte behind the NAME_MAX that are copied is known
      to be a terminator. */
  datatype Value = Value(text: string, closed: bool)

  datatype Tree = Leaf(name: string, value: Value) | Dir(name: string, subs: seq<Tree>)

  /** Error codes of the filemap operations. */
  datatype Err = Ok | IsDirectory | NotDirectory | KeyNotFound

  // ---------------------------------------------------------------- comparing names

  function Fold(c: char): char { if 'A' <= c <= 'Z' then c - 'A' + 'a' else c }

  function Folded(s: string): string { if s == "" then "" else [Fold(s[0])] + Folded(s[1..]) }

  /** The sign of strncasecmp(name, part, strlen(part)), and of name[strlen(part)] when that is zero. */
  function Cmp(name: string, part: string): int {
    if part == "" then (if name == "" then 0 else name[0] as int)
    else if name == "" then -(Fold(part[0]) as int)
    else if Fold(name[0]) != Fold(part[0]) then Fold(name[0]) as int - Fold(part[0]) as int
    else Cmp(name[1..], part[1..])
  }

  lemma {:induction false} CmpZero(a: string, b: string)
    requires NUL !in a && NUL !in b
    ensures Cmp(a, b) == 0 <==> Folded(a) == Folded(b)
  {
    if a != "" && b != "" {
      assert Folded(a)[1..] == Folded(a[1..]) && Folded(b)[1..] == Folded(b[1..]);
      if Fold(a[0]) == Fold(b[0]) {
        CmpZero(a[1..], b[1..]);
      }
    }
    assert a != "" ==> a[0] in a;
    assert b != "" ==> b[0] in b;
  }

  lemma {:induction false} CmpOpposite(a: string, b: string)
    requires NUL !in a && NUL !in b
    ensures Cmp(a, b) < 0 <==> Cmp(b, a) > 0
  {
    assert a != "" ==> a[0] in a;
    assert b != "" ==> b[0] in b;
    if a != "" && b != "" && Fold(a[0]) == Fold(b[0]) {
      CmpOpposite(a[1..], b[1..]);
    }
  }

  /** The order is transitive, and names that fold alike are interchangeable in it. */
  lemma {:induction false} CmpChain(a: string, b: string, c: string)
    requires NUL !in a && NUL !in b && NUL !in c
    requires Cmp(a, b) <= 0 && Cmp(b, c) <= 0
    ensures Cmp(a, c) <= 0
    ensures Cmp(a, b) < 0 || Cmp(b, c) < 0 ==> Cmp(a, c) < 0
  {
    assert a != "" ==> a[0] in a;
    assert b != "" ==> b[0] in b;
    assert c != "" ==> c[0] in c;
    if a != "" && b != "" && c != "" && Fold(a[0]) == Fold(b[0]) == Fold(c[0]) {
      CmpChain(a[1..], b[1..], c[1..]);
    }
  }

  // ---------------------------------------------------------------- paths and keys

  datatype Part = NoPart | FilePart(name: string) | DirPart(name: string, rest: string)

  /** The first component of a path behind its leading slashes, and whether a slash follows it. */
  function NextPart(path: string): (p: Part)
    ensures p.DirPart? ==> |p.rest| < |path|
  {
    if path == "" then NoPart
    else if path[0] == '/' then NextPart(path[1..])
    else
      var n := SpanToSlash(path);
      if n == |path| then FilePart(path) else DirPart(path[..n], path[n + 1..])
  }

  type Key = seq<string>

  /** The key a path stands for; none for an empty path and for one that ends in a slash. */
  function KeyOf(path: string): Option<Key>
    decreases |path|
  {
    match NextPart(path)
    case NoPart => None
    case FilePart(name) => Some([Folded(name)])
    case DirPart(name, rest) =>
      var k := KeyOf(rest);
      if k.None? then None else Some([Folded(name)] + k.value)
  }

  /** What fits a field, and can be read back from it. */
  predicate IsField(s: string) { |s| <= NAME_MAX && NUL !in s }

  /** The components fit the key fields of nodes: Set copies them there without a test. */
  predicate ShortParts(path: string)
    decreases |path|
  {
    match NextPart(path)
    case NoPart => true
    case FilePart(name) => IsField(name)
    case DirPart(name, rest) => IsField(name) && ShortParts(rest)
  }

  // ---------------------------------------------------------------- the operations

  /** The loop that looks for a component among its siblings: it stops early. */
  function Search(subs: seq<Tree>, part: string): (i: nat)
    ensures i <= |subs|
  {
    if subs == [] || Cmp(subs[0].name, part) >= 0 then 0 else 1 + Search(subs[1..], part)
  }

  predicate Hit(subs: seq<Tree>, i: nat, part: string) { i < |subs| && Cmp(subs[i].name, part) == 0 }

  /** The field of the leaf that Get points at. */
  function Get(subs: seq<Tree>, path: string): Option<Value>
    decreases |path|
  {
    match NextPart(path)
    case NoPart => None
    case FilePart(name) =>
      var i := Search(subs, name);
      if Hit(subs, i, name) && subs[i].Leaf? then Some(subs[i].value) else None
    case DirPart(name, rest) =>
      var i := Search(subs, name);
      if Hit(subs, i, name) && subs[i].Dir? then Get(subs[i].subs, rest) else None
  }

  function Cut(value: string): string { if |value| <= NAME_MAX then value else value[..NAME_MAX] }

  /** strncpy of NAME_MAX bytes: the byte behind them stays as it is. */
  function Stored(closed: bool, value: string): Value { Value(Cut(value), closed) }

  /** The field holds a string: strncpy filled it up with terminators, or its last byte is one. */
  predicate Readable(v: Value) { |v.text| < NAME_MAX || v.closed }

  /** What is read from a field; none when reading goes on behind its text. */
  function Read(v: Value): Option<string> { if Readable(v) then Some(v.text) else None }

  function Inserted(subs: seq<Tree>, i: nat, t: Tree): seq<Tree>
    requires i <= |subs|
  {
    subs[..i] + [t] + subs[i..]
  }

  function Removed(subs: seq<Tree>, i: nat): seq<Tree>
    requires i < |subs|
  {
    subs[..i] + subs[i + 1..]
  }

  function Set(subs: seq<Tree>, path: string, value: string): (seq<Tree>, Err)
    decreases |path|
  {
    match NextPart(path)
    case NoPart => (subs, IsDirectory)
    case FilePart(name) =>
      var i := Search(subs, name);
      if !Hit(subs, i, name) then (Inserted(subs, i, Leaf(name, Stored(true, value))), Ok)
      else if subs[i].Leaf? then (subs[i := Leaf(subs[i].name, Stored(subs[i].value.closed, value))], Ok)
      else (subs, IsDirectory)
    case DirPart(name, rest) =>
      var i := Search(subs, name);
      if !Hit(subs, i, name) then
        var (below, err) := Set([], rest, value);
        (Inserted(subs, i, Dir(name, below)), err)
      else if subs[i].Dir? then
        var (below, err) := Set(subs[i].subs, rest, value);
        (subs[i := Dir(subs[i].name, below)], err)
      else (subs, NotDirectory)
  }

  /** Delete never looks at the kind of a node.  Below a leaf its code would read the leaf as a
      directory; callers must not ask for that (`Deletable`). */
  function Delete(subs: seq<Tree>, path: string): (seq<Tree>, Err)
    decreases |path|
  {
    match NextPart(path)
    case NoPart => (subs, IsDirectory)
    case FilePart(name) =>
      var i := Search(subs, name);
      if Hit(subs, i, name) then (Removed(subs, i), Ok) else (subs, KeyNotFound)
    case DirPart(name, rest) =>
      var i := Search(subs, name);
      if !Hit(subs, i, name) then (subs, KeyNotFound)
      else if subs[i].Dir? then
        var (below, err) := Delete(subs[i].subs, rest);
        (if below == [] then Removed(subs, i) else subs[i := Dir(subs[i].name, below)], err)
      else (subs, KeyNotFound)
  }

  /** No leaf lies on the way to the last component. */
  predicate Deletable(subs: seq<Tree>, path: string)
    decreases |path|
  {
    match NextPart(path)
    case DirPart(name, rest) =>
      var i := Search(subs, name);
      Hit(subs, i, name) ==> subs[i].Dir? && Deletable(subs[i].subs, rest)
    case _ => true
  }

  // ---------------------------------------------------------------- the map a tree stands for

  /** The first sibling with a folded name. */
  function Child(subs: seq<Tree>, f: string): Option<Tree> {
    if subs == [] then None else if Folded(subs[0].name) == f then Some(subs[0]) else Child(subs[1..], f)
  }

  function NodeAt(subs: seq<Tree>, key: Key): Option<Tree>
    decreases |key|
  {
    if key == [] then None
    else
      match Child(subs, key[0])
      case None => None
      case Some(t) => if |key| == 1 then Some(t) else if t.Leaf? then None else NodeAt(t.subs, key[1..])
  }

  /** The value bound to a key. */
  function Lookup(subs: seq<Tree>, key: Key): Option<Value> {
    var n := NodeAt(subs, key);
    if n.Some? && n.value.Leaf? then Some(n.value.value) else None
  }

  /** The last byte of the field that a Set of the key writes to is a terminator: only a leaf that is there
      already can lack it. */
  predicate ClosedAt(subs: seq<Tree>, key: Key) { Lookup(subs, key).Some? ==> Lookup(subs, key).value.closed }

  predicate SortedNames(subs: seq<Tree>) {
    forall i, j :: 0 <= i < j < |subs| ==> Cmp(subs[i].name, subs[j].name) < 0
  }

  /** Siblings are strictly sorted under the case-folded order, everywhere. */
  predicate Sorted(subs: seq<Tree>)
    decreases subs
  {
    SortedNames(subs) && forall t :: t in subs ==> IsName(t.name) && (t.Dir? ==> Sorted(t.subs))
  }

  /** No directory below the root is empty. */
  predicate Pruned(subs: seq<Tree>)
    decreases subs
  {
    forall t :: t in subs && t.Dir? ==> t.subs != [] && Pruned(t.subs)
  }

  /** Every value in the tree is one of those. */
  predicate EachValue(t: Tree, p: Value -> bool)
    decreases t, 0
  {
    if t.Leaf? then p(t.value) else EachValueIn(t.subs, p)
  }

  predicate EachValueIn(subs: seq<Tree>, p: Value -> bool)
    decreases subs, 1
  {
    subs == [] || (EachValue(subs[0], p) && EachValueIn(subs[1..], p))
  }

  // ---------------------------------------------------------------- siblings

  predicate Named(subs: seq<Tree>) { forall t :: t in subs ==> IsName(t.name) }

  lemma {:induction false} ChildIs(subs: seq<Tree>, f: string, i: nat)
    requires i < |subs| && Folded(subs[i].name) == f
    requires forall j :: 0 <= j < i ==> Folded(subs[j].name) != f
    ensures Child(subs, f) == Some(subs[i])
  {
    if i > 0 {
      ChildIs(subs[1..], f, i - 1);
    }
  }

  lemma {:induction false} ChildNone(subs: seq<Tree>, f: string)
    requires forall j :: 0 <= j < |subs| ==> Folded(subs[j].name) != f
    ensures Child(subs, f) == None
  {
    if subs != [] {
      ChildNone(subs[1..], f);
    }
  }

  lemma {:induction false} ChildFacts(subs: seq<Tree>, f: string) returns (i: nat)
    ensures Child(subs, f).None? ==> forall j :: 0 <= j < |subs| ==> Folded(subs[j].name) != f
    ensures Child(subs, f).Some? ==> i < |subs| && Child(subs, f) == Some(subs[i]) && Folded(subs[i].name) == f
  {
    i := 0;
    if subs != [] && Folded(subs[0].name) != f {
      var k := ChildFacts(subs[1..], f);
      i := k + 1;
      forall j | 0 < j < |subs| ensures subs[j] == subs[1..][j - 1] {}
    }
  }

  /** Sorted siblings have different folded names. */
  lemma SortedDistinct(subs: seq<Tree>, i: nat, j: nat)
    requires SortedNames(subs) && Named(subs) && i < |subs| && j < |subs| && i != j
    ensures Folded(subs[i].name) != Folded(subs[j].name)
  {
    assert subs[i] in subs && subs[j] in subs;
    CmpZero(subs[i].name, subs[j].name);
    CmpZero(subs[j].name, subs[i].name);
    if i < j {
      assert Cmp(subs[i].name, subs[j].name) < 0;
    } else {
      assert Cmp(subs[j].name, subs[i].name) < 0;
    }
  }

  lemma {:induction false} SearchStops(subs: seq<Tree>, part: string)
    ensures var i := Search(subs, part);
            (forall j :: 0 <= j < i ==> Cmp(subs[j].name, part) < 0) && (i < |subs| ==> Cmp(subs[i].name, part) >= 0)
  {
    if subs != [] && Cmp(subs[0].name, part) < 0 {
      SearchStops(subs[1..], part);
      forall j | 0 < j < |subs| ensures subs[j] == subs[1..][j - 1] {}
    }
  }

  /** The early exit of the search is sound: everything behind it is larger. */
  lemma SearchSound(subs: seq<Tree>, part: string)
    requires SortedNames(subs) && Named(subs) && NUL !in part
    ensures var i := Search(subs, part);
            (forall j :: 0 <= j < i ==> Cmp(subs[j].name, part) < 0)
            && (forall j :: i < j < |subs| ==> Cmp(part, subs[j].name) < 0)
            && (i < |subs| && !Hit(subs, i, part) ==> Cmp(part, subs[i].name) < 0)
            && Child(subs, Folded(part)) == if Hit(subs, i, part) then Some(subs[i]) else None
  {
    var i := Search(subs, part);
    SearchStops(subs, part);
    forall j | i < j < |subs| ensures Cmp(part, subs[j].name) < 0 {
      assert subs[i] in subs && subs[j] in subs && Cmp(subs[i].name, subs[j].name) < 0;
      BehindIsLarger(part, subs[i].name, subs[j].name);
    }
    if i < |subs| {
      assert subs[i] in subs;
      CmpOpposite(part, subs[i].name);
    }
    forall j | 0 <= j < |subs| ensures Folded(subs[j].name) == Folded(part) <==> Cmp(subs[j].name, part) == 0 {
      assert subs[j] in subs;
      CmpZero(subs[j].name, part);
    }
    forall j | i < j < |subs| ensures Cmp(subs[j].name, part) != 0 {
      assert subs[j] in subs;
      CmpOpposite(part, subs[j].name);
    }
    if Hit(subs, i, part) {
      ChildIs(subs, Folded(part), i);
    } else {
      ChildNone(subs, Folded(part));
    }
  }

  lemma BehindIsLarger(part: string, a: string, b: string)
    requires NUL !in part && NUL !in a && NUL !in b && Cmp(a, part) >= 0 && Cmp(a, b) < 0
    ensures Cmp(part, b) < 0
  {
    CmpOpposite(part, a);
    CmpZero(a, part);
    CmpZero(part, a);
    CmpChain(part, a, b);
  }

  /** The children after an insertion, an update and a removal. */
  lemma {:induction false} ChildInserted(subs: seq<Tree>, i: nat, t: Tree, f: string)
    requires i <= |subs| && Child(subs, Folded(t.name)) == None
    ensures Child(Inserted(subs, i, t), f) == if f == Folded(t.name) then Some(t) else Child(subs, f)
  {
    if i == 0 {
      assert Inserted(subs, i, t)[1..] == subs;
    } else {
      assert Inserted(subs, i, t)[1..] == Inserted(subs[1..], i - 1, t);
      ChildInserted(subs[1..], i - 1, t, f);
    }
  }

  lemma {:induction false} ChildUpdated(subs: seq<Tree>, i: nat, t: Tree, f: string)
    requires i < |subs| && Folded(t.name) == Folded(subs[i].name)
    requires forall j :: 0 <= j < i ==> Folded(subs[j].name) != Folded(t.name)
    ensures Child(subs[i := t], f) == if f == Folded(t.name) then Some(t) else Child(subs, f)
  {
    if i == 0 {
      assert subs[i := t][1..] == subs[1..];
    } else {
      assert subs[i := t][1..] == subs[1..][i - 1 := t];
      ChildUpdated(subs[1..], i - 1, t, f);
    }
  }

  lemma {:induction false} ChildRemoved(subs: seq<Tree>, i: nat, f: string)
    requires i < |subs|
    requires forall j :: 0 <= j < |subs| && j != i ==> Folded(subs[j].name) != Folded(subs[i].name)
    ensures Child(Removed(subs, i), f) == if f == Folded(subs[i].name) then None else Child(subs, f)
  {
    if i == 0 {
      assert Removed(subs, i) == subs[1..];
      if f == Folded(subs[0].name) {
        ChildNone(subs[1..], f);
      }
    } else {
      assert Removed(subs, i)[1..] == Removed(subs[1..], i - 1);
      ChildRemoved(subs[1..], i - 1, f);
    }
  }

  /** A hit: the node the search stops at is the only one with its folded name. */
  lemma HitIsOnly(subs: seq<Tree>, part: string)
    requires Sorted(subs) && NUL !in part && Hit(subs, Search(subs, part), part)
    ensures var i := Search(subs, part);
            subs[i] in subs && Folded(subs[i].name) == Folded(part) && Child(subs, Folded(part)) == Some(subs[i])
            && forall j :: 0 <= j < |subs| && j != i ==> Folded(subs[j].name) != Folded(subs[i].name)
  {
    var i := Search(subs, part);
    SearchSound(subs, part);
    assert subs[i] in subs;
    CmpZero(subs[i].name, part);
    forall j | 0 <= j < |subs| && j != i ensures Folded(subs[j].name) != Folded(subs[i].name) {
      SortedDistinct(subs, i, j);
    }
  }

  // ---------------------------------------------------------------- sorted order is kept

  lemma SortedUpdate(subs: seq<Tree>, i: nat, t: Tree)
    requires Sorted(subs) && i < |subs| && t.name == subs[i].name && (t.Dir? ==> Sorted(t.subs))
    ensures Sorted(subs[i := t])
  {
    assert subs[i] in subs;
    var s := subs[i := t];
    forall x | x in s ensures IsName(x.name) && (x.Dir? ==> Sorted(x.subs)) {
      var j :| 0 <= j < |s| && s[j] == x;
      assert j != i ==> x in subs;
    }
  }

  lemma RemovedAt(subs: seq<Tree>, i: nat, j: nat)
    requires i < |subs| && j < |subs| - 1
    ensures Removed(subs, i)[j] == subs[if j < i then j else j + 1]
  {}

  lemma InsertedAt(subs: seq<Tree>, i: nat, t: Tree, j: nat)
    requires i <= |subs| && j <= |subs|
    ensures Inserted(subs, i, t)[j] == if j < i then subs[j] else if j == i then t else subs[j - 1]
  {}

  lemma SortedRemove(subs: seq<Tree>, i: nat)
    requires Sorted(subs) && i < |subs|
    ensures Sorted(Removed(subs, i))
  {
    var s := Removed(subs, i);
    forall x | x in s ensures x in subs {
      var j :| 0 <= j < |s| && s[j] == x;
      RemovedAt(subs, i, j);
    }
    forall j, k | 0 <= j < k < |s| ensures Cmp(s[j].name, s[k].name) < 0 {
      RemovedAt(subs, i, j);
      RemovedAt(subs, i, k);
    }
  }

  /** Between two neighbours. */
  lemma InsertedSorted(subs: seq<Tree>, i: nat, t: Tree)
    requires SortedNames(subs) && i <= |subs|
    requires forall j :: 0 <= j < i ==> Cmp(subs[j].name, t.name) < 0
    requires forall j :: i <= j < |subs| ==> Cmp(t.name, subs[j].name) < 0
    ensures SortedNames(Inserted(subs, i, t))
  {
    var s := Inserted(subs, i, t);
    forall j, k | 0 <= j < k < |s| ensures Cmp(s[j].name, s[k].name) < 0 {
      InsertedAt(subs, i, t, j);
      InsertedAt(subs, i, t, k);
    }
  }

  lemma SortedInsert(subs: seq<Tree>, t: Tree)
    requires Sorted(subs) && IsName(t.name) && (t.Dir? ==> Sorted(t.subs))
    requires !Hit(subs, Search(subs, t.name), t.name)
    ensures Sorted(Inserted(subs, Search(subs, t.name), t))
  {
    var i := Search(subs, t.name);
    SearchSound(subs, t.name);
    InsertedSorted(subs, i, t);
    var s := Inserted(subs, i, t);
    forall x | x in s ensures x == t || x in subs {
      var j :| 0 <= j < |s| && s[j] == x;
      InsertedAt(subs, i, t, j);
    }
  }

  // ---------------------------------------------------------------- Get

  lemma PartFacts(path: string)
    requires NUL !in path
    ensures match NextPart(path)
            case NoPart => true
            case FilePart(name) => IsName(name)
            case DirPart(name, rest) => IsName(name) && NUL !in rest
    decreases |path|
  {
    if path != "" {
      if path[0] == '/' {
        PartFacts(path[1..]);
      } else {
        SpanFacts(path);
      }
    }
  }

  /** A path is k slashes, then nothing, or a component, or a component, a slash and the rest. */
  lemma {:induction false} NextPartIs(path: string) returns (k: nat)
    requires NUL !in path
    ensures k <= |path| && forall i :: 0 <= i < k ==> path[i] == '/'
    ensures match NextPart(path)
            case NoPart => k == |path|
            case FilePart(name) => IsName(name) && path[k..] == name
            case DirPart(name, rest) => IsName(name) && path[k..] == name + "/" + rest
    decreases |path|
  {
    k := 0;
    PartFacts(path);
    if path != "" && path[0] == '/' {
      k := NextPartIs(path[1..]);
      assert path[1..][k..] == path[1 + k..];
      k := 1 + k;
    } else if path != "" {
      SpanFacts(path);
      FirstCut(path, SpanToSlash(path));
    }
  }

  lemma FirstCut(path: string, n: nat)
    requires n <= |path|
    ensures path[0..] == path && (n < |path| && path[n] == '/' ==> path == path[..n] + "/" + path[n + 1..])
  {}

  lemma LookupBelow(subs: seq<Tree>, key: Key)
    requires |key| > 1
    ensures Lookup(subs, key) == match Child(subs, key[0])
                                 case None => None
                                 case Some(t) => if t.Dir? then Lookup(t.subs, key[1..]) else None
  {}

  /** Get finds what the tree binds to the key of the path; the early exit misses nothing. */
  lemma {:induction false} GetIsLookup(subs: seq<Tree>, path: string)
    requires Sorted(subs) && NUL !in path
    ensures Get(subs, path) == if KeyOf(path).Some? then Lookup(subs, KeyOf(path).value) else None
    decreases |path|
  {
    PartFacts(path);
    match NextPart(path)
    case NoPart =>
    case FilePart(name) =>
      SearchSound(subs, name);
    case DirPart(name, rest) =>
      SearchSound(subs, name);
      var i := Search(subs, name);
      if Hit(subs, i, name) && subs[i].Dir? {
        assert subs[i] in subs;
        GetIsLookup(subs[i].subs, rest);
      }
      if KeyOf(rest).Some? {
        var key := KeyOf(path).value;
        assert key[0] == Folded(name) && key[1..] == KeyOf(rest).value;
        LookupBelow(subs, key);
      }
  }

  // ---------------------------------------------------------------- Set

  lemma {:induction false} KeyNotEmpty(path: string)
    ensures KeyOf(path).Some? ==> KeyOf(path).value != []
  {}

  /** Set keeps the siblings strictly sorted, whatever it returns. */
  lemma {:induction false} SetKeepsSorted(subs: seq<Tree>, path: string, value: string)
    requires Sorted(subs) && NUL !in path
    ensures Sorted(Set(subs, path, value).0)
    decreases |path|
  {
    PartFacts(path);
    match NextPart(path)
    case NoPart =>
    case FilePart(name) =>
      var i := Search(subs, name);
      if !Hit(subs, i, name) {
        SortedInsert(subs, Leaf(name, Stored(true, value)));
      } else if subs[i].Leaf? {
        SortedUpdate(subs, i, Leaf(subs[i].name, Stored(subs[i].value.closed, value)));
      }
    case DirPart(name, rest) =>
      var i := Search(subs, name);
      if !Hit(subs, i, name) {
        SetKeepsSorted([], rest, value);
        SortedInsert(subs, Dir(name, Set([], rest, value).0));
      } else if subs[i].Dir? {
        assert subs[i] in subs;
        SetKeepsSorted(subs[i].subs, rest, value);
        SortedUpdate(subs, i, Dir(subs[i].name, Set(subs[i].subs, rest, value).0));
      }
  }

  /** The lookups after the child with folded name f became t. */
  lemma LookupThrough(subs: seq<Tree>, s: seq<Tree>, f: string, t: Tree, key: Key)
    requires forall g :: Child(s, g) == if g == f then Some(t) else Child(subs, g)
    ensures key == [] || key[0] != f ==> Lookup(s, key) == Lookup(subs, key)
    ensures key == [f] ==> Lookup(s, key) == if t.Leaf? then Some(t.value) else None
    ensures |key| > 1 && key[0] == f ==> Lookup(s, key) == if t.Dir? then Lookup(t.subs, key[1..]) else None
  {
    if |key| > 1 {
      LookupBelow(subs, key);
      LookupBelow(s, key);
    }
  }

  /** What binding did to a directory, it did to the key through that directory. */
  lemma BoundThrough(subs: seq<Tree>, s: seq<Tree>, f: string, t: Tree, below: seq<Tree>,
                     bound: Option<Key>, value: string, key: Key)
    requires forall g :: Child(s, g) == if g == f then Some(t) else Child(subs, g)
    requires t.Dir? && match Child(subs, f) case None => below == [] case Some(d) => d.Dir? && d.subs == below
    requires bound.Some? ==> bound.value != []
    requires |key| > 1 ==>
      Lookup(t.subs, key[1..]) ==
        if bound == Some(key[1..]) then Some(Stored(ClosedAt(below, key[1..]), value)) else Lookup(below, key[1..])
    ensures Lookup(s, key) ==
            if bound.Some? && key == [f] + bound.value then Some(Stored(ClosedAt(subs, key), value)) else Lookup(subs, key)
  {
    LookupThrough(subs, s, f, t, key);
    if |key| > 1 {
      LookupBelow(subs, key);
      assert key == [key[0]] + key[1..];
      assert bound.Some? && key == [f] + bound.value ==> key[1..] == bound.value;
    }
  }

  /** A successful Set binds exactly the key of its path, in a field whose last byte is what it was; a failing
      one changes no lookup. */
  lemma {:induction false} SetBindsExactly(subs: seq<Tree>, path: string, value: string, key: Key)
    requires Sorted(subs) && NUL !in path && ShortParts(path)
    ensures var (s, err) := Set(subs, path, value);
            (err == Ok ==> KeyOf(path).Some?)
            && Lookup(s, key) ==
               if err == Ok && KeyOf(path) == Some(key) then Some(Stored(ClosedAt(subs, key), value)) else Lookup(subs, key)
    decreases |path|, 1
  {
    PartFacts(path);
    match NextPart(path)
    case NoPart =>
    case FilePart(name) =>
      SetFile(subs, name, value, key);
    case DirPart(name, rest) =>
      SetBelow(subs, path, value, key, name, rest);
  }

  lemma SetFile(subs: seq<Tree>, name: string, value: string, key: Key)
    requires Sorted(subs) && IsName(name)
    ensures var i := Search(subs, name);
            if !Hit(subs, i, name) then
              Lookup(Inserted(subs, i, Leaf(name, Stored(true, value))), key) ==
                (if key == [Folded(name)] then Some(Stored(ClosedAt(subs, key), value)) else Lookup(subs, key))
            else subs[i].Leaf? ==>
              Lookup(subs[i := Leaf(subs[i].name, Stored(subs[i].value.closed, value))], key) ==
                (if key == [Folded(name)] then Some(Stored(ClosedAt(subs, key), value)) else Lookup(subs, key))
  {
    var i, f := Search(subs, name), Folded(name);
    SearchSound(subs, name);
    if |key| > 1 {
      LookupBelow(subs, key);
    }
    if !Hit(subs, i, name) {
      var t := Leaf(name, Stored(true, value));
      var s := Inserted(subs, i, t);
      forall g ensures Child(s, g) == if g == f then Some(t) else Child(subs, g) {
        ChildInserted(subs, i, t, g);
      }
      LookupThrough(subs, s, f, t, key);
    } else if subs[i].Leaf? {
      HitIsOnly(subs, name);
      var t := Leaf(subs[i].name, Stored(subs[i].value.closed, value));
      var s := subs[i := t];
      forall g ensures Child(s, g) == if g == f then Some(t) else Child(subs, g) {
        ChildUpdated(subs, i, t, g);
      }
      LookupThrough(subs, s, f, t, key);
    }
  }

  lemma SetBelow(subs: seq<Tree>, path: string, value: string, key: Key, name: string, rest: string)
    requires Sorted(subs) && NUL !in path && ShortParts(path) && NextPart(path) == DirPart(name, rest)
    ensures var (s, err) := Set(subs, path, value);
            (err == Ok ==> KeyOf(path).Some?)
            && Lookup(s, key) ==
               if err == Ok && KeyOf(path) == Some(key) then Some(Stored(ClosedAt(subs, key), value)) else Lookup(subs, key)
    decreases |path|, 0
  {
    PartFacts(path);
    var i, f, below := Search(subs, name), Folded(name), if key == [] then [] else key[1..];
    SearchSound(subs, name);
    KeyNotEmpty(rest);
    if !Hit(subs, i, name) {
      var (b, err) := Set([], rest, value);
      var t := Dir(name, b);
      SetBindsExactly([], rest, value, below);
      var s := Inserted(subs, i, t);
      forall g ensures Child(s, g) == if g == f then Some(t) else Child(subs, g) {
        ChildInserted(subs, i, t, g);
      }
      BoundThrough(subs, s, f, t, [], if err == Ok then KeyOf(rest) else None, value, key);
    } else if subs[i].Dir? {
      HitIsOnly(subs, name);
      var (b, err) := Set(subs[i].subs, rest, value);
      var t := Dir(subs[i].name, b);
      SetBindsExactly(subs[i].subs, rest, value, below);
      var s := subs[i := t];
      forall g ensures Child(s, g) == if g == f then Some(t) else Child(subs, g) {
        ChildUpdated(subs, i, t, g);
      }
      BoundThrough(subs, s, f, t, subs[i].subs, if err == Ok then KeyOf(rest) else None, value, key);
    }
  }

  /** Get after a successful Set reads the value, cut to the field, exactly when the value is shorter than the
      field or the last byte of the field was a terminator before; else it reads behind the field. */
  lemma SetThenGet(subs: seq<Tree>, path: string, value: string)
    requires Sorted(subs) && NUL !in path && ShortParts(path) && Set(subs, path, value).1 == Ok
    ensures KeyOf(path).Some?
    ensures var v := Get(Set(subs, path, value).0, path);
            v.Some? && Read(v.value) ==
              if |value| < NAME_MAX || ClosedAt(subs, KeyOf(path).value) then Some(Cut(value)) else None
  {
    SetKeepsSorted(subs, path, value);
    GetIsLookup(Set(subs, path, value).0, path);
    SetBindsExactly(subs, path, value, if KeyOf(path).Some? then KeyOf(path).value else []);
  }

  // ---------------------------------------------------------------- when Set succeeds, and which error it gives

  /** The folded components of a path. */
  function Parts(path: string): Key
    decreases |path|
  {
    match NextPart(path)
    case NoPart => []
    case FilePart(name) => [Folded(name)]
    case DirPart(name, rest) => [Folded(name)] + Parts(rest)
  }

  lemma {:induction false} KeyIsParts(path: string)
    ensures KeyOf(path).Some? ==> KeyOf(path).value == Parts(path) != []
    decreases |path|
  {
    match NextPart(path)
    case DirPart(_, rest) => KeyIsParts(rest);
    case _ =>
  }

  /** A leaf lies where the path needs a directory. */
  predicate Blocked(subs: seq<Tree>, parts: Key, asDirectory: bool) {
    exists n :: 1 <= n <= |parts| && (n < |parts| || asDirectory) && Lookup(subs, parts[..n]).Some?
  }

  lemma BlockedBelow(subs: seq<Tree>, f: string, rest: Key, asDirectory: bool)
    requires rest != [] || asDirectory
    ensures Blocked(subs, [f] + rest, asDirectory) <==>
            match Child(subs, f) case None => false case Some(t) => t.Leaf? || Blocked(t.subs, rest, asDirectory)
  {
    var parts := [f] + rest;
    assert parts[..1] == [f];
    forall n | 1 < n <= |parts|
      ensures Lookup(subs, parts[..n]) == match Child(subs, f)
              case None => None case Some(t) => if t.Dir? then Lookup(t.subs, rest[..n - 1]) else None
    {
      assert parts[..n] == [f] + rest[..n - 1];
      LookupBelow(subs, parts[..n]);
    }
    if Child(subs, f).Some? && Child(subs, f).value.Dir? {
      var below := Child(subs, f).value.subs;
      if Blocked(subs, parts, asDirectory) {
        var n :| 1 <= n <= |parts| && (n < |parts| || asDirectory) && Lookup(subs, parts[..n]).Some?;
        assert Lookup(below, rest[..n - 1]).Some?;
      }
      if Blocked(below, rest, asDirectory) {
        var n :| 1 <= n <= |rest| && (n < |rest| || asDirectory) && Lookup(below, rest[..n]).Some?;
        assert rest[..n] == rest[..(n + 1) - 1];
        assert Lookup(subs, parts[..n + 1]).Some?;
      }
    }
  }

  predicate IsDirAt(subs: seq<Tree>, key: Key) { NodeAt(subs, key).Some? && NodeAt(subs, key).value.Dir? }

  /** The error of Set: ENOTDIR when a leaf lies where the path needs a directory, else EISDIR when
      the path denotes no key or a directory is there, else none. */
  lemma {:induction false} SetErrorExactly(subs: seq<Tree>, path: string, value: string)
    requires Sorted(subs) && NUL !in path
    ensures Set(subs, path, value).1 ==
            if Blocked(subs, Parts(path), KeyOf(path).None?) then NotDirectory
            else if KeyOf(path).None? || IsDirAt(subs, Parts(path)) then IsDirectory
            else Ok
    decreases |path|
  {
    PartFacts(path);
    match NextPart(path)
    case NoPart =>
    case FilePart(name) =>
      SearchSound(subs, name);
      NotBlockedYet(subs, Folded(name));
    case DirPart(name, rest) =>
      var i, f := Search(subs, name), Folded(name);
      SearchSound(subs, name);
      KeyIsParts(rest);
      BlockedBelow(subs, f, Parts(rest), KeyOf(rest).None?);
      if Parts(rest) != [] {
        DirBelow(subs, f, Parts(rest));
      }
      if !Hit(subs, i, name) {
        EmptySetSucceeds(rest, value);
      } else if subs[i].Dir? {
        assert subs[i] in subs;
        SetErrorExactly(subs[i].subs, rest, value);
      }
  }

  lemma NotBlockedYet(subs: seq<Tree>, f: string)
    ensures !Blocked(subs, [f], false)
  {}

  lemma DirBelow(subs: seq<Tree>, f: string, rest: Key)
    requires rest != []
    ensures IsDirAt(subs, [f] + rest) <==>
            match Child(subs, f) case None => false case Some(t) => t.Dir? && IsDirAt(t.subs, rest)
  {
    assert ([f] + rest)[1..] == rest;
  }

  /** A failing Set on a path that denotes a key changes nothing at all. */
  lemma {:induction false} FailedSetChangesNothing(subs: seq<Tree>, path: string, value: string)
    requires KeyOf(path).Some? && Set(subs, path, value).1 != Ok
    ensures Set(subs, path, value).0 == subs
    decreases |path|
  {
    match NextPart(path)
    case DirPart(name, rest) =>
      var i := Search(subs, name);
      if !Hit(subs, i, name) {
        EmptySetSucceeds(rest, value);
      } else if subs[i].Dir? {
        FailedSetChangesNothing(subs[i].subs, rest, value);
        assert subs[i := subs[i]] == subs;
      }
    case _ =>
  }

  lemma {:induction false} EmptySetSucceeds(path: string, value: string)
    ensures Set([], path, value).1 == if KeyOf(path).Some? then Ok else IsDirectory
    ensures KeyOf(path).Some? ==> Set([], path, value).0 != [] && Pruned(Set([], path, value).0)
    decreases |path|
  {
    match NextPart(path)
    case DirPart(name, rest) =>
      EmptySetSucceeds(rest, value);
      assert Inserted([], 0, Dir(name, Set([], rest, value).0)) == [Dir(name, Set([], rest, value).0)];
    case FilePart(name) =>
      assert Inserted([], 0, Leaf(name, Stored(true, value))) == [Leaf(name, Stored(true, value))];
    case NoPart =>
  }

  // ---------------------------------------------------------------- no empty directories, prefix-free keys

  lemma PrunedUpdate(subs: seq<Tree>, i: nat, t: Tree)
    requires Pruned(subs) && i < |subs| && (t.Dir? ==> t.subs != [] && Pruned(t.subs))
    ensures Pruned(subs[i := t]) && Pruned(Removed(subs, i)) && Pruned(Inserted(subs, i, t))
  {
    forall x | x in subs[i := t] ensures x == t || x in subs {
      var j :| 0 <= j < |subs| && subs[i := t][j] == x;
    }
    forall x | x in Removed(subs, i) ensures x in subs {
      var j :| 0 <= j < |subs| - 1 && Removed(subs, i)[j] == x;
      RemovedAt(subs, i, j);
    }
    PrunedInsert(subs, i, t);
  }

  lemma PrunedInsert(subs: seq<Tree>, i: nat, t: Tree)
    requires Pruned(subs) && i <= |subs| && (t.Dir? ==> t.subs != [] && Pruned(t.subs))
    ensures Pruned(Inserted(subs, i, t))
  {
    forall x | x in Inserted(subs, i, t) ensures x == t || x in subs {
      var j :| 0 <= j <= |subs| && Inserted(subs, i, t)[j] == x;
      InsertedAt(subs, i, t, j);
    }
  }

  /** Set on a path that denotes a key leaves no empty directory behind. */
  lemma {:induction false} SetKeepsPruned(subs: seq<Tree>, path: string, value: string)
    requires Pruned(subs) && KeyOf(path).Some?
    ensures Pruned(Set(subs, path, value).0)
    ensures Set(subs, path, value).1 == Ok ==> Set(subs, path, value).0 != []
    decreases |path|
  {
    match NextPart(path)
    case NoPart =>
    case FilePart(name) =>
      var i := Search(subs, name);
      if !Hit(subs, i, name) {
        PrunedInsert(subs, i, Leaf(name, Stored(true, value)));
      } else if subs[i].Leaf? {
        PrunedUpdate(subs, i, Leaf(subs[i].name, Stored(subs[i].value.closed, value)));
      }
    case DirPart(name, rest) =>
      var i := Search(subs, name);
      if !Hit(subs, i, name) {
        EmptySetSucceeds(rest, value);
        PrunedInsert(subs, i, Dir(name, Set([], rest, value).0));
      } else if subs[i].Dir? {
        assert subs[i] in subs;
        SetKeepsPruned(subs[i].subs, rest, value);
        if Set(subs[i].subs, rest, value).1 != Ok {
          FailedSetChangesNothing(subs[i].subs, rest, value);
        }
        PrunedUpdate(subs, i, Dir(subs[i].name, Set(subs[i].subs, rest, value).0));
      }
  }

  lemma Unpruned(subs: seq<Tree>, i: nat, t: Tree)
    requires i < |subs| && subs[i] == t && t.Dir? && (t.subs == [] || !Pruned(t.subs))
    ensures !Pruned(subs)
  {
    assert t in subs;
  }

  /** Set on a path that denotes no key: it changes nothing when there is no component to make a directory
      of, when a leaf is in the way, or when the directory is there already; otherwise it leaves an empty
      directory. */
  lemma {:induction false} KeylessSetExactly(subs: seq<Tree>, path: string, value: string)
    requires Sorted(subs) && NUL !in path && KeyOf(path).None?
    ensures var s := Set(subs, path, value).0;
            if Parts(path) == [] || Blocked(subs, Parts(path), true) || IsDirAt(subs, Parts(path)) then s == subs
            else !Pruned(s)
    decreases |path|
  {
    PartFacts(path);
    match NextPart(path)
    case NoPart =>
    case DirPart(name, rest) =>
      var i := Search(subs, name);
      SearchSound(subs, name);
      BlockedBelow(subs, Folded(name), Parts(rest), true);
      if Parts(rest) != [] {
        DirBelow(subs, Folded(name), Parts(rest));
      }
      if !Hit(subs, i, name) {
        KeylessSetExactly([], rest, value);
        EmptyHasNone(Parts(rest));
        Unpruned(Set(subs, path, value).0, i, Dir(name, Set([], rest, value).0));
      } else if subs[i].Dir? {
        assert subs[i] in subs;
        KeylessSetExactly(subs[i].subs, rest, value);
        assert subs[i := subs[i]] == subs;
        if !Pruned(Set(subs[i].subs, rest, value).0) {
          Unpruned(Set(subs, path, value).0, i, Dir(subs[i].name, Set(subs[i].subs, rest, value).0));
        }
      }
  }

  lemma EmptyHasNone(key: Key)
    ensures !Blocked([], key, true) && !IsDirAt([], key)
  {
    forall n | 1 <= n <= |key| ensures Lookup([], key[..n]) == None {}
  }

  /** In a tree without empty directories a Set leaves none exactly when its path denotes a key, has no
      component, runs into a leaf, or names a directory that is there. */
  lemma SetKeepsPrunedExactly(subs: seq<Tree>, path: string, value: string)
    requires Sorted(subs) && Pruned(subs) && NUL !in path
    ensures Pruned(Set(subs, path, value).0) <==>
            KeyOf(path).Some? || Parts(path) == [] || Blocked(subs, Parts(path), true) || IsDirAt(subs, Parts(path))
  {
    if KeyOf(path).Some? {
      SetKeepsPruned(subs, path, value);
    } else {
      KeylessSetExactly(subs, path, value);
    }
  }

  /** With a trailing slash it can: the failing Set leaves the directory it made. */
  lemma TrailingSlashLeavesEmptyDirectory()
    ensures Set([], "a/", "v") == ([Dir("a", [])], IsDirectory) && !Pruned([Dir("a", [])])
  {
    assert "a/"[1..] == "/" && "/"[1..] == "";
    assert SpanToSlash("a/") == 1;
    assert "a/"[..1] == "a" && "a/"[2..] == "";
    assert NextPart("a/") == DirPart("a", "");
    assert Inserted([], 0, Dir("a", [])) == [Dir("a", [])];
    assert Dir("a", []) in [Dir("a", [])];
  }

  /** Keys are prefix-free: nothing is bound below a bound key. */
  lemma {:induction false} KeysPrefixFree(subs: seq<Tree>, k: Key, l: Key)
    requires Lookup(subs, k).Some? && Lookup(subs, l).Some? && k <= l
    ensures k == l
    decreases |k|
  {
    if |k| > 1 {
      LookupBelow(subs, k);
      LookupBelow(subs, l);
      KeysPrefixFree(Child(subs, k[0]).value.subs, k[1..], l[1..]);
      assert k == [k[0]] + k[1..] && l == [l[0]] + l[1..];
    } else if |l| > 1 {
      LookupBelow(subs, l);
    } else {
      assert k == [k[0]] && l == [l[0]];
    }
  }

  /** In a tree without empty directories, some key is bound below every directory. */
  lemma {:induction false} BoundBelow(subs: seq<Tree>) returns (key: Key)
    requires Sorted(subs) && Pruned(subs) && subs != []
    ensures key != [] && Lookup(subs, key).Some?
    decreases subs
  {
    var t := subs[0];
    assert t in subs;
    ChildIs(subs, Folded(t.name), 0);
    key := [Folded(t.name)];
    if t.Dir? {
      var rest := BoundBelow(t.subs);
      key := key + rest;
      LookupBelow(subs, key);
    }
  }

  lemma {:induction false} DirectoryHasKeys(subs: seq<Tree>, key: Key)
    requires Sorted(subs) && Pruned(subs)
    ensures IsDirAt(subs, key) <==> exists l :: key < l && key != [] && Lookup(subs, l).Some?
    decreases |key|
  {
    if key != [] && Child(subs, key[0]).Some? {
      var i := ChildFacts(subs, key[0]);
      var t := subs[i];
      assert t in subs;
      if t.Dir? {
        if |key| == 1 {
          var rest := BoundBelow(t.subs);
          LookupBelow(subs, key + rest);
          assert (key + rest)[1..] == rest && key < key + rest;
        } else {
          DirectoryHasKeys(t.subs, key[1..]);
          if IsDirAt(subs, key) {
            var l :| key[1..] < l && Lookup(t.subs, l).Some?;
            LookupBelow(subs, [key[0]] + l);
            assert key == [key[0]] + key[1..];
            assert key < [key[0]] + l && ([key[0]] + l)[1..] == l;
          }
          forall l | key < l && Lookup(subs, l).Some? ensures IsDirAt(subs, key) {
            LookupBelow(subs, l);
            assert key[1..] < l[1..];
          }
        }
      } else {
        forall l | key < l ensures Lookup(subs, l).None? {
          LookupBelow(subs, l);
        }
      }
    } else if key != [] {
      forall l | key < l ensures Lookup(subs, l).None? {
        LookupBelow(subs, l);
      }
    }
  }

  /** In such a tree Set succeeds exactly when the new key keeps the keys prefix-free. */
  lemma SetSucceedsExactly(subs: seq<Tree>, path: string, value: string)
    requires Sorted(subs) && Pruned(subs) && NUL !in path && KeyOf(path).Some?
    ensures var key := KeyOf(path).value;
            Set(subs, path, value).1 ==
              if exists l :: l < key && Lookup(subs, l).Some? then NotDirectory
              else if exists l :: key < l && Lookup(subs, l).Some? then IsDirectory
              else Ok
  {
    var key := KeyOf(path).value;
    SetErrorExactly(subs, path, value);
    KeyIsParts(path);
    DirectoryHasKeys(subs, key);
    if Blocked(subs, key, false) {
      var n :| 1 <= n < |key| && Lookup(subs, key[..n]).Some?;
      assert key[..n] < key;
    }
    if l :| l < key && Lookup(subs, l).Some? {
      assert l == key[..|l|];
      assert Lookup(subs, key[..|l|]).Some?;
    }
  }

  // ---------------------------------------------------------------- the values in a tree

  lemma SortedTail(subs: seq<Tree>)
    requires Sorted(subs) && subs != []
    ensures Sorted(subs[1..])
  {
    forall t | t in subs[1..] ensures t in subs {}
  }

  lemma OnlyFirst(subs: seq<Tree>)
    requires Sorted(subs) && subs != []
    ensures Child(subs[1..], Folded(subs[0].name)) == None
  {
    forall j | 0 <= j < |subs[1..]| ensures Folded(subs[1..][j].name) != Folded(subs[0].name) {
      SortedDistinct(subs, 0, j + 1);
    }
    ChildNone(subs[1..], Folded(subs[0].name));
  }

  predicate BoundTo(subs: seq<Tree>, p: Value -> bool, key: Key) { Lookup(subs, key).Some? ==> p(Lookup(subs, key).value) }

  ghost predicate AllBoundTo(subs: seq<Tree>, p: Value -> bool) { forall key :: BoundTo(subs, p, key) }

  /** The first child decides the keys that start with its name. */
  lemma ThroughFirst(subs: seq<Tree>, p: Value -> bool, key: Key)
    requires subs != []
    ensures BoundTo(subs, p, key) <==>
            if key == [] || key[0] != Folded(subs[0].name) then BoundTo(subs[1..], p, key)
            else if subs[0].Leaf? then |key| == 1 ==> p(subs[0].value)
            else |key| > 1 ==> BoundTo(subs[0].subs, p, key[1..])
  {
    if |key| > 1 {
      LookupBelow(subs, key);
      LookupBelow(subs[1..], key);
    }
  }

  lemma AllThroughFirst(subs: seq<Tree>, p: Value -> bool)
    requires Sorted(subs) && subs != []
    ensures AllBoundTo(subs, p) <==>
            (if subs[0].Leaf? then p(subs[0].value) else AllBoundTo(subs[0].subs, p)) && AllBoundTo(subs[1..], p)
  {
    var t, f := subs[0], Folded(subs[0].name);
    OnlyFirst(subs);
    if AllBoundTo(subs, p) {
      forall key ensures BoundTo(subs[1..], p, key) {
        assert BoundTo(subs, p, key);
        ThroughFirst(subs, p, key);
        if |key| > 1 {
          LookupBelow(subs[1..], key);
        }
      }
      if t.Leaf? {
        assert BoundTo(subs, p, [f]);
        ThroughFirst(subs, p, [f]);
      } else {
        forall key ensures BoundTo(t.subs, p, key) {
          assert BoundTo(subs, p, [f] + key);
          ThroughFirst(subs, p, [f] + key);
          assert ([f] + key)[1..] == key;
        }
      }
    } else {
      var key :| !BoundTo(subs, p, key);
      ThroughFirst(subs, p, key);
    }
  }

  /** All values in a sorted tree are of a kind exactly when all values that are bound are. */
  lemma {:induction false} EachIsBound(subs: seq<Tree>, p: Value -> bool)
    requires Sorted(subs)
    ensures EachValueIn(subs, p) <==> AllBoundTo(subs, p)
    decreases subs
  {
    if subs == [] {
      forall key ensures BoundTo(subs, p, key) {}
    } else {
      assert subs[0] in subs;
      SortedTail(subs);
      AllThroughFirst(subs, p);
      EachIsBound(subs[1..], p);
      if subs[0].Dir? {
        EachIsBound(subs[0].subs, p);
      }
    }
  }
}
