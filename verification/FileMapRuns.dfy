/** Whole runs of a filemap: Set, Unset, and closing and opening it again, against a finite map. */
module FileMapRuns {

  import opened CStrings
  import opened Wrappers
  import opened FileMap
  import opened FileMapDelete
  import opened FileMapStore

  // ---------------------------------------------------------------- a tree that was opened again

  lemma {:induction false} AsLoadedAt(subs: seq<Tree>)
    ensures |AllAsLoaded(subs)| == |subs|
    ensures forall i :: 0 <= i < |subs| ==> AllAsLoaded(subs)[i] == AsLoaded(subs[i])
  {
    if subs != [] {
      AsLoadedAt(subs[1..]);
    }
  }

  lemma AsLoadedFrom(subs: seq<Tree>, t: Tree) returns (u: Tree)
    requires t in AllAsLoaded(subs)
    ensures u in subs && t == AsLoaded(u)
  {
    AsLoadedAt(subs);
    var i :| 0 <= i < |subs| && AllAsLoaded(subs)[i] == t;
    u := subs[i];
  }

  lemma {:induction false} SortedAsLoaded(subs: seq<Tree>)
    requires Sorted(subs)
    ensures Sorted(AllAsLoaded(subs))
    decreases subs
  {
    AsLoadedAt(subs);
    forall t | t in AllAsLoaded(subs) ensures IsName(t.name) && (t.Dir? ==> Sorted(t.subs)) {
      var u := AsLoadedFrom(subs, t);
      if u.Dir? {
        SortedAsLoaded(u.subs);
      }
    }
  }

  lemma {:induction false} PrunedAsLoaded(subs: seq<Tree>)
    requires Pruned(subs)
    ensures Pruned(AllAsLoaded(subs))
    decreases subs
  {
    forall t | t in AllAsLoaded(subs) && t.Dir? ensures t.subs != [] && Pruned(t.subs) {
      var u := AsLoadedFrom(subs, t);
      PrunedAsLoaded(u.subs);
      AsLoadedAt(u.subs);
    }
  }

  lemma {:induction false} ChildAsLoaded(subs: seq<Tree>, f: string)
    ensures Child(AllAsLoaded(subs), f) ==
            match Child(subs, f) case None => None case Some(t) => Some(AsLoaded(t))
  {
    if subs != [] {
      ChildAsLoaded(subs[1..], f);
    }
  }

  /** The same keys are bound to the same texts, in new fields. */
  lemma {:induction false} LookupAsLoaded(subs: seq<Tree>, key: Key)
    ensures Lookup(AllAsLoaded(subs), key) ==
            match Lookup(subs, key) case None => None case Some(v) => Some(FromField(v.text))
    decreases |key|
  {
    if key != [] {
      ChildAsLoaded(subs, key[0]);
      if |key| > 1 {
        LookupBelow(subs, key);
        LookupBelow(AllAsLoaded(subs), key);
        if Child(subs, key[0]).Some? && Child(subs, key[0]).value.Dir? {
          LookupAsLoaded(Child(subs, key[0]).value.subs, key[1..]);
        }
      }
    }
  }

  /** Close and open: the children of the root that Load makes of what Save wrote. */
  function Reopened(subs: seq<Tree>): seq<Tree> {
    match LoadFile(SavedFile(Dir("", subs)))
    case Opened(Dir(_, loaded)) => loaded
    case _ => subs
  }

  lemma ReopenedIs(subs: seq<Tree>)
    requires Storable(Dir("", subs))
    ensures LoadFile(SavedFile(Dir("", subs))) == Opened(Dir("", Reopened(subs))) && Reopened(subs) == AllAsLoaded(subs)
  {
    FileRoundTrip(Dir("", subs), "");
    assert SavedFile(Dir("", subs)) + "" == SavedFile(Dir("", subs));
  }

  // ---------------------------------------------------------------- trees that can be saved

  /** Trees whose fields fit and whose directories have at most n entries. */
  predicate Fits(t: Tree, n: nat)
    decreases t
  {
    IsField(t.name) && if t.Leaf? then IsField(t.value.text) else |t.subs| <= n && AllFit(t.subs, n)
  }

  predicate AllFit(subs: seq<Tree>, n: nat)
    decreases subs
  {
    forall t :: t in subs ==> Fits(t, n)
  }

  lemma {:induction false} FitsMore(t: Tree, n: nat)
    requires Fits(t, n)
    ensures Fits(t, n + 1)
    decreases t
  {
    if t.Dir? {
      forall u | u in t.subs ensures Fits(u, n + 1) {
        FitsMore(u, n);
      }
    }
  }

  /** Such a tree is storable when all its values can be read. */
  lemma {:induction false} FittingIsStorable(t: Tree, n: nat)
    requires Fits(t, n) && n < 0x1_0000_0000
    ensures Storable(t) <==> EachValue(t, Readable)
    decreases t, 0
  {
    if t.Dir? {
      FittingAreStorable(t.subs, n);
    }
  }

  lemma {:induction false} FittingAreStorable(subs: seq<Tree>, n: nat)
    requires AllFit(subs, n) && n < 0x1_0000_0000
    ensures AllStorable(subs) <==> EachValueIn(subs, Readable)
    decreases subs, 1
  {
    if subs != [] {
      assert subs[0] in subs;
      FittingIsStorable(subs[0], n);
      forall t | t in subs[1..] ensures t in subs {}
      FittingAreStorable(subs[1..], n);
    }
  }

  lemma FitInserted(subs: seq<Tree>, i: nat, t: Tree, n: nat)
    requires AllFit(subs, n) && Fits(t, n) && i <= |subs|
    ensures AllFit(Inserted(subs, i, t), n)
  {}

  lemma FitUpdated(subs: seq<Tree>, i: nat, t: Tree, n: nat)
    requires AllFit(subs, n) && Fits(t, n) && i < |subs|
    ensures AllFit(subs[i := t], n)
  {}

  lemma FileKeepsFit(subs: seq<Tree>, name: string, value: string, n: nat)
    requires AllFit(subs, n) && IsField(name) && NUL !in value
    ensures var i := Search(subs, name);
            AllFit(Inserted(subs, i, Leaf(name, Stored(true, value))), n)
            && (i < |subs| && subs[i].Leaf? ==> AllFit(subs[i := Leaf(subs[i].name, Stored(subs[i].value.closed, value))], n))
  {
    var i := Search(subs, name);
    FitInserted(subs, i, Leaf(name, Stored(true, value)), n);
    if i < |subs| && subs[i].Leaf? {
      assert subs[i] in subs;
      FitUpdated(subs, i, Leaf(subs[i].name, Stored(subs[i].value.closed, value)), n);
    }
  }

  lemma {:induction false} SetKeepsFit(subs: seq<Tree>, path: string, value: string, n: nat)
    requires AllFit(subs, n) && |subs| <= n && ShortParts(path) && NUL !in value
    ensures var s := Set(subs, path, value).0; AllFit(s, n + 1) && |s| <= n + 1
    decreases |path|
  {
    forall t | t in subs ensures Fits(t, n + 1) {
      FitsMore(t, n);
    }
    match NextPart(path)
    case NoPart =>
    case FilePart(name) =>
      FileKeepsFit(subs, name, value, n + 1);
    case DirPart(name, rest) =>
      var i := Search(subs, name);
      if !Hit(subs, i, name) {
        SetKeepsFit([], rest, value, n);
        FitInserted(subs, i, Dir(name, Set([], rest, value).0), n + 1);
      } else if subs[i].Dir? {
        assert subs[i] in subs;
        SetKeepsFit(subs[i].subs, rest, value, n);
        FitUpdated(subs, i, Dir(subs[i].name, Set(subs[i].subs, rest, value).0), n + 1);
      }
  }

  lemma {:induction false} DeleteKeepsFit(subs: seq<Tree>, path: string, n: nat)
    requires AllFit(subs, n) && |subs| <= n
    ensures var s := Delete(subs, path).0; AllFit(s, n) && |s| <= n
    decreases |path|
  {
    match NextPart(path)
    case NoPart =>
    case FilePart(name) =>
    case DirPart(name, rest) =>
      var i := Search(subs, name);
      if Hit(subs, i, name) && subs[i].Dir? {
        assert subs[i] in subs;
        DeleteKeepsFit(subs[i].subs, rest, n);
        FitUpdated(subs, i, Dir(subs[i].name, Delete(subs[i].subs, rest).0), n);
      }
  }

  lemma {:induction false} FitAsLoaded(subs: seq<Tree>, n: nat)
    requires AllFit(subs, n) && |subs| <= n
    ensures AllFit(AllAsLoaded(subs), n) && |AllAsLoaded(subs)| <= n
    decreases subs
  {
    AsLoadedAt(subs);
    forall t | t in AllAsLoaded(subs) ensures Fits(t, n) {
      var u := AsLoadedFrom(subs, t);
      if u.Dir? {
        FitAsLoaded(u.subs, n);
      }
    }
  }

  // ---------------------------------------------------------------- runs

  datatype Command = SetCmd(path: string, value: string) | UnsetCmd(path: string) | ReopenCmd

  function Apply(subs: seq<Tree>, c: Command): (seq<Tree>, Err) {
    match c
    case SetCmd(path, value) => Set(subs, path, value)
    case UnsetCmd(path) => Delete(subs, path)
    case ReopenCmd => (Reopened(subs), Ok)
  }

  /** The tree after the first n commands, starting from an empty root. */
  function TreeAfter(cmds: seq<Command>, n: nat): seq<Tree>
    requires n <= |cmds|
  {
    if n == 0 then [] else Apply(TreeAfter(cmds, n - 1), cmds[n - 1]).0
  }

  function ErrorOf(cmds: seq<Command>, n: nat): Err
    requires n < |cmds|
  {
    Apply(TreeAfter(cmds, n), cmds[n]).1
  }

  /** C strings with components that fit, no leaf on the way of an Unset, and a tree that can be saved when the
      filemap is closed. */
  predicate ProperStep(subs: seq<Tree>, c: Command) {
    match c
    case SetCmd(path, value) => NUL !in path && NUL !in value && ShortParts(path)
    case UnsetCmd(path) => NUL !in path && Deletable(subs, path)
    case ReopenCmd => Storable(Dir("", subs))
  }

  predicate ProperAt(cmds: seq<Command>, n: nat)
    requires n < |cmds|
  {
    ProperStep(TreeAfter(cmds, n), cmds[n])
  }

  predicate Proper(cmds: seq<Command>, n: nat)
    requires n <= |cmds|
  {
    n == 0 || (Proper(cmds, n - 1) && ProperAt(cmds, n - 1))
  }

  type Bindings = map<Key, Value>

  /** A successful command on the finite map. */
  function Bound(m: Bindings, c: Command): Bindings {
    match c
    case SetCmd(path, value) =>
      var k := KeyOf(path);
      if k.None? then m else m[k.value := Stored(k.value in m ==> m[k.value].closed, value)]
    case UnsetCmd(path) =>
      var k := KeyOf(path);
      if k.None? then m else map l | l in m && !(k.value <= l) :: m[l]
    case ReopenCmd => map l | l in m :: FromField(m[l].text)
  }

  function BindingsAfter(cmds: seq<Command>, n: nat): Bindings
    requires n <= |cmds|
  {
    if n == 0 then map[]
    else if ErrorOf(cmds, n - 1) == Ok then Bound(BindingsAfter(cmds, n - 1), cmds[n - 1])
    else BindingsAfter(cmds, n - 1)
  }

  predicate Holds(subs: seq<Tree>, m: Bindings, key: Key) { Lookup(subs, key) == if key in m then Some(m[key]) else None }

  /** The tree binds exactly what the finite map binds. */
  ghost predicate Represents(subs: seq<Tree>, m: Bindings) { forall key :: Holds(subs, m, key) }

  lemma SetHolds(subs: seq<Tree>, m: Bindings, path: string, value: string, key: Key)
    requires Sorted(subs) && NUL !in path && ShortParts(path) && Holds(subs, m, key)
    ensures var (s, err) := Set(subs, path, value);
            Holds(s, if err == Ok then Bound(m, SetCmd(path, value)) else m, key)
  {
    SetBindsExactly(subs, path, value, key);
  }

  lemma UnsetHolds(subs: seq<Tree>, m: Bindings, path: string, key: Key)
    requires Sorted(subs) && NUL !in path && Deletable(subs, path) && Holds(subs, m, key)
    ensures var (s, err) := Delete(subs, path);
            Holds(s, if err == Ok then Bound(m, UnsetCmd(path)) else m, key)
  {
    DeleteUnbindsExactly(subs, path, key);
    DeleteSucceedsExactly(subs, path);
    KeyNotEmpty(path);
    if Delete(subs, path).1 != Ok && KeyOf(path).Some? && KeyOf(path).value <= key {
      NothingBelow(subs, KeyOf(path).value, key);
    }
  }

  lemma ReopenHolds(subs: seq<Tree>, m: Bindings, key: Key)
    requires Storable(Dir("", subs)) && Holds(subs, m, key)
    ensures Holds(Reopened(subs), Bound(m, ReopenCmd), key)
  {
    ReopenedIs(subs);
    LookupAsLoaded(subs, key);
  }

  lemma StepHolds(subs: seq<Tree>, m: Bindings, c: Command, key: Key)
    requires Sorted(subs) && ProperStep(subs, c) && Holds(subs, m, key)
    ensures Holds(Apply(subs, c).0, if Apply(subs, c).1 == Ok then Bound(m, c) else m, key)
  {
    match c
    case SetCmd(path, value) =>
      SetHolds(subs, m, path, value, key);
    case UnsetCmd(path) =>
      UnsetHolds(subs, m, path, key);
    case ReopenCmd =>
      ReopenHolds(subs, m, key);
  }

  /** Over every run, with any number of closes and opens, the tree stays sorted and binds exactly what the finite
      map binds: a successful Set its key, an Unset drops its key and those below, opening again renews the
      fields, and a failing command changes nothing. */
  lemma {:induction false} RunIsFiniteMap(cmds: seq<Command>, n: nat)
    requires n <= |cmds| && Proper(cmds, n)
    ensures Sorted(TreeAfter(cmds, n)) && Represents(TreeAfter(cmds, n), BindingsAfter(cmds, n))
  {
    if n == 0 {
      forall key ensures Holds([], map[], key) {
        EmptyBindsNothing(key);
      }
    } else {
      RunIsFiniteMap(cmds, n - 1);
      OneMoreCommand(cmds, n);
    }
  }

  lemma OneMoreCommand(cmds: seq<Command>, n: nat)
    requires 0 < n <= |cmds| && ProperStep(TreeAfter(cmds, n - 1), cmds[n - 1]) && Sorted(TreeAfter(cmds, n - 1))
    requires Represents(TreeAfter(cmds, n - 1), BindingsAfter(cmds, n - 1))
    ensures Sorted(TreeAfter(cmds, n)) && Represents(TreeAfter(cmds, n), BindingsAfter(cmds, n))
  {
    var subs, m, c := TreeAfter(cmds, n - 1), BindingsAfter(cmds, n - 1), cmds[n - 1];
    AllStepsHold(subs, m, c, TreeAfter(cmds, n), BindingsAfter(cmds, n));
    StepSorted(subs, c);
  }

  lemma AllStepsHold(subs: seq<Tree>, m: Bindings, c: Command, subs': seq<Tree>, m': Bindings)
    requires Sorted(subs) && ProperStep(subs, c) && forall key :: Holds(subs, m, key)
    requires subs' == Apply(subs, c).0 && m' == if Apply(subs, c).1 == Ok then Bound(m, c) else m
    ensures forall key :: Holds(subs', m', key)
  {
    forall key ensures Holds(subs', m', key) {
      assert Holds(subs, m, key);
      StepHolds(subs, m, c, key);
    }
  }

  lemma StepSorted(subs: seq<Tree>, c: Command)
    requires Sorted(subs) && ProperStep(subs, c)
    ensures Sorted(Apply(subs, c).0)
  {
    match c
    case SetCmd(path, value) =>
      SetKeepsSorted(subs, path, value);
    case UnsetCmd(path) =>
      DeleteKeepsSorted(subs, path);
    case ReopenCmd =>
      ReopenedIs(subs);
      SortedAsLoaded(subs);
  }

  /** So Get is lookup in the finite map, for every path. */
  lemma RunGet(cmds: seq<Command>, n: nat, path: string)
    requires n <= |cmds| && Proper(cmds, n) && NUL !in path
    ensures Get(TreeAfter(cmds, n), path) ==
            if KeyOf(path).Some? && KeyOf(path).value in BindingsAfter(cmds, n)
            then Some(BindingsAfter(cmds, n)[KeyOf(path).value]) else None
  {
    RunIsFiniteMap(cmds, n);
    GetIsLookup(TreeAfter(cmds, n), path);
    if KeyOf(path).Some? {
      assert Holds(TreeAfter(cmds, n), BindingsAfter(cmds, n), KeyOf(path).value);
    }
  }

  // ---------------------------------------------------------------- what every run keeps

  /** When every Set names a path that denotes a key, no run leaves an empty directory. */
  lemma {:induction false} RunPruned(cmds: seq<Command>, n: nat)
    requires n <= |cmds| && Proper(cmds, n) && SetsDenoteKeys(cmds)
    ensures Pruned(TreeAfter(cmds, n))
  {
    if n > 0 {
      RunPruned(cmds, n - 1);
      StepPruned(TreeAfter(cmds, n - 1), cmds[n - 1]);
    }
  }

  predicate SetsDenoteKeys(cmds: seq<Command>) { forall i :: 0 <= i < |cmds| && cmds[i].SetCmd? ==> KeyOf(cmds[i].path).Some? }

  lemma StepPruned(subs: seq<Tree>, c: Command)
    requires Pruned(subs) && ProperStep(subs, c) && (c.SetCmd? ==> KeyOf(c.path).Some?)
    ensures Pruned(Apply(subs, c).0)
  {
    match c
    case SetCmd(path, value) =>
      SetKeepsPruned(subs, path, value);
    case UnsetCmd(path) =>
      DeleteKeepsPruned(subs, path);
    case ReopenCmd =>
      ReopenedIs(subs);
      PrunedAsLoaded(subs);
  }

  lemma StepFits(subs: seq<Tree>, c: Command, n: nat)
    requires AllFit(subs, n) && |subs| <= n && ProperStep(subs, c)
    ensures var s := Apply(subs, c).0; AllFit(s, n + 1) && |s| <= n + 1
  {
    match c
    case SetCmd(path, value) =>
      SetKeepsFit(subs, path, value, n);
    case UnsetCmd(path) =>
      DeleteKeepsFit(subs, path, n);
      AllFitMore(Delete(subs, path).0, n);
    case ReopenCmd =>
      ReopenedIs(subs);
      FitAsLoaded(subs, n);
      AllFitMore(Reopened(subs), n);
  }

  lemma AllFitMore(subs: seq<Tree>, n: nat)
    requires AllFit(subs, n)
    ensures AllFit(subs, n + 1)
  {
    forall t | t in subs ensures Fits(t, n + 1) {
      FitsMore(t, n);
    }
  }

  lemma {:induction false} RunFits(cmds: seq<Command>, n: nat)
    requires n <= |cmds| && Proper(cmds, n)
    ensures AllFit(TreeAfter(cmds, n), n) && |TreeAfter(cmds, n)| <= n
  {
    if n > 0 {
      assert ProperAt(cmds, n - 1);
      RunFits(cmds, n - 1);
      OneMoreFits(cmds, n);
    }
  }

  lemma OneMoreFits(cmds: seq<Command>, n: nat)
    requires 0 < n <= |cmds| && ProperAt(cmds, n - 1)
    requires AllFit(TreeAfter(cmds, n - 1), n - 1) && |TreeAfter(cmds, n - 1)| <= n - 1
    ensures AllFit(TreeAfter(cmds, n), n) && |TreeAfter(cmds, n)| <= n
  {
    StepFits(TreeAfter(cmds, n - 1), cmds[n - 1], n - 1);
  }

  // ---------------------------------------------------------------- what the finite map alone decides

  /** The outcome of a command.  A Set gives ENOTDIR below a bound key and EISDIR above one; an Unset finds nothing
      when no key at or below its own is bound. */
  function Outcome(m: Bindings, c: Command): Err
    requires !c.ReopenCmd? ==> KeyOf(c.path).Some?
  {
    match c
    case SetCmd(path, _) =>
      var k := KeyOf(path).value;
      if exists l :: l in m && l < k then NotDirectory else if exists l :: l in m && k < l then IsDirectory else Ok
    case UnsetCmd(path) =>
      var k := KeyOf(path).value;
      if exists l :: l in m && k <= l then Ok else KeyNotFound
    case ReopenCmd => Ok
  }

  predicate AllReadable(m: Bindings) { forall l :: l in m ==> Readable(m[l]) }

  /** What a command asks of the finite map: C strings with components that fit and a key, no bound key above that
      of an Unset, and only values that can be read when the filemap is closed. */
  predicate Allowed(m: Bindings, c: Command) {
    match c
    case SetCmd(path, value) => NUL !in path && NUL !in value && ShortParts(path) && KeyOf(path).Some?
    case UnsetCmd(path) => NUL !in path && KeyOf(path).Some? && !exists l :: l in m && l < KeyOf(path).value
    case ReopenCmd => AllReadable(m)
  }

  lemma BlockedExactly(subs: seq<Tree>, m: Bindings, key: Key)
    requires Represents(subs, m)
    ensures Blocked(subs, key, false) <==> exists l :: l in m && l < key
  {
    if Blocked(subs, key, false) {
      var n :| 1 <= n < |key| && Lookup(subs, key[..n]).Some?;
      assert Holds(subs, m, key[..n]) && key[..n] < key;
    }
    if l :| l in m && l < key {
      assert Holds(subs, m, l) && l == key[..|l|];
      assert Lookup(subs, key[..|l|]).Some?;
    }
  }

  lemma ReadableExactly(subs: seq<Tree>, m: Bindings, n: nat)
    requires Sorted(subs) && Represents(subs, m) && AllFit(subs, n) && |subs| <= n < 0x1_0000_0000
    ensures Storable(Dir("", subs)) <==> AllReadable(m)
  {
    FittingIsStorable(Dir("", subs), n);
    EachIsBound(subs, Readable);
    forall key ensures BoundTo(subs, Readable, key) <==> (key in m ==> Readable(m[key])) {
      assert Holds(subs, m, key);
    }
  }

  /** A command may be given to a filemap exactly when the finite map allows it. */
  lemma ProperExactly(subs: seq<Tree>, m: Bindings, c: Command, n: nat)
    requires Sorted(subs) && Represents(subs, m) && AllFit(subs, n) && |subs| <= n < 0x1_0000_0000
    requires !c.ReopenCmd? ==> KeyOf(c.path).Some?
    ensures ProperStep(subs, c) <==> Allowed(m, c)
  {
    match c
    case SetCmd(path, value) =>
    case UnsetCmd(path) =>
      if NUL !in path {
        DeletableExactly(subs, path);
        KeyIsParts(path);
        BlockedExactly(subs, m, KeyOf(path).value);
      }
    case ReopenCmd =>
      ReadableExactly(subs, m, n);
  }

  lemma OutcomeExactly(subs: seq<Tree>, m: Bindings, c: Command)
    requires Sorted(subs) && Pruned(subs) && Represents(subs, m) && ProperStep(subs, c)
    requires !c.ReopenCmd? ==> KeyOf(c.path).Some?
    ensures Apply(subs, c).1 == Outcome(m, c)
  {
    forall l ensures l in m <==> Lookup(subs, l).Some? {
      assert Holds(subs, m, l);
    }
    match c
    case SetCmd(path, value) =>
      SetSucceedsExactly(subs, path, value);
    case UnsetCmd(path) =>
      DeleteFindsExactly(subs, path);
    case ReopenCmd =>
  }

  /** The run on the finite map alone. */
  function MapAfter(cmds: seq<Command>, n: nat): Bindings
    requires n <= |cmds| && KeysDenoted(cmds)
  {
    if n == 0 then map[]
    else if Outcome(MapAfter(cmds, n - 1), cmds[n - 1]) == Ok then Bound(MapAfter(cmds, n - 1), cmds[n - 1])
    else MapAfter(cmds, n - 1)
  }

  predicate KeysDenoted(cmds: seq<Command>) { forall i :: 0 <= i < |cmds| && !cmds[i].ReopenCmd? ==> KeyOf(cmds[i].path).Some? }

  predicate AllowedAt(cmds: seq<Command>, n: nat)
    requires n < |cmds| && KeysDenoted(cmds)
  {
    Allowed(MapAfter(cmds, n), cmds[n])
  }

  predicate AllowedRun(cmds: seq<Command>, n: nat)
    requires n <= |cmds| && KeysDenoted(cmds)
  {
    n == 0 || (AllowedRun(cmds, n - 1) && AllowedAt(cmds, n - 1))
  }

  /** Filemaps refine finite maps: over every run of fewer than 2^32 commands, with any number of closes and opens
      among them, that the finite map allows, every command succeeds or fails as the finite map says, and the tree
      binds what the finite map binds. */
  lemma {:induction false} RunRefinesMap(cmds: seq<Command>, n: nat)
    requires n <= |cmds| < 0x1_0000_0000 && KeysDenoted(cmds) && AllowedRun(cmds, n)
    ensures Proper(cmds, n) && BindingsAfter(cmds, n) == MapAfter(cmds, n)
    ensures Represents(TreeAfter(cmds, n), MapAfter(cmds, n))
    ensures n < |cmds| ==> (ProperAt(cmds, n) <==> AllowedAt(cmds, n))
    ensures n < |cmds| && AllowedAt(cmds, n) ==> ErrorOf(cmds, n) == Outcome(MapAfter(cmds, n), cmds[n])
  {
    if n > 0 {
      RunRefinesMap(cmds, n - 1);
    }
    RunIsFiniteMap(cmds, n);
    if n < |cmds| {
      NextCommand(cmds, n);
    }
  }

  lemma NextCommand(cmds: seq<Command>, n: nat)
    requires n < |cmds| < 0x1_0000_0000 && KeysDenoted(cmds) && Proper(cmds, n) && BindingsAfter(cmds, n) == MapAfter(cmds, n)
    ensures ProperAt(cmds, n) <==> AllowedAt(cmds, n)
    ensures AllowedAt(cmds, n) ==> ErrorOf(cmds, n) == Outcome(MapAfter(cmds, n), cmds[n])
  {
    var subs, m, c := TreeAfter(cmds, n), MapAfter(cmds, n), cmds[n];
    RunIsFiniteMap(cmds, n);
    RunFits(cmds, n);
    RunPruned(cmds, n);
    ProperExactly(subs, m, c, n);
    if Allowed(m, c) {
      OutcomeExactly(subs, m, c);
    }
  }

  // ---------------------------------------------------------------- long values

  /** In a run whose Sets give values shorter than the field every bound value is shorter than it, so that all can be
      read and the filemap can be closed at any time. */
  lemma {:induction false} ShortValuesAreReadable(cmds: seq<Command>, n: nat)
    requires n <= |cmds| && forall i :: 0 <= i < |cmds| && cmds[i].SetCmd? ==> |cmds[i].value| < NAME_MAX
    ensures AllShort(BindingsAfter(cmds, n))
  {
    if n > 0 {
      ShortValuesAreReadable(cmds, n - 1);
      StepShort(BindingsAfter(cmds, n - 1), cmds[n - 1]);
    }
  }

  predicate AllShort(m: Bindings)
    ensures AllShort(m) ==> AllReadable(m)
  {
    forall l :: l in m ==> |m[l].text| < NAME_MAX
  }

  lemma StepShort(m: Bindings, c: Command)
    requires AllShort(m) && (c.SetCmd? ==> |c.value| < NAME_MAX)
    ensures AllShort(Bound(m, c))
  {}

  predicate TextsFit(m: Bindings) { forall l :: l in m ==> |m[l].text| <= NAME_MAX }

  /** A step makes a value that cannot be read exactly when it sets one that fills the field, for a key whose field
      is not closed. */
  lemma StepReadableExactly(m: Bindings, c: Command)
    requires TextsFit(m) && AllReadable(m) && (c.SetCmd? ==> KeyOf(c.path).Some?)
    ensures TextsFit(Bound(m, c))
    ensures AllReadable(Bound(m, c)) <==>
            !(c.SetCmd? && |c.value| >= NAME_MAX && KeyOf(c.path).value in m && !m[KeyOf(c.path).value].closed)
  {
    if c.SetCmd? {
      var k := KeyOf(c.path).value;
      assert k in Bound(m, c) && Bound(m, c)[k] == Stored(k in m ==> m[k].closed, c.value);
    }
  }

  /** A filemap that holds the value "v" for the key "a", closed and opened again: setting "a" to a value of at least
      255 characters leaves a field that Get reads behind. */
  lemma LongValueAfterReopening(value: string)
    requires |value| >= NAME_MAX
    ensures Reopened([Leaf("a", Stored(true, "v"))]) == [Leaf("a", Stored(false, "v"))]
    ensures var (subs, err) := Set([Leaf("a", Stored(false, "v"))], "a", value);
            err == Ok && Get(subs, "a") == Some(Stored(false, value)) && Read(Stored(false, value)) == None
  {
    OneLeafReopened("v");
    SetOnly("a", Stored(false, "v"), value);
  }

  lemma SetOnly(name: string, v: Value, value: string)
    requires IsName(name)
    ensures Set([Leaf(name, v)], name, value) == ([Leaf(name, Stored(v.closed, value))], Ok)
    ensures Get([Leaf(name, v)], name) == Some(v)
    ensures Get([Leaf(name, Stored(v.closed, value))], name) == Some(Stored(v.closed, value))
  {
    assert name[0] in name && name + "" == name;
    SpanOfName(name, "");
    assert NextPart(name) == FilePart(name);
    CmpZero(name, name);
    SearchOnly(Leaf(name, v));
    SearchOnly(Leaf(name, Stored(v.closed, value)));
    assert [Leaf(name, v)][0 := Leaf(name, Stored(v.closed, value))] == [Leaf(name, Stored(v.closed, value))];
  }

  lemma SearchOnly(t: Tree)
    requires IsName(t.name)
    ensures Search([t], t.name) == 0 && Hit([t], 0, t.name)
  {
    CmpZero(t.name, t.name);
  }

  lemma OneLeafReopened(text: string)
    requires |text| < NAME_MAX && NUL !in text
    ensures Reopened([Leaf("a", Stored(true, text))]) == [Leaf("a", Stored(false, text))]
  {
    var subs := [Leaf("a", Stored(true, text))];
    assert AllStorable(subs[1..]) && Storable(subs[0]);
    ReopenedIs(subs);
    AsLoadedAt(subs);
  }
}
