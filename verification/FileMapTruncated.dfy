/** What the loader makes of a filemap that was cut off: which cuts it notices, and which make it read behind
    its buffer. */
module FileMapTruncated {

  import opened CStrings
  import opened Sequences
  import opened FileMap
  import opened FileMapStore

  // ---------------------------------------------------------------- where a cut is noticed

  /** The bytes of a saved tree that its budget does not count. */
  function Terminators(t: Tree): nat
    decreases t, 0
  {
    if t.Leaf? then 2 else 1 + AllTerminators(t.subs)
  }

  function AllTerminators(subs: seq<Tree>): nat
    decreases subs, 1
  {
    if subs == [] then 0 else Terminators(subs[0]) + AllTerminators(subs[1..])
  }

  /** The cut behind n bytes is noticed, when k terminators lie before the tree: nothing at all is left of
      the file, or the cut lies in a count, and the bytes left of the count and the terminators before it
      are fewer than four. */
  predicate Noticed(t: Tree, n: nat, k: nat)
    decreases t, 0
  {
    if n == 0 then k == 0
    else
      t.Dir? && n >= 2 + |t.name|
      && var m := n - 2 - |t.name|;
         if m < 4 then m + k + 1 < 4 else NoticedIn(t.subs, m - 4, k + 1)
  }

  predicate NoticedIn(subs: seq<Tree>, n: nat, k: nat)
    decreases subs, 1
  {
    subs != []
    && var m := |SaveTree(subs[0])|;
       if n < m then Noticed(subs[0], n, k) else NoticedIn(subs[1..], n - m, k + Terminators(subs[0]))
  }

  function Outcome(noticed: bool): Failure { if noticed then EndOfFile else Overrun }

  /** The fields that lie within n bytes of the saved tree can be loaded; the field that the cut behind n bytes
      goes through may have any length. */
  predicate StorableUpTo(t: Tree, n: nat)
    decreases t, 0
  {
    NUL !in t.name && (n >= 2 + |t.name| ==> IsField(t.name))
    && if t.Leaf? then NUL !in t.value.text
       else |t.subs| < 0x1_0000_0000 && (n >= 6 + |t.name| ==> AllStorableUpTo(t.subs, n - 6 - |t.name|))
  }

  predicate AllStorableUpTo(subs: seq<Tree>, n: nat)
    decreases subs, 1
  {
    subs == []
    || var m := |SaveTree(subs[0])|;
       if n < m then StorableUpTo(subs[0], n) else Storable(subs[0]) && AllStorableUpTo(subs[1..], n - m)
  }

  lemma {:induction false} StorableAnywhere(t: Tree, n: nat)
    requires Storable(t)
    ensures StorableUpTo(t, n)
    decreases t, 0
  {
    if t.Dir? && n >= 6 + |t.name| {
      AllStorableAnywhere(t.subs, n - 6 - |t.name|);
    }
  }

  lemma {:induction false} AllStorableAnywhere(subs: seq<Tree>, n: nat)
    requires AllStorable(subs)
    ensures AllStorableUpTo(subs, n)
    decreases subs, 1
  {
    if subs != [] {
      StorableAnywhere(subs[0], n);
      if n >= |SaveTree(subs[0])| {
        AllStorableAnywhere(subs[1..], n - |SaveTree(subs[0])|);
      }
    }
  }

  // ---------------------------------------------------------------- cutting fields and nodes

  lemma {:induction false} Unterminated(s: string)
    requires NUL !in s
    ensures StrLen(s) == |s|
  {
    if s != "" {
      Unterminated(s[1..]);
    }
  }

  lemma CutField(f: string, n: nat, left: nat)
    requires NUL !in f && n <= |f|
    ensures LoadField(Field(f)[..n], left) == Failed(Overrun)
  {
    assert Field(f)[..n] == f[..n];
    Unterminated(f[..n]);
  }

  lemma {:induction false} SavedSize(t: Tree)
    ensures |SaveTree(t)| == Cost(t) + Terminators(t)
    decreases t, 0
  {
    if t.Dir? {
      SavedSizes(t.subs);
    }
  }

  lemma {:induction false} SavedSizes(subs: seq<Tree>)
    ensures |SaveTrees(subs)| == Costs(subs) + AllTerminators(subs)
    decreases subs, 1
  {
    if subs != [] {
      SavedSize(subs[0]);
      SavedSizes(subs[1..]);
    }
  }

  /** A cut in the name of a node. */
  lemma CutName(kind: char, name: string, body: string, n: nat, left: nat)
    requires (kind == KIND_LEAF || kind == KIND_NODE) && NUL !in name && 1 <= n <= 1 + |name| && left > 0
    ensures LoadTree(([kind] + Field(name) + body)[..n], left) == Failed(Overrun)
  {
    var s := ([kind] + Field(name) + body)[..n];
    assert s[0] == kind && s[1..] == Field(name)[..n - 1];
    CutField(name, n - 1, left - 1);
  }

  lemma CutBehindName(kind: char, name: string, body: string, n: nat)
    requires 2 + |name| <= n <= 2 + |name| + |body|
    ensures ([kind] + Field(name) + body)[..n] == [kind] + Field(name) + body[..n - 2 - |name|] + ""
  {}

  lemma CutLeaf(name: string, value: Value, n: nat, k: nat)
    requires StorableUpTo(Leaf(name, value), n) && 0 < n < |SaveTree(Leaf(name, value))|
    ensures LoadTree(SaveTree(Leaf(name, value))[..n], n + k) == Failed(Overrun)
  {
    var text := value.text;
    if n <= 1 + |name| {
      CutName(KIND_LEAF, name, Field(text), n, n + k);
    } else {
      var m := n - 2 - |name|;
      CutBehindName(KIND_LEAF, name, Field(text), n);
      HeaderSaved(KIND_LEAF, name, Field(text)[..m], "", n + k);
      assert Field(text)[..m] + "" == Field(text)[..m];
      CutField(text, m, n + k - 1 - |name|);
    }
  }

  lemma CutCount(count: string, trees: string, m: nat)
    requires |count| == 4 && 4 <= m <= 4 + |trees|
    ensures (count + trees)[..m] == count + trees[..m - 4]
  {}

  lemma CutDir(name: string, subs: seq<Tree>, n: nat, k: nat)
    requires StorableUpTo(Dir(name, subs), n) && 0 < n < |SaveTree(Dir(name, subs))|
    requires n >= 6 + |name| ==> NodesEnd(subs, n - 6 - |name|, k + 1)
    ensures LoadTree(SaveTree(Dir(name, subs))[..n], n + k) == Failed(Outcome(Noticed(Dir(name, subs), n, k)))
  {
    var count, trees := Be32(|subs|), SaveTrees(subs);
    if n <= 1 + |name| {
      CutName(KIND_NODE, name, count + trees, n, n + k);
    } else {
      HeaderLoads(name, count + trees, n, n + k);
      CutBody(name, subs, n - 2 - |name|, k);
    }
  }

  lemma HeaderLoads(name: string, body: string, n: nat, left: nat)
    requires IsField(name) && 2 + |name| <= n <= 2 + |name| + |body| && n <= left
    ensures LoadTree(([KIND_NODE] + Field(name) + body)[..n], left) == LoadDir(name, body[..n - 2 - |name|], left - 1 - |name|)
  {
    var x := body[..n - 2 - |name|];
    CutBehindName(KIND_NODE, name, body, n);
    HeaderSaved(KIND_NODE, name, x, "", left);
    assert x + "" == x;
  }

  lemma CutBody(name: string, subs: seq<Tree>, m: nat, k: nat)
    requires |subs| < 0x1_0000_0000 && m < 4 + |SaveTrees(subs)|
    requires m >= 4 ==> NodesEnd(subs, m - 4, k + 1)
    ensures LoadDir(name, (Be32(|subs|) + SaveTrees(subs))[..m], m + k + 1) ==
            Failed(Outcome(if m < 4 then m + k + 1 < 4 else NoticedIn(subs, m - 4, k + 1)))
  {
    if m >= 4 {
      CutCount(Be32(|subs|), SaveTrees(subs), m);
      Be32RoundTrip(|subs|, SaveTrees(subs)[..m - 4]);
    }
  }

  predicate NodeEnds(t: Tree, n: nat, k: nat) {
    n < |SaveTree(t)| ==> LoadTree(SaveTree(t)[..n], n + k) == Failed(Outcome(Noticed(t, n, k)))
  }

  predicate NodesEnd(subs: seq<Tree>, n: nat, k: nat) {
    n < |SaveTrees(subs)| ==> Fails(SaveTrees(subs), n, n + k, |subs|, NoticedIn(subs, n, k))
  }

  predicate Fails(trees: string, n: nat, left: nat, count: nat, noticed: bool)
    requires n <= |trees|
  {
    LoadTrees(trees[..n], left, count) == Failed(Outcome(noticed))
  }

  /** LoadNode on a saved tree that is cut behind n bytes, after k terminators: the end of the file is
      reported exactly when the cut is noticed; otherwise the loader reads behind its buffer. */
  lemma {:induction false} CutTree(t: Tree, n: nat, k: nat)
    requires StorableUpTo(t, n)
    ensures NodeEnds(t, n, k)
    decreases t, 0
  {
    if 0 < n < |SaveTree(t)| {
      if t.Leaf? {
        CutLeaf(t.name, t.value, n, k);
      } else {
        if n >= 6 + |t.name| {
          CutTrees(t.subs, n - 6 - |t.name|, k + 1);
        }
        CutDir(t.name, t.subs, n, k);
      }
    }
  }

  lemma {:induction false} CutTrees(subs: seq<Tree>, n: nat, k: nat)
    requires AllStorableUpTo(subs, n)
    ensures NodesEnd(subs, n, k)
    decreases subs, 1
  {
    if n < |SaveTrees(subs)| {
      var m := |SaveTree(subs[0])|;
      if n < m {
        CutTree(subs[0], n, k);
        CutInFirst(subs, n, k);
      } else {
        CutTrees(subs[1..], n - m, k + Terminators(subs[0]));
        CutBehindFirst(subs, n, k);
      }
    }
  }

  lemma CutInFirst(subs: seq<Tree>, n: nat, k: nat)
    requires subs != [] && n < |SaveTree(subs[0])| && NodeEnds(subs[0], n, k)
    ensures NodesEnd(subs, n, k)
  {
    assert SaveTrees(subs)[..n] == SaveTree(subs[0])[..n];
  }

  lemma CutBehindFirst(subs: seq<Tree>, n: nat, k: nat)
    requires subs != [] && Storable(subs[0]) && |SaveTree(subs[0])| <= n < |SaveTrees(subs)|
    requires NodesEnd(subs[1..], n - |SaveTree(subs[0])|, k + Terminators(subs[0]))
    ensures NodesEnd(subs, n, k)
  {
    CutLater(subs[0], SaveTrees(subs[1..]), |subs|, n, k, NoticedIn(subs, n, k));
  }

  lemma CutLater(t: Tree, trees: string, count: nat, n: nat, k: nat, noticed: bool)
    requires Storable(t) && count > 0 && |SaveTree(t)| <= n <= |SaveTree(t)| + |trees|
    requires var m := n - |SaveTree(t)|; Fails(trees, m, m + (k + Terminators(t)), count - 1, noticed)
    ensures Fails(SaveTree(t) + trees, n, n + k, count, noticed)
  {
    TwoCut(SaveTree(t), trees, n);
    FirstLoads(t, trees[..n - |SaveTree(t)|], count, n, k, Outcome(noticed));
  }

  lemma FailsLater(t: Tree, rest: string, left: nat, left1: nat, count: nat, why: Failure)
    requires Storable(t) && count > 0 && left == left1 + Cost(t)
    requires LoadTrees(rest, left1, count - 1) == Failed(why)
    ensures LoadTrees(SaveTree(t) + rest, left, count) == Failed(why)
  {
    LoadSaved(t, rest, left);
    Prepends(SaveTree(t) + rest, left, count, AsLoaded(t), rest, left1, Failed(why));
  }

  lemma CostOfSaved(t: Tree, r: nat, n: nat, k: nat)
    requires |SaveTree(t)| + r == n
    ensures n + k == r + (k + Terminators(t)) + Cost(t)
  {
    SavedSize(t);
  }

  lemma FirstLoads(t: Tree, rest: string, count: nat, n: nat, k: nat, why: Failure)
    requires Storable(t) && count > 0 && |SaveTree(t)| + |rest| == n
    requires LoadTrees(rest, |rest| + (k + Terminators(t)), count - 1) == Failed(why)
    ensures LoadTrees(SaveTree(t) + rest, n + k, count) == Failed(why)
  {
    CostOfSaved(t, |rest|, n, k);
    FailsLater(t, rest, n + k, |rest| + (k + Terminators(t)), count, why);
  }

  lemma TwoCut(a: string, b: string, n: nat)
    requires |a| <= n <= |a| + |b|
    ensures (a + b)[..n] == a + b[..n - |a|]
  {}

  // ---------------------------------------------------------------- every overrun is such a cut

  /** The bytes are a proper prefix of the saved tree, with fields that can be loaded up to there. */
  predicate CutFrom(s: string, t: Tree) { s < SaveTree(t) && StorableUpTo(t, |s|) }

  predicate AllCutFrom(s: string, subs: seq<Tree>) { s < SaveTrees(subs) && AllStorableUpTo(subs, |s|) }

  function EmptyLeaf(): Tree { Leaf("", FromField("")) }

  lemma NameCut(k: char, name: string) returns (t: Tree)
    requires (k == KIND_LEAF || k == KIND_NODE) && NUL !in name
    ensures CutFrom([k] + name, t)
  {
    t := if k == KIND_LEAF then Leaf(name, FromField("")) else Dir(name, []);
    assert SaveTree(t)[..1 + |name|] == [k] + name;
  }

  lemma ValueCut(name: string, text: string)
    requires IsField(name) && NUL !in text
    ensures CutFrom([KIND_LEAF] + Field(name) + text, Leaf(name, FromField(text)))
  {
    var s := [KIND_LEAF] + Field(name) + text;
    assert SaveTree(Leaf(name, FromField(text))) == s + [NUL];
  }

  lemma BodyCut(name: string, subs: seq<Tree>, x: string)
    requires IsField(name) && |subs| < 0x1_0000_0000 && x < Be32(|subs|) + SaveTrees(subs)
    requires |x| >= 4 ==> AllStorableUpTo(subs, |x| - 4)
    ensures CutFrom([KIND_NODE] + Field(name) + x, Dir(name, subs))
  {
    var s, body := [KIND_NODE] + Field(name) + x, Be32(|subs|) + SaveTrees(subs);
    assert SaveTree(Dir(name, subs)) == s + body[|x|..];
  }

  /** A count of which fewer than four bytes are there. */
  lemma CountCut(x: string) returns (subs: seq<Tree>)
    requires Bytes(x) && |x| < 4
    ensures |subs| < 0x1_0000_0000 && x < Be32(|subs|) + SaveTrees(subs)
  {
    var count := x + seq(4 - |x|, i => 0 as char);
    Be32Loaded(count);
    subs := seq(FromBe32(count), i => EmptyLeaf());
    assert count[4..] == "";
    assert count == Be32(|subs|);
    assert x == count[..|x|];
  }

  lemma UnterminatedField(s: string, left: nat)
    requires LoadField(s, left) == Failed(Overrun)
    ensures NUL !in s
  {
    StrLenFacts(s);
    assert s[..|s|] == s;
  }

  /** The rest of a directory: the children that were loaded, the one that was cut, and any behind it. */
  lemma {:induction false} AllCompleted(s: string, left: nat, count: nat) returns (subs: seq<Tree>)
    requires Bytes(s) && LoadTrees(s, left, count) == Failed(Overrun)
    ensures |subs| == count && AllCutFrom(s, subs)
    decreases |s|, 1, count
  {
    var r := LoadTree(s, left);
    FirstFails(s, left, count);
    if r.Failed? {
      var t := Completed(s, left);
      subs := [t] + seq(count - 1, i => EmptyLeaf());
      FirstIsCut(s, subs);
    } else {
      LoadedIsSaved(s, left);
      BytesOfRest(s, SaveTree(r.value), r.rest);
      var more := AllCompleted(r.rest, r.left, count - 1);
      subs := [r.value] + more;
      LaterIsCut(r.value, r.rest, more);
    }
  }

  lemma FirstFails(s: string, left: nat, count: nat)
    requires LoadTrees(s, left, count) == Failed(Overrun)
    ensures count > 0
    ensures match LoadTree(s, left)
            case Failed(why) => why == Overrun
            case Loaded(_, rest, left1) => |rest| < |s| && LoadTrees(rest, left1, count - 1) == Failed(Overrun)
  {}

  lemma FirstIsCut(s: string, subs: seq<Tree>)
    requires subs != [] && CutFrom(s, subs[0])
    ensures AllCutFrom(s, subs)
  {}

  lemma LaterIsCut(t: Tree, s: string, subs: seq<Tree>)
    requires Storable(t) && AllCutFrom(s, subs)
    ensures AllCutFrom(SaveTree(t) + s, [t] + subs)
  {
    assert ([t] + subs)[1..] == subs;
    assert SaveTrees([t] + subs) == SaveTree(t) + SaveTrees(subs);
  }

  /** Bytes on which LoadNode reads behind its buffer start a saved tree. */
  lemma {:induction false} Completed(s: string, left: nat) returns (t: Tree)
    requires Bytes(s) && LoadTree(s, left) == Failed(Overrun)
    ensures CutFrom(s, t)
    decreases |s|, 0, 0
  {
    if s == "" {
      t := EmptyLeaf();
    } else {
      var r := LoadField(s[1..], left - 1);
      assert s == [s[0]] + s[1..];
      if r.Failed? {
        UnterminatedField(s[1..], left - 1);
        t := NameCut(s[0], s[1..]);
      } else {
        FieldLoaded(s[1..], left - 1);
        Regroup([s[0]], Field(r.value), r.rest);
        BytesOfRest(s, [s[0]] + Field(r.value), r.rest);
        t := BodyCompleted(s[0], r.value, r.rest, r.left);
      }
    }
  }

  lemma {:induction false} BodyCompleted(k: char, name: string, s: string, left: nat) returns (t: Tree)
    requires Bytes(s) && IsField(name) && (k == KIND_LEAF || k == KIND_NODE)
    requires (if k == KIND_LEAF then LoadLeaf(name, s, left) else LoadDir(name, s, left)) == Failed(Overrun)
    ensures CutFrom([k] + Field(name) + s, t)
    decreases |s|, 2, 0
  {
    if k == KIND_LEAF {
      UnterminatedField(s, left);
      ValueCut(name, s);
      t := Leaf(name, FromField(s));
    } else {
      var subs;
      if |s| < 4 {
        subs := CountCut(s);
      } else {
        Be32Loaded(s);
        BytesOfRest(s, s[..4], s[4..]);
        subs := AllCompleted(s[4..], left - 4, FromBe32(s));
      }
      BodyCut(name, subs, s);
      t := Dir(name, subs);
    }
  }

  ghost predicate CutUnnoticed(s: string, k: nat) { exists t :: CutFrom(s, t) && !Noticed(t, |s|, k) }

  /** LoadNode reads behind its buffer, with a budget of its bytes and k more, exactly on the bytes that are cut
      from a saved tree where the cut is not noticed. */
  lemma OverrunsExactly(s: string, k: nat)
    requires Bytes(s)
    ensures LoadTree(s, |s| + k) == Failed(Overrun) <==> CutUnnoticed(s, k)
  {
    if LoadTree(s, |s| + k) == Failed(Overrun) {
      var t := Completed(s, |s| + k);
      CutOff(s, t, k);
    }
    forall t | CutFrom(s, t) && !Noticed(t, |s|, k) ensures LoadTree(s, |s| + k) == Failed(Overrun) {
      CutOff(s, t, k);
    }
  }

  lemma CutOff(s: string, t: Tree, k: nat)
    requires CutFrom(s, t)
    ensures LoadTree(s, |s| + k) == Failed(Outcome(Noticed(t, |s|, k)))
  {
    CutTree(t, |s|, k);
    assert s == SaveTree(t)[..|s|];
  }

  // ---------------------------------------------------------------- cutting files

  /** A filemap file that was cut off is refused, but for the empty one: without a whole header as a file of
      unknown version; else as ended too early exactly when the cut is noticed, and otherwise the loader
      reads behind its buffer. */
  lemma CutFile(t: Tree, n: nat)
    requires Storable(t) && n < |SavedFile(t)|
    ensures LoadFile(SavedFile(t)[..n]) ==
            if n == 0 then Opened(Dir("", []))
            else if n < |SIGNATURE| + |VERSION| then Refused(UnknownVersion)
            else Refused(BadNode(Outcome(Noticed(t, n - |SIGNATURE| - |VERSION|, 0))))
  {
    if n >= |SIGNATURE| + |VERSION| {
      var m := n - |SIGNATURE| - |VERSION|;
      var body := SaveTree(t)[..m];
      assert SavedFile(t)[..n] == SIGNATURE + VERSION + body;
      HeaderPasses(body);
      StorableAnywhere(t, m);
      CutTree(t, m, 0);
    }
  }

  /** Load reads behind its buffer exactly on the files that are cut from a saved tree, behind their header,
      where the cut is not noticed. */
  lemma FileOverrunsExactly(file: string)
    requires Bytes(file)
    ensures LoadFile(file) == Refused(BadNode(Overrun)) <==>
            SIGNATURE + VERSION <= file && CutUnnoticed(file[|SIGNATURE| + |VERSION|..], 0)
  {
    if SIGNATURE + VERSION <= file {
      var body := file[|SIGNATURE| + |VERSION|..];
      assert file == SIGNATURE + VERSION + body;
      BytesOfRest(file, SIGNATURE + VERSION, body);
      BodyOverruns(body);
    } else {
      HeaderFails(file);
    }
  }

  lemma BodyOverruns(body: string)
    requires Bytes(body)
    ensures LoadFile(SIGNATURE + VERSION + body) == Refused(BadNode(Overrun)) <==> CutUnnoticed(body, 0)
  {
    HeaderPasses(body);
    OverrunsExactly(body, 0);
  }

  lemma HeaderFails(file: string)
    requires !(SIGNATURE + VERSION <= file)
    ensures LoadFile(file) != Refused(BadNode(Overrun))
  {
    if |file| >= |SIGNATURE| + |VERSION| && file[..|SIGNATURE|] == SIGNATURE {
      assert file == file[..|SIGNATURE|] + file[|SIGNATURE|..];
      var rest := file[|SIGNATURE|..];
      assert rest == rest[..|VERSION|] + rest[|VERSION|..];
      Regroup(SIGNATURE, rest[..|VERSION|], rest[|VERSION|..]);
    }
  }

  /** No proper prefix of a saved file but the empty one opens. */
  lemma NoProperPrefixOpens(t: Tree, file: string)
    requires Storable(t) && file < SavedFile(t) && file != ""
    ensures LoadFile(file).Refused?
  {
    CutFile(t, |file|);
    assert file == SavedFile(t)[..|file|];
  }

  /** A cut in a leaf is never noticed. */
  lemma CutInLeaf(name: string, text: string, n: nat)
    requires NUL !in name && NUL !in text && (n >= 2 + |name| ==> IsField(name)) && 0 < n < 3 + |name| + |text|
    ensures LoadFile(SIGNATURE + VERSION + ([KIND_LEAF] + Field(name) + Field(text))[..n]) == Refused(BadNode(Overrun))
  {
    var t := Leaf(name, FromField(text));
    HeaderPasses(SaveTree(t)[..n]);
    CutLeaf(name, t.value, n, 0);
  }

  /** A file on which the loader reads behind its buffer. */
  lemma OverrunInput()
    ensures LoadFile(SIGNATURE + VERSION + ([KIND_LEAF] + "a")) == Refused(BadNode(Overrun))
  {
    assert ([KIND_LEAF] + Field("a") + Field(""))[..2] == [KIND_LEAF] + "a";
    CutInLeaf("a", "", 2);
  }
}
