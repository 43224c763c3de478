/** The storage format of filemaps: the serializer, the loader with its byte budget, and why each
    undoes the other. */
module FileMapStore {

  import opened CStrings
  import opened Sequences
  import opened FileMap

  const KIND_NODE: char := 0 as char
  const KIND_LEAF: char := 1 as char

  // ---------------------------------------------------------------- saving

  /** A number below 2^32 as four bytes, highest first. */
  function Be32(n: nat): string {
    var a := n / 256;
    var b := a / 256;
    [(b / 256 % 256) as char, (b % 256) as char, (a % 256) as char, (n % 256) as char]
  }

  function FromBe32(s: string): nat
    requires |s| >= 4
  {
    256 * (256 * (256 * (s[0] as nat) + s[1] as nat) + s[2] as nat) + s[3] as nat
  }

  /** A NUL-terminated field. */
  function Field(f: string): string { f + [NUL] }

  function SaveTree(t: Tree): string
    decreases t, 0
  {
    match t
    case Leaf(name, value) => [KIND_LEAF] + Field(name) + Field(value.text)
    case Dir(name, subs) => [KIND_NODE] + Field(name) + (Be32(|subs|) + SaveTrees(subs))
  }

  function SaveTrees(subs: seq<Tree>): string
    decreases subs, 1
  {
    if subs == [] then "" else SaveTree(subs[0]) + SaveTrees(subs[1..])
  }

  /** What the loader charges to its budget: every byte but the terminators. */
  function Cost(t: Tree): nat
    decreases t, 0
  {
    match t
    case Leaf(name, value) => 1 + |name| + |value.text|
    case Dir(name, subs) => 5 + |name| + Costs(subs)
  }

  function Costs(subs: seq<Tree>): nat
    decreases subs, 1
  {
    if subs == [] then 0 else Cost(subs[0]) + Costs(subs[1..])
  }

  /** Trees whose names and values fit their fields and can be read back from them. */
  predicate Storable(t: Tree)
    decreases t, 0
  {
    IsField(t.name) && (if t.Leaf? then IsField(t.value.text) && Readable(t.value) else |t.subs| < 0x1_0000_0000 && AllStorable(t.subs))
  }

  predicate AllStorable(subs: seq<Tree>)
    decreases subs, 1
  {
    subs == [] || (Storable(subs[0]) && AllStorable(subs[1..]))
  }

  // ---------------------------------------------------------------- loading

  /** A text with its terminator, copied into a new field: the terminator reaches the last byte only behind
      NAME_MAX characters. */
  function FromField(text: string): Value { Value(text, |text| == NAME_MAX) }

  /** A tree as it comes back from a file. */
  function AsLoaded(t: Tree): Tree
    decreases t, 0
  {
    match t
    case Leaf(name, value) => Leaf(name, FromField(value.text))
    case Dir(name, subs) => Dir(name, AllAsLoaded(subs))
  }

  function AllAsLoaded(subs: seq<Tree>): seq<Tree>
    decreases subs, 1
  {
    if subs == [] then [] else [AsLoaded(subs[0])] + AllAsLoaded(subs[1..])
  }

  /** strlen on memory that ends: the whole length when there is no terminator. */
  function StrLen(s: string): (n: nat)
    ensures n <= |s|
  {
    if s == "" || s[0] == NUL then 0 else 1 + StrLen(s[1..])
  }

  datatype Failure = EndOfFile | UnknownKind | NameTooLong | Overrun

  /** What is read, the bytes left, and the budget left; Overrun stands for a read behind the buffer. */
  datatype Load<T> = Loaded(value: T, rest: string, left: nat) | Failed(why: Failure)

  /** A NUL-terminated field, within the budget. */
  function LoadField(s: string, left: nat): (r: Load<string>)
    ensures r.Loaded? ==> |r.rest| < |s|
  {
    var n := StrLen(s);
    if n == |s| then Failed(Overrun)
    else if n > NAME_MAX then Failed(NameTooLong)
    else if n > left then Failed(EndOfFile)
    else Loaded(s[..n], s[n + 1..], left - n)
  }

  function LoadTree(s: string, left: nat): (r: Load<Tree>)
    ensures r.Loaded? ==> |r.rest| < |s|
    decreases |s|, 0, 0
  {
    if left == 0 then Failed(EndOfFile)
    else if s == "" then Failed(Overrun)
    else if s[0] != KIND_LEAF && s[0] != KIND_NODE then Failed(UnknownKind)
    else
      match LoadField(s[1..], left - 1)
      case Failed(why) => Failed(why)
      case Loaded(name, s1, left1) =>
        if s[0] == KIND_LEAF then LoadLeaf(name, s1, left1) else LoadDir(name, s1, left1)
  }

  function LoadLeaf(name: string, s: string, left: nat): (r: Load<Tree>)
    ensures r.Loaded? ==> |r.rest| <= |s|
  {
    match LoadField(s, left)
    case Failed(why) => Failed(why)
    case Loaded(value, s1, left1) => Loaded(Leaf(name, FromField(value)), s1, left1)
  }

  function LoadDir(name: string, s: string, left: nat): (r: Load<Tree>)
    ensures r.Loaded? ==> |r.rest| <= |s|
    decreases |s|, 2, 0
  {
    if left < 4 then Failed(EndOfFile)
    else if |s| < 4 then Failed(Overrun)
    else
      match LoadTrees(s[4..], left - 4, FromBe32(s))
      case Failed(why) => Failed(why)
      case Loaded(subs, s1, left1) => Loaded(Dir(name, subs), s1, left1)
  }

  function LoadTrees(s: string, left: nat, count: nat): (r: Load<seq<Tree>>)
    ensures r.Loaded? ==> |r.rest| <= |s|
    decreases |s|, 1, count
  {
    if count == 0 then Loaded([], s, left)
    else
      match LoadTree(s, left)
      case Failed(why) => Failed(why)
      case Loaded(t, s1, left1) =>
        match LoadTrees(s1, left1, count - 1)
        case Failed(why) => Failed(why)
        case Loaded(ts, s2, left2) => Loaded([t] + ts, s2, left2)
  }

  // ---------------------------------------------------------------- loading what was saved

  lemma {:induction false} StrLenOf(f: string, x: string)
    requires NUL !in f && x != "" && x[0] == NUL
    ensures StrLen(f + x) == |f|
  {
    if f == "" {
      assert f + x == x;
    } else {
      assert (f + x)[1..] == f[1..] + x;
      StrLenOf(f[1..], x);
    }
  }

  lemma FieldRoundTrip(f: string, rest: string, left: nat)
    requires IsField(f)
    ensures LoadField(Field(f) + rest, left) == if |f| <= left then Loaded(f, rest, left - |f|) else Failed(EndOfFile)
  {
    var s := Field(f) + rest;
    assert s == f + ([NUL] + rest);
    StrLenOf(f, [NUL] + rest);
    assert s[..|f|] == f && s[|f| + 1..] == rest;
  }

  lemma Be32RoundTrip(n: nat, rest: string)
    requires n < 0x1_0000_0000
    ensures FromBe32(Be32(n) + rest) == n && (Be32(n) + rest)[4..] == rest
  {
    var s, a := Be32(n) + rest, n / 256;
    assert s[0] == Be32(n)[0] && s[1] == Be32(n)[1] && s[2] == Be32(n)[2] && s[3] == Be32(n)[3];
    var b := a / 256;
    assert b / 256 < 256;
  }

  function Within(t: Tree, rest: string, left: nat): Load<Tree> {
    if Cost(t) <= left then Loaded(AsLoaded(t), rest, left - Cost(t)) else Failed(EndOfFile)
  }

  lemma ThreeParts(k: char, a: string, b: string, rest: string)
    ensures var s := [k] + a + b + rest; s != "" && s[0] == k && s[1..] == a + (b + rest)
  {}

  /** The header of a node: its kind and its name. */
  lemma HeaderSaved(k: char, name: string, body: string, rest: string, left: nat)
    requires IsField(name) && (k == KIND_LEAF || k == KIND_NODE)
    ensures LoadTree([k] + Field(name) + body + rest, left) ==
            if left < 1 + |name| then Failed(EndOfFile)
            else if k == KIND_LEAF then LoadLeaf(name, body + rest, left - 1 - |name|)
            else LoadDir(name, body + rest, left - 1 - |name|)
  {
    ThreeParts(k, Field(name), body, rest);
    if left > 0 {
      FieldRoundTrip(name, body + rest, left - 1);
    }
  }

  lemma LeafSaved(name: string, value: Value, rest: string, left: nat)
    requires IsField(name) && IsField(value.text)
    ensures LoadTree(SaveTree(Leaf(name, value)) + rest, left) == Within(Leaf(name, value), rest, left)
  {
    HeaderSaved(KIND_LEAF, name, Field(value.text), rest, left);
    if left >= 1 + |name| {
      FieldRoundTrip(value.text, rest, left - 1 - |name|);
    }
  }

  lemma DirSaved(name: string, subs: seq<Tree>, rest: string, left: nat)
    requires IsField(name) && |subs| < 0x1_0000_0000
    requires left >= 5 + |name| ==>
               LoadTrees(SaveTrees(subs) + rest, left - 5 - |name|, |subs|) == AllWithin(subs, rest, left - 5 - |name|)
    ensures LoadTree(SaveTree(Dir(name, subs)) + rest, left) == Within(Dir(name, subs), rest, left)
  {
    var count, trees := Be32(|subs|), SaveTrees(subs);
    HeaderSaved(KIND_NODE, name, count + trees, rest, left);
    Regroup(count, trees, rest);
    Be32RoundTrip(|subs|, trees + rest);
  }

  function AllWithin(subs: seq<Tree>, rest: string, left: nat): Load<seq<Tree>> {
    if Costs(subs) <= left then Loaded(AllAsLoaded(subs), rest, left - Costs(subs)) else Failed(EndOfFile)
  }

  /** LoadNode on a saved tree, followed by any bytes: the names and texts come back and the cursor stops exactly
      behind it when the budget covers its bytes without terminators; otherwise the end of the file
      is reported. */
  lemma {:induction false} LoadSaved(t: Tree, rest: string, left: nat)
    requires Storable(t)
    ensures LoadTree(SaveTree(t) + rest, left) == Within(t, rest, left)
    decreases t, 0
  {
    if t.Leaf? {
      LeafSaved(t.name, t.value, rest, left);
    } else {
      if left >= 5 + |t.name| {
        LoadAllSaved(t.subs, rest, left - 5 - |t.name|);
      }
      DirSaved(t.name, t.subs, rest, left);
    }
  }

  lemma {:induction false} LoadAllSaved(subs: seq<Tree>, rest: string, left: nat)
    requires AllStorable(subs)
    ensures LoadTrees(SaveTrees(subs) + rest, left, |subs|) == AllWithin(subs, rest, left)
    decreases subs, 1
  {
    if subs == [] {
      assert SaveTrees(subs) + rest == rest;
    } else {
      var tail := SaveTrees(subs[1..]) + rest;
      Regroup(SaveTree(subs[0]), SaveTrees(subs[1..]), rest);
      LoadSaved(subs[0], tail, left);
      if Cost(subs[0]) <= left {
        LoadAllSaved(subs[1..], rest, left - Cost(subs[0]));
        WithinMore(subs, rest, left);
        Prepends(SaveTrees(subs) + rest, left, |subs|, AsLoaded(subs[0]), tail, left - Cost(subs[0]),
                 AllWithin(subs[1..], rest, left - Cost(subs[0])));
      }
    }
  }

  lemma WithinMore(subs: seq<Tree>, rest: string, left: nat)
    requires subs != [] && Cost(subs[0]) <= left
    ensures AllWithin(subs, rest, left) == Prepended(AsLoaded(subs[0]), AllWithin(subs[1..], rest, left - Cost(subs[0])))
  {}

  function Prepended(t: Tree, r: Load<seq<Tree>>): Load<seq<Tree>> {
    match r
    case Failed(why) => Failed(why)
    case Loaded(ts, rest, left) => Loaded([t] + ts, rest, left)
  }

  lemma Prepends(s: string, left: nat, count: nat, t: Tree, tail: string, left1: nat, r: Load<seq<Tree>>)
    requires count > 0 && LoadTree(s, left) == Loaded(t, tail, left1) && LoadTrees(tail, left1, count - 1) == r
    ensures LoadTrees(s, left, count) == Prepended(t, r)
  {}

  /** The budget never runs out early: it starts as the size of the file. */
  lemma {:induction false} CostWithinSize(t: Tree)
    ensures Cost(t) < |SaveTree(t)|
    decreases t, 0
  {
    if t.Dir? {
      CostsWithinSize(t.subs);
    }
  }

  lemma {:induction false} CostsWithinSize(subs: seq<Tree>)
    ensures Costs(subs) <= |SaveTrees(subs)|
    decreases subs, 1
  {
    if subs != [] {
      CostWithinSize(subs[0]);
      CostsWithinSize(subs[1..]);
    }
  }

  // ---------------------------------------------------------------- saving what was loaded

  lemma {:induction false} StrLenFacts(s: string)
    ensures NUL !in s[..StrLen(s)] && (StrLen(s) < |s| ==> s[StrLen(s)] == NUL)
  {
    if s != "" && s[0] != NUL {
      StrLenFacts(s[1..]);
      assert s[..StrLen(s)] == [s[0]] + s[1..][..StrLen(s[1..])];
    }
  }

  lemma FieldLoaded(s: string, left: nat)
    requires LoadField(s, left).Loaded?
    ensures var r := LoadField(s, left);
            IsField(r.value) && s == Field(r.value) + r.rest && |r.value| <= left && r.left == left - |r.value|
  {
    StrLenFacts(s);
  }

  predicate Bytes(s: string) { forall i :: 0 <= i < |s| ==> s[i] < 256 as char }

  lemma BytesOfRest(s: string, a: string, rest: string)
    requires Bytes(s) && s == a + rest
    ensures Bytes(rest)
  {
    forall i | 0 <= i < |rest| ensures rest[i] < 256 as char {
      assert rest[i] == s[|a| + i];
    }
  }

  lemma Be32Loaded(s: string)
    requires Bytes(s) && |s| >= 4
    ensures FromBe32(s) < 0x1_0000_0000 && s == Be32(FromBe32(s)) + s[4..]
  {
    var a, b, c, d := s[0] as nat, s[1] as nat, s[2] as nat, s[3] as nat;
    Digit(256 * (256 * a + b) + c, d);
    Digit(256 * a + b, c);
    Digit(a, b);
    assert s == [s[0], s[1], s[2], s[3]] + s[4..];
  }

  lemma Digit(q: nat, r: nat)
    requires r < 256
    ensures (256 * q + r) / 256 == q && (256 * q + r) % 256 == r
  {}

  /** A loaded node: storable, saved as the bytes it was read from, charged at its cost. */
  predicate Faithful(r: Load<Tree>, s: string, left: nat) {
    r.Loaded? ==> Storable(r.value) && AsLoaded(r.value) == r.value && s == SaveTree(r.value) + r.rest && left == r.left + Cost(r.value)
  }

  predicate AllFaithful(r: Load<seq<Tree>>, s: string, left: nat, count: nat) {
    r.Loaded? ==> AllStorable(r.value) && AllAsLoaded(r.value) == r.value && |r.value| == count
                  && s == SaveTrees(r.value) + r.rest && left == r.left + Costs(r.value)
  }

  lemma HeaderLoaded(s: string, left: nat)
    requires LoadTree(s, left).Loaded?
    ensures var f := LoadField(s[1..], left - 1);
            f.Loaded? && IsField(f.value) && s == [s[0]] + Field(f.value) + f.rest && left == f.left + 1 + |f.value|
  {
    FieldLoaded(s[1..], left - 1);
    var f := LoadField(s[1..], left - 1);
    assert s == [s[0]] + s[1..];
    Regroup([s[0]], Field(f.value), f.rest);
  }

  lemma LeafLoaded(s: string, left: nat)
    requires LoadTree(s, left).Loaded? && s[0] == KIND_LEAF
    ensures Faithful(LoadTree(s, left), s, left)
  {
    HeaderLoaded(s, left);
    var f := LoadField(s[1..], left - 1);
    FieldLoaded(f.rest, f.left);
    var g := LoadField(f.rest, f.left);
    Regroup([KIND_LEAF] + Field(f.value), Field(g.value), g.rest);
  }

  lemma DirLoaded(s: string, left: nat)
    requires LoadTree(s, left).Loaded? && s[0] == KIND_NODE
    requires var f := LoadField(s[1..], left - 1);
             f.Loaded? && f.left >= 4 && |f.rest| >= 4 && Bytes(f.rest)
             && AllFaithful(LoadTrees(f.rest[4..], f.left - 4, FromBe32(f.rest)), f.rest[4..], f.left - 4, FromBe32(f.rest))
    ensures Faithful(LoadTree(s, left), s, left)
  {
    HeaderLoaded(s, left);
    var f := LoadField(s[1..], left - 1);
    Be32Loaded(f.rest);
    var r := LoadTrees(f.rest[4..], f.left - 4, FromBe32(f.rest));
    var count, trees := Be32(FromBe32(f.rest)), SaveTrees(r.value);
    Regroup(count, trees, r.rest);
    Regroup([KIND_NODE] + Field(f.value), count + trees, r.rest);
  }

  /** What LoadNode accepts is a saved tree, charged at its cost, and nothing else: on buffers of bytes
      the loader and the serializer are inverse to each other. */
  lemma {:induction false} LoadedIsSaved(s: string, left: nat)
    requires Bytes(s)
    ensures Faithful(LoadTree(s, left), s, left)
    decreases |s|, 0, 0
  {
    if LoadTree(s, left).Loaded? {
      if s[0] == KIND_LEAF {
        LeafLoaded(s, left);
      } else {
        HeaderLoaded(s, left);
        var f := LoadField(s[1..], left - 1);
        BytesOfRest(s, [s[0]] + Field(f.value), f.rest);
        BytesOfRest(f.rest, f.rest[..4], f.rest[4..]);
        LoadedAreSaved(f.rest[4..], f.left - 4, FromBe32(f.rest));
        DirLoaded(s, left);
      }
    }
  }

  lemma {:induction false} LoadedAreSaved(s: string, left: nat, count: nat)
    requires Bytes(s)
    ensures AllFaithful(LoadTrees(s, left, count), s, left, count)
    decreases |s|, 1, count
  {
    if count == 0 {
      assert s == "" + s;
    } else if LoadTrees(s, left, count).Loaded? {
      var r := LoadTree(s, left);
      LoadedIsSaved(s, left);
      BytesOfRest(s, SaveTree(r.value), r.rest);
      LoadedAreSaved(r.rest, r.left, count - 1);
      OneMore(s, left, r, LoadTrees(r.rest, r.left, count - 1), count);
    }
  }

  lemma OneMore(s: string, left: nat, r: Load<Tree>, rs: Load<seq<Tree>>, count: nat)
    requires r.Loaded? && rs.Loaded? && count > 0
    requires Faithful(r, s, left) && AllFaithful(rs, r.rest, r.left, count - 1)
    ensures AllFaithful(Loaded([r.value] + rs.value, rs.rest, rs.left), s, left, count)
  {
    var all := [r.value] + rs.value;
    assert all[0] == r.value && all[1..] == rs.value;
    Regroup(SaveTree(r.value), SaveTrees(rs.value), rs.rest);
  }

  // ---------------------------------------------------------------- files

  const SIGNATURE: string := "org.darwinports.filemap" + [NUL]
  const VERSION: string := [0 as char, 1 as char, 0 as char, 0 as char]

  /** The contents of the file that Save writes. */
  function SavedFile(t: Tree): string { SIGNATURE + VERSION + SaveTree(t) }

  datatype FileError = SignatureMismatch | UnknownVersion | BadNode(why: Failure)

  datatype Opened = Opened(t: Tree) | Refused(error: FileError)

  /** Load: an empty file is an empty root. */
  function LoadFile(file: string): Opened {
    if file == "" then Opened(Dir("", []))
    else if |file| < |SIGNATURE| + |VERSION| then Refused(UnknownVersion)
    else if file[..|SIGNATURE|] != SIGNATURE then Refused(SignatureMismatch)
    else if file[|SIGNATURE|..][..|VERSION|] != VERSION then Refused(UnknownVersion)
    else
      var body := file[|SIGNATURE|..][|VERSION|..];
      match LoadTree(body, |body|)
      case Failed(why) => Refused(BadNode(why))
      case Loaded(t, _, _) => Opened(t)
  }

  lemma HeaderPasses(body: string)
    ensures var file := SIGNATURE + VERSION + body;
            LoadFile(file) == match LoadTree(body, |body|)
                              case Failed(why) => Refused(BadNode(why))
                              case Loaded(t, _, _) => Opened(t)
  {
    var file := SIGNATURE + VERSION + body;
    Regroup(SIGNATURE, VERSION, body);
    assert file[..|SIGNATURE|] == SIGNATURE && file[|SIGNATURE|..] == VERSION + body;
    assert (VERSION + body)[..|VERSION|] == VERSION && (VERSION + body)[|VERSION|..] == body;
  }

  /** A filemap survives being closed and opened again, also when bytes follow it in the file. */
  lemma FileRoundTrip(t: Tree, rest: string)
    requires Storable(t)
    ensures LoadFile(SavedFile(t) + rest) == Opened(AsLoaded(t))
  {
    var body := SaveTree(t) + rest;
    CostWithinSize(t);
    LoadSaved(t, rest, |body|);
    HeaderPasses(body);
    Regroup(SIGNATURE + VERSION, SaveTree(t), rest);
  }

  lemma OpenedStartsWithSaved(file: string, t: Tree)
    requires Bytes(file) && file != "" && LoadFile(file) == Opened(t)
    ensures Storable(t) && AsLoaded(t) == t && SavedFile(t) <= file
  {
    var body := file[|SIGNATURE|..][|VERSION|..];
    assert file == SIGNATURE + VERSION + body;
    BytesOfRest(file, SIGNATURE + VERSION, body);
    LoadedIsSaved(body, |body|);
    var r := LoadTree(body, |body|);
    Regroup(SIGNATURE + VERSION, SaveTree(t), r.rest);
  }

  /** A non-empty file of bytes opens as a tree exactly when it starts with the saved form of that tree. */
  lemma OpensExactly(file: string, t: Tree)
    requires Bytes(file) && file != ""
    ensures LoadFile(file) == Opened(t) <==> Storable(t) && AsLoaded(t) == t && SavedFile(t) <= file
  {
    if Storable(t) && AsLoaded(t) == t && SavedFile(t) <= file {
      FileRoundTrip(t, file[|SavedFile(t)|..]);
      assert file == SavedFile(t) + file[|SavedFile(t)|..];
    }
    if LoadFile(file) == Opened(t) {
      OpenedStartsWithSaved(file, t);
    }
  }

  /** A file opens with a leaf as its root exactly when its first node is of that kind. */
  lemma RootIsLeafExactly(file: string)
    requires file != "" && LoadFile(file).Opened?
    ensures |file| > |SIGNATURE| + |VERSION|
    ensures LoadFile(file).t.Leaf? <==> file[|SIGNATURE| + |VERSION|] == KIND_LEAF
  {
    var body := file[|SIGNATURE|..][|VERSION|..];
    assert LoadTree(body, |body|).Loaded?;
    assert body != "" && body[0] == file[|SIGNATURE| + |VERSION|];
  }

  /** Such a file opens. */
  lemma LeafRootOpens(text: string)
    requires |text| < NAME_MAX && NUL !in text
    ensures LoadFile(SIGNATURE + VERSION + ([KIND_LEAF] + Field("") + Field(text))) == Opened(Leaf("", Value(text, false)))
  {
    var t := Leaf("", Value(text, false));
    FileRoundTrip(t, "");
    assert SavedFile(t) + "" == SavedFile(t);
  }

  /** Trees that are saved alike have the same names and texts. */
  lemma SavedFileInjective(t: Tree, u: Tree)
    requires Storable(t) && Storable(u) && SavedFile(t) == SavedFile(u)
    ensures AsLoaded(t) == AsLoaded(u)
  {
    FileRoundTrip(t, "");
    FileRoundTrip(u, "");
    assert SavedFile(t) + "" == SavedFile(t) && SavedFile(u) + "" == SavedFile(u);
  }
}
