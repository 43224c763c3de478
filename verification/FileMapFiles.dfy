/** Saving and loading filemaps: the recursive walks over the nodes in memory, against the storage format. */
module FileMapFiles {

  import opened CStrings
  import opened Wrappers
  import opened Sequences
  import opened FileMap
  import opened FileMapNodes
  import opened FileMapStore

  /** A file open for writing. */
  class Output {
    var written: string

    constructor ()
      ensures written == ""
    {
      written := "";
    }

    method Write(s: string)
      modifies this
      ensures written == old(written) + s
    {
      written := written + s;
    }

    /** SaveNode; not readable when strlen runs on behind a value field. */
    method SaveNode(n: Node) returns (readable: bool)
      requires n.Valid()
      modifies this
      ensures readable == EachValue(n.AsTree(), Readable)
      ensures readable ==> written == old(written) + SaveTree(n.AsTree())
      decreases n.Repr, 1
    {
      Write([if n.isLeaf then KIND_LEAF else KIND_NODE]);
      Write(Field(n.name));
      if n.isLeaf {
        if |n.value| >= NAME_MAX && !n.closed {
          return false;
        }
        Write(Field(n.value));
        Leaves(old(written), n.name, Value(n.value, n.closed));
        readable := true;
      } else {
        Write(Be32(|n.subnodes|));
        readable := SaveSubnodes(n);
        Nodes(old(written), n.name, Be32(|n.subnodes|), SaveTrees(n.subs));
      }
    }

    /** The loop over the subnodes. */
    method SaveSubnodes(n: Node) returns (readable: bool)
      requires n.Valid() && !n.isLeaf
      modifies this
      ensures readable == EachValueIn(n.subs, Readable)
      ensures readable ==> written == old(written) + SaveTrees(n.subs)
      decreases n.Repr, 0
    {
      var i := 0;
      ghost var all := written + SaveTrees(n.subs);
      assert n.subs[0..] == n.subs;
      while i < |n.subnodes|
        invariant i <= |n.subnodes|
        invariant all == written + SaveTrees(n.subs[i..])
        invariant EachValueIn(n.subs, Readable) == EachValueIn(n.subs[i..], Readable)
      {
        var c := n.subnodes[i];
        assert c.Valid() && c.Repr < n.Repr && n.subs[i] == c.AsTree();
        Unfold(n.subs, i);
        Regroup(written, SaveTree(n.subs[i]), SaveTrees(n.subs[i + 1..]));
        readable := SaveNode(c);
        if !readable {
          return;
        }
        i := i + 1;
      }
      assert n.subs[i..] == [];
      readable := true;
    }
  }

  lemma Leaves(before: string, name: string, value: Value)
    ensures before + [KIND_LEAF] + Field(name) + Field(value.text) == before + SaveTree(Leaf(name, value))
  {
    Regroup(before + [KIND_LEAF], Field(name), Field(value.text));
    Regroup(before, [KIND_LEAF], Field(name) + Field(value.text));
    Regroup([KIND_LEAF], Field(name), Field(value.text));
  }

  lemma Nodes(before: string, name: string, count: string, trees: string)
    ensures before + [KIND_NODE] + Field(name) + count + trees == before + ([KIND_NODE] + Field(name) + (count + trees))
  {
    Regroup(before + [KIND_NODE] + Field(name), count, trees);
    Regroup(before + [KIND_NODE], Field(name), count + trees);
    Regroup(before, [KIND_NODE], Field(name) + (count + trees));
    Regroup([KIND_NODE], Field(name), count + trees);
  }

  lemma Unfold(subs: seq<Tree>, i: nat)
    requires i < |subs|
    ensures SaveTrees(subs[i..]) == SaveTree(subs[i]) + SaveTrees(subs[i + 1..])
    ensures EachValueIn(subs[i..], Readable) == (EachValue(subs[i], Readable) && EachValueIn(subs[i + 1..], Readable))
  {
    assert subs[i..][1..] == subs[i + 1..];
  }

  /** The result of a loop over subnodes that has read some and still has count to read. */
  predicate Awaits(all: Load<seq<Tree>>, done: seq<Tree>, s: string, left: nat, count: nat) {
    all == match LoadTrees(s, left, count)
           case Failed(why) => Failed(why)
           case Loaded(ts, rest, l) => Loaded(done + ts, rest, l)
  }

  lemma NoneRead(s: string, left: nat, count: nat)
    ensures Awaits(LoadTrees(s, left, count), [], s, left, count)
  {
    var r := LoadTrees(s, left, count);
    assert r.Loaded? ==> [] + r.value == r.value;
  }

  lemma OneRead(all: Load<seq<Tree>>, done: seq<Tree>, s: string, left: nat, count: nat)
    requires count > 0 && Awaits(all, done, s, left, count)
    ensures var r := LoadTree(s, left);
            if r.Failed? then all == Failed(r.why) else Awaits(all, done + [r.value], r.rest, r.left, count - 1)
  {
    var r := LoadTree(s, left);
    if r.Loaded? {
      var more := LoadTrees(r.rest, r.left, count - 1);
      if more.Loaded? {
        assert done + [r.value] + more.value == done + ([r.value] + more.value);
      }
    }
  }

  lemma AllRead(all: Load<seq<Tree>>, done: seq<Tree>, s: string, left: nat)
    requires Awaits(all, done, s, left, 0)
    ensures all == Loaded(done, s, left)
  {
    assert done + [] == done;
  }

  lemma CountBytes(buf: string, pos: nat)
    requires pos + 4 <= |buf|
    ensures FromBe32(buf[pos..pos + 4]) == FromBe32(buf[pos..]) && buf[pos..][4..] == buf[pos + 4..]
  {}

  /** The buffer that LoadNode walks through, with its cursor and its byte counter. */
  class Input {
    const buf: string
    var pos: nat
    var left: nat

    ghost predicate Valid()
      reads this
    {
      pos <= |buf|
    }

    constructor (buf: string)
      ensures this.buf == buf && pos == 0 && left == |buf| && Valid()
    {
      this.buf := buf;
      pos := 0;
      left := |buf|;
    }

    /** strlen, the two checks, and the copy of a name or a value. */
    method ReadField() returns (failure: Option<Failure>, field: string)
      requires Valid()
      modifies `pos, `left
      ensures Valid() && pos >= old(pos)
      ensures var r := LoadField(buf[old(pos)..], old(left));
              if r.Failed? then failure == Some(r.why)
              else failure == None && field == r.value && buf[pos..] == r.rest && left == r.left && pos > old(pos)
    {
      var n := StrLen(buf[pos..]);
      field := "";
      if n == |buf| - pos {
        return Some(Overrun), "";
      } else if n > NAME_MAX {
        return Some(NameTooLong), "";
      } else if n > left {
        return Some(EndOfFile), "";
      }
      failure, field := None, buf[pos..pos + n];
      assert field == buf[pos..][..n] && buf[pos..][n + 1..] == buf[pos + n + 1..];
      pos, left := pos + n + 1, left - n;
    }

    /** LoadNode. */
    method LoadNode() returns (failure: Option<Failure>, node: Node?)
      requires Valid()
      modifies `pos, `left
      ensures Valid() && pos >= old(pos)
      ensures Agrees(LoadTree(buf[old(pos)..], old(left)), failure, node)
      ensures node != null ==> fresh(node.Repr) && pos > old(pos)
      decreases |buf| - pos, 0
    {
      node := null;
      if left == 0 {
        return Some(EndOfFile), null;
      } else if pos == |buf| {
        return Some(Overrun), null;
      }
      var kind := buf[pos];
      assert buf[pos..][0] == kind && buf[pos..][1..] == buf[pos + 1..];
      pos, left := pos + 1, left - 1;
      if kind != KIND_LEAF && kind != KIND_NODE {
        return Some(UnknownKind), null;
      }
      var name: string;
      failure, name := ReadField();
      if failure.Some? {
        return failure, null;
      }
      if kind == KIND_LEAF {
        failure, node := ReadLeaf(name);
      } else {
        failure, node := ReadDir(name);
      }
    }

    ghost predicate Agrees(r: Load<Tree>, failure: Option<Failure>, node: Node?)
      reads this, node, if node != null then node.Repr else {}
    {
      Valid()
      && match r
         case Failed(why) => failure == Some(why) && node == null
         case Loaded(t, rest, l) =>
           failure == None && node != null && node.Valid() && node.AsTree() == t && buf[pos..] == rest && left == l
    }

    method ReadLeaf(name: string) returns (failure: Option<Failure>, node: Node?)
      requires Valid()
      modifies `pos, `left
      ensures Valid() && pos >= old(pos)
      ensures Agrees(LoadLeaf(name, buf[old(pos)..], old(left)), failure, node)
      ensures node != null ==> fresh(node.Repr)
    {
      node := null;
      var value: string;
      failure, value := ReadField();
      if failure.None? {
        node := new Node.NewLeaf(name, value, |value| == NAME_MAX);
      }
    }

    method ReadDir(name: string) returns (failure: Option<Failure>, node: Node?)
      requires Valid()
      modifies `pos, `left
      ensures Valid() && pos >= old(pos)
      ensures Agrees(LoadDir(name, buf[old(pos)..], old(left)), failure, node)
      ensures node != null ==> fresh(node.Repr)
      decreases |buf| - pos, 2
    {
      node := null;
      if left < 4 {
        return Some(EndOfFile), null;
      } else if |buf| - pos < 4 {
        return Some(Overrun), null;
      }
      var count := FromBe32(buf[pos..pos + 4]);
      CountBytes(buf, pos);
      pos, left := pos + 4, left - 4;
      var dir := new Node.NewDir(name);
      failure := ReadSubnodes(dir, count);
      if failure.None? {
        node := dir;
      }
    }

    /** The loop that reads the subnodes into a new directory. */
    method ReadSubnodes(dir: Node, count: nat) returns (failure: Option<Failure>)
      requires Valid() && dir.Valid() && !dir.isLeaf && dir.subs == []
      modifies `pos, `left, dir
      ensures Valid() && pos >= old(pos)
      ensures match LoadTrees(buf[old(pos)..], old(left), count)
              case Failed(why) => failure == Some(why)
              case Loaded(ts, rest, l) => failure == None && dir.Valid() && dir.subs == ts && buf[pos..] == rest && left == l
      ensures fresh(dir.Repr - old(dir.Repr))
      decreases |buf| - pos, 1
    {
      var i := 0;
      ghost var all := LoadTrees(buf[pos..], left, count);
      NoneRead(buf[pos..], left, count);
      while i < count
        invariant Valid() && pos >= old(pos) && i <= count
        invariant dir.Valid() && fresh(dir.Repr - old(dir.Repr))
        invariant Awaits(all, dir.subs, buf[pos..], left, count - i)
      {
        var c: Node?;
        OneRead(all, dir.subs, buf[pos..], left, count - i);
        failure, c := LoadNode();
        if failure.Some? {
          return;
        }
        dir.Append(c);
        i := i + 1;
      }
      AllRead(all, dir.subs, buf[pos..], left);
      failure := None;
    }
  }

  // ---------------------------------------------------------------- whole files

  /** Save: the contents of the file that replaces the old one; none when a value is read behind its field. */
  method Save(root: Node) returns (file: Option<string>)
    requires root.Valid()
    ensures file == if EachValue(root.AsTree(), Readable) then Some(SavedFile(root.AsTree())) else None
  {
    var out := new Output();
    out.Write(SIGNATURE);
    out.Write(VERSION);
    assert out.written == SIGNATURE + VERSION;
    var readable := out.SaveNode(root);
    file := if readable then Some(out.written) else None;
  }

  /** Load, given what the file holds. */
  method Load(file: string) returns (error: Option<FileError>, root: Node?)
    ensures match LoadFile(file)
            case Refused(e) => error == Some(e) && root == null
            case Opened(t) => error == None && root != null && root.Valid() && root.AsTree() == t && fresh(root.Repr)
  {
    error, root := None, null;
    if file == "" {
      root := new Node.NewDir("");
    } else if |file| < |SIGNATURE| + |VERSION| {
      error := Some(UnknownVersion);
    } else if file[..|SIGNATURE|] != SIGNATURE {
      error := Some(SignatureMismatch);
    } else if file[|SIGNATURE|..][..|VERSION|] != VERSION {
      error := Some(UnknownVersion);
    } else {
      var input := new Input(file[|SIGNATURE|..][|VERSION|..]);
      assert input.buf[0..] == input.buf;
      var failure;
      failure, root := input.LoadNode();
      if failure.Some? {
        error := Some(BadNode(failure.value));
      }
    }
  }

  /** Close and open: what was saved is loaded into new nodes. */
  method Reopen(root: Node) returns (reopened: Node)
    requires root.Valid() && Storable(root.AsTree())
    ensures reopened.Valid() && reopened.AsTree() == AsLoaded(root.AsTree()) && fresh(reopened.Repr)
  {
    ghost var t := root.AsTree();
    StorableIsReadable(t);
    FileRoundTrip(t, "");
    assert SavedFile(t) + "" == SavedFile(t);
    var file := Save(root);
    var error, loaded := Load(file.value);
    assert loaded != null && loaded.AsTree() == AsLoaded(t);
    reopened := loaded;
  }

  lemma {:induction false} StorableIsReadable(t: Tree)
    requires Storable(t)
    ensures EachValue(t, Readable)
    decreases t, 0
  {
    if t.Dir? {
      StorableAreReadable(t.subs);
    }
  }

  lemma {:induction false} StorableAreReadable(subs: seq<Tree>)
    requires AllStorable(subs)
    ensures EachValueIn(subs, Readable)
    decreases subs, 1
  {
    if subs != [] {
      StorableIsReadable(subs[0]);
      StorableAreReadable(subs[1..]);
    }
  }
}
