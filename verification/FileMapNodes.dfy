/** The filemap tree in memory: nodes that Set and Delete change in place.

    Each method carries out on the nodes what the operation of the same name does on values. */
module FileMapNodes {

  import opened Wrappers
  import opened T = FileMap

  /** SHeader with SNode or SLeaf behind it. */
  class Node {
    const isLeaf: bool
    const name: string
    var value: string
    var closed: bool
    var subnodes: seq<Node>

    /** The nodes of this subtree, and the trees its children form. */
    ghost var Repr: set<Node>
    ghost var subs: seq<Tree>

    ghost function AsTree(): Tree
      reads this
    {
      if isLeaf then Leaf(name, Value(value, closed)) else Dir(name, subs)
    }

    /** All of Valid but for child k, when there is a k. */
    ghost predicate ValidBut(k: int)
      reads this, Repr
      decreases Repr, 0
    {
      && this in Repr && |subs| == |subnodes|
      && (forall i :: 0 <= i < |subnodes| && i != k ==>
            subnodes[i] in Repr && this !in subnodes[i].Repr && subnodes[i].Repr <= Repr && subnodes[i].Valid()
            && subs[i] == subnodes[i].AsTree())
      && (forall i, j :: 0 <= i < |subnodes| && 0 <= j < |subnodes| && i != j && i != k && j != k ==>
            subnodes[i].Repr !! subnodes[j].Repr)
    }

    ghost predicate Valid()
      reads this, Repr
      ensures Valid() ==> this in Repr
      decreases Repr, 1
    {
      ValidBut(-1) && (isLeaf ==> subnodes == [])
    }

    constructor NewLeaf(name: string, value: string, closed: bool)
      ensures Valid() && Repr == {this} && AsTree() == Leaf(name, Value(value, closed)) && fresh(Repr)
    {
      isLeaf := true;
      this.name := name;
      this.value := value;
      this.closed := closed;
      subnodes := [];
      Repr := {this};
      subs := [];
    }

    /** An empty directory; Create makes the root with an empty name. */
    constructor NewDir(name: string)
      ensures Valid() && Repr == {this} && AsTree() == Dir(name, []) && fresh(Repr)
    {
      isLeaf := false;
      this.name := name;
      value := "";
      closed := false;
      subnodes := [];
      Repr := {this};
      subs := [];
    }

    /** The loop over the siblings. */
    method Find(part: string) returns (i: nat)
      requires Valid()
      ensures i == Search(subs, part) <= |subnodes| == |subs|
      ensures i < |subnodes| ==> subnodes[i].AsTree() == subs[i]
    {
      i := 0;
      assert subs[0..] == subs;
      while i < |subnodes|
        invariant i <= |subnodes|
        invariant Search(subs, part) == i + Search(subs[i..], part)
      {
        assert subnodes[i].Valid() && subs[i] == subnodes[i].AsTree();
        assert subs[i..][0] == subs[i] && subs[i..][1..] == subs[i + 1..];
        if Cmp(subnodes[i].name, part) >= 0 {
          return;
        }
        i := i + 1;
      }
    }

    /** realloc, memmove and the store of a new child. */
    method InsertAt(i: nat, c: Node)
      requires Valid() && !isLeaf && i <= |subnodes| && c.Valid() && c.Repr !! Repr
      modifies this
      ensures Valid() && Repr == old(Repr) + c.Repr
      ensures i <= |old(subs)| && subs == Inserted(old(subs), i, c.AsTree())
    {
      subnodes := subnodes[..i] + [c] + subnodes[i..];
      Repr := Repr + c.Repr;
      subs := Inserted(subs, i, c.AsTree());
    }

    /** A loaded child, stored behind the others. */
    method Append(c: Node)
      requires Valid() && !isLeaf && c.Valid() && c.Repr !! Repr
      modifies this
      ensures Valid() && Repr == old(Repr) + c.Repr && subs == old(subs) + [c.AsTree()]
    {
      assert Inserted(subs, |subs|, c.AsTree()) == subs + [c.AsTree()];
      InsertAt(|subnodes|, c);
    }

    /** The memmove of Delete. */
    method RemoveAt(i: nat)
      requires ValidBut(i) && !isLeaf && i < |subnodes|
      modifies this
      ensures Valid() && Repr == old(Repr)
      ensures i < |old(subs)| && subs == Removed(old(subs), i)
    {
      subnodes := subnodes[..i] + subnodes[i + 1..];
      subs := Removed(subs, i);
    }

    /** Takes note of what happened below child k. */
    ghost method Refresh(k: nat)
      requires ValidBut(k) && !isLeaf && k < |subnodes|
      requires subnodes[k].Valid() && this !in subnodes[k].Repr
      requires forall j :: 0 <= j < |subnodes| && j != k ==> subnodes[j].Repr !! subnodes[k].Repr
      modifies `Repr, `subs
      ensures Valid() && Repr == old(Repr) + subnodes[k].Repr
      ensures k < |old(subs)| && subs == old(subs)[k := subnodes[k].AsTree()]
    {
      Repr := Repr + subnodes[k].Repr;
      subs := subs[k := subnodes[k].AsTree()];
    }

    /** strncpy into the value field; its last byte stays as it is. */
    method Store(v: string)
      requires Valid() && isLeaf
      modifies `value
      ensures Valid() && AsTree() == Leaf(name, Value(v, closed))
    {
      value := v;
    }

    /** Set on a directory node. */
    method Set(path: string, v: string) returns (err: Err)
      requires Valid() && !isLeaf && ShortParts(path)
      modifies Repr
      ensures Valid() && fresh(Repr - old(Repr))
      ensures (subs, err) == T.Set(old(subs), path, v)
      decreases |path|, 0
    {
      var p := NextPart(path);
      if p.NoPart? {
        err := IsDirectory;
      } else if p.FilePart? {
        err := SetFile(p.name, v);
      } else {
        var i := Find(p.name);
        if !(i < |subnodes| && Cmp(subnodes[i].name, p.name) == 0) {
          var c := new Node.NewDir(p.name);
          InsertAt(i, c);
          err := SetBelow(i, p.rest, v);
          InsertedThenSet(old(subs), i, p.name, T.Set([], p.rest, v).0);
        } else if subnodes[i].isLeaf {
          err := NotDirectory;
        } else {
          err := SetBelow(i, p.rest, v);
        }
      }
    }

    /** The last component names a file. */
    method SetFile(part: string, v: string) returns (err: Err)
      requires Valid() && !isLeaf && IsField(part)
      modifies Repr
      ensures Valid() && fresh(Repr - old(Repr))
      ensures var i := Search(old(subs), part);
              if !Hit(old(subs), i, part) then err == Ok && subs == Inserted(old(subs), i, Leaf(part, Stored(true, v)))
              else if old(subs)[i].Leaf? then
                err == Ok && subs == old(subs)[i := Leaf(old(subs)[i].name, Stored(old(subs)[i].value.closed, v))]
              else err == IsDirectory && subs == old(subs)
    {
      var i := Find(part);
      if !(i < |subnodes| && Cmp(subnodes[i].name, part) == 0) {
        var c := new Node.NewLeaf(part, Cut(v), true);
        InsertAt(i, c);
        err := Ok;
      } else if subnodes[i].isLeaf {
        subnodes[i].Store(Cut(v));
        Refresh(i);
        err := Ok;
      } else {
        err := IsDirectory;
      }
    }

    /** The recursive call on a child directory. */
    method SetBelow(i: nat, rest: string, v: string) returns (err: Err)
      requires Valid() && !isLeaf && i < |subnodes| == |subs| && subs[i].Dir? && ShortParts(rest)
      modifies Repr
      ensures Valid() && fresh(Repr - old(Repr))
      ensures i < |old(subs)| && var (below, e) := T.Set(old(subs)[i].subs, rest, v);
              err == e && subs == old(subs)[i := Dir(old(subs)[i].name, below)]
      decreases |rest|, 1
    {
      var c := subnodes[i];
      assert c.AsTree() == subs[i] && this !in c.Repr;
      assert forall j :: 0 <= j < |subnodes| && j != i ==> subnodes[j].Valid() && subnodes[j].Repr !! c.Repr && subnodes[j] in subnodes[j].Repr;
      err := c.Set(rest, v);
      forall j | 0 <= j < |subnodes| && j != i
        ensures subnodes[j].Valid() && subnodes[j].Repr == old(subnodes[j].Repr) && subnodes[j].AsTree() == old(subnodes[j].AsTree())
      {
        assert subnodes[j] !in old(c.Repr);
      }
      Refresh(i);
    }

    /** Delete on a directory node. */
    method Delete(path: string) returns (err: Err)
      requires Valid() && !isLeaf && Deletable(subs, path)
      modifies Repr
      ensures Valid() && Repr <= old(Repr)
      ensures (subs, err) == T.Delete(old(subs), path)
      decreases |path|, 0
    {
      var p := NextPart(path);
      if p.NoPart? {
        return IsDirectory;
      }
      var i := Find(p.name);
      if !(i < |subnodes| && Cmp(subnodes[i].name, p.name) == 0) {
        return KeyNotFound;
      }
      if p.DirPart? {
        err := DeleteBelow(i, p.rest);
      } else {
        RemoveAt(i);
        err := Ok;
      }
    }

    /** The recursive call on a child directory, and the pruning. */
    method DeleteBelow(i: nat, rest: string) returns (err: Err)
      requires Valid() && !isLeaf && i < |subnodes| == |subs| && subs[i].Dir? && Deletable(subs[i].subs, rest)
      modifies Repr
      ensures Valid() && Repr <= old(Repr)
      ensures i < |old(subs)| && var (below, e) := T.Delete(old(subs)[i].subs, rest);
              err == e && subs == if below == [] then Removed(old(subs), i) else old(subs)[i := Dir(old(subs)[i].name, below)]
      decreases |rest|, 1
    {
      var c := subnodes[i];
      assert c.AsTree() == subs[i] && this !in c.Repr;
      assert forall j :: 0 <= j < |subnodes| && j != i ==> subnodes[j].Valid() && subnodes[j].Repr !! c.Repr && subnodes[j] in subnodes[j].Repr;
      err := c.Delete(rest);
      forall j | 0 <= j < |subnodes| && j != i
        ensures subnodes[j].Valid() && subnodes[j].Repr == old(subnodes[j].Repr) && subnodes[j].AsTree() == old(subnodes[j].AsTree())
      {
        assert subnodes[j] !in old(c.Repr);
      }
      if |c.subnodes| == 0 {
        RemoveAt(i);
      } else {
        Refresh(i);
      }
    }

    /** Get on a directory node. */
    method Get(path: string) returns (v: Option<Value>)
      requires Valid() && !isLeaf
      ensures v == T.Get(subs, path)
      decreases |path|
    {
      var p := NextPart(path);
      if p.NoPart? {
        return None;
      }
      var i := Find(p.name);
      if !(i < |subnodes| && Cmp(subnodes[i].name, p.name) == 0) {
        return None;
      }
      var c := subnodes[i];
      if p.DirPart? {
        if c.isLeaf {
          return None;
        }
        v := c.Get(p.rest);
      } else {
        v := if c.isLeaf then Some(Value(c.value, c.closed)) else None;
      }
    }
  }

  lemma InsertedThenSet(subs: seq<Tree>, i: nat, name: string, below: seq<Tree>)
    requires i <= |subs|
    ensures Inserted(subs, i, Dir(name, []))[i] == Dir(name, [])
    ensures Inserted(subs, i, Dir(name, []))[i := Dir(name, below)] == Inserted(subs, i, Dir(name, below))
  {}
}
