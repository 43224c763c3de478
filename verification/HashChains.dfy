/** The chains of the hash map in memory: entries linked through their next pointers, and the relinking that put,
    remove and the resize do.  Each method is what its contract says on the buckets of HashBuckets. */
module HashChains {

  import opened HashBuckets

  /** A HashMapEntry. */
  class Node {
    const key: Key
    const hash: nat
    var value: Value
    var next: Node?

    constructor (key: Key, value: Value, hash: nat)
      ensures this.key == key && this.value == value && this.hash == hash
    {
      this.key := key;
      this.value := value;
      this.hash := hash;
      next := null;
    }

    function AsEntry(): Entry
      reads this
    {
      Entry(key, value, hash)
    }
  }

  // ---------------------------------------------------------------- one chain

  function NodeAt(ns: seq<Node>, k: nat): Node? { if k < |ns| then ns[k] else null }

  /** From the head on, each node points to the next one, and the last one to none. */
  ghost predicate IsChain(head: Node?, ns: seq<Node>, b: Bucket)
    reads ns
  {
    |b| == |ns| && head == NodeAt(ns, 0)
    && forall k :: 0 <= k < |ns| ==> ns[k].next == NodeAt(ns, k + 1) && ns[k].AsEntry() == b[k]
  }

  /** A chain that ends visits no node twice. */
  lemma {:induction false} NoRepeat(head: Node?, ns: seq<Node>, b: Bucket, k: nat, l: nat)
    requires IsChain(head, ns, b) && k < l < |ns|
    ensures ns[k] != ns[l]
    decreases |ns| - l
  {
    assert ns[k].next == ns[k + 1] && ns[l].next == NodeAt(ns, l + 1);
    if l + 1 < |ns| {
      NoRepeat(head, ns, b, k + 1, l + 1);
    }
  }

  lemma OnlyAt(head: Node?, ns: seq<Node>, b: Bucket, k: nat)
    requires IsChain(head, ns, b) && k < |ns|
    ensures forall j :: 0 <= j < |ns| && j != k ==> ns[j] != ns[k]
  {
    forall j | 0 <= j < |ns| && j != k ensures ns[j] != ns[k] {
      NoRepeat(head, ns, b, if j < k then j else k, if j < k then k else j);
    }
  }

  lemma Rest(head: Node?, ns: seq<Node>, b: Bucket)
    requires IsChain(head, ns, b) && head != null
    ensures ns != [] && b != [] && head == ns[0] && head !in ns[1..] && IsChain(head.next, ns[1..], b[1..]) && b[0] == head.AsEntry()
  {
    OnlyAt(head, ns, b, 0);
    assert ns[0].next == NodeAt(ns, 1);
    forall k | 0 <= k < |ns| - 1
      ensures ns[1..][k].next == NodeAt(ns[1..], k + 1) && ns[1..][k].AsEntry() == b[1..][k]
    {
      assert ns[1..][k] == ns[k + 1];
    }
  }

  /** A node in front of a chain. */
  lemma Longer(e: Node, ns: seq<Node>, b: Bucket)
    requires IsChain(e.next, ns, b)
    ensures IsChain(e, [e] + ns, [e.AsEntry()] + b)
  {
    var ms := [e] + ns;
    forall k | 0 <= k < |ms| ensures ms[k].next == NodeAt(ms, k + 1) && ms[k].AsEntry() == ([e.AsEntry()] + b)[k] {
      if k > 0 {
        assert ms[k] == ns[k - 1] && NodeAt(ms, k + 1) == NodeAt(ns, k);
      }
    }
  }

  /** All of a chain but the link to node k, which skips it. */
  ghost predicate Skips(head: Node?, ns: seq<Node>, b: Bucket, k: nat)
    reads ns
  {
    k < |ns| == |b| && head == NodeAt(ns, if k == 0 then 1 else 0)
    && forall j :: 0 <= j < |ns| && j != k ==>
         ns[j].next == NodeAt(ns, if j + 1 == k then k + 1 else j + 1) && ns[j].AsEntry() == b[j]
  }

  lemma FirstIsItself(head: Node?, ns: seq<Node>, b: Bucket, prev: Node, k: nat)
    requires IsChain(head, ns, b) && k < |ns| && prev == ns[if k == 0 then 0 else k - 1]
    ensures prev == ns[k] <==> k == 0
  {
    if k > 0 {
      NoRepeat(head, ns, b, k - 1, k);
    }
  }

  lemma AmongThem(ns: seq<Node>, k: nat)
    requires k < |ns|
    ensures forall n: Node :: n in ns[..k] + ns[k + 1..] ==> n in ns
  {}

  lemma Shorter(head: Node?, ns: seq<Node>, b: Bucket, k: nat)
    requires Skips(head, ns, b, k)
    ensures IsChain(head, ns[..k] + ns[k + 1..], Without(b, k))
  {
    var ms := ns[..k] + ns[k + 1..];
    forall j | 0 <= j < |ms| ensures ms[j].next == NodeAt(ms, j + 1) && ms[j].AsEntry() == Without(b, k)[j] {
      var i := if j < k then j else j + 1;
      assert ms[j] == ns[i] && Without(b, k)[j] == b[i];
    }
  }

  /** None of the first k entries is a hit. */
  predicate Passed(b: Bucket, key: Key, hash: nat, k: nat) {
    k <= |b| && forall j :: 0 <= j < k ==> !(b[j].hash == hash && b[j].key == key)
  }

  /** The hit is node k, behind prev, which is the hit itself when that is the first node. */
  predicate IsFound(ns: seq<Node>, key: Key, hash: nat, prev: Node?, e: Node?, k: nat) {
    k <= |ns| && e == NodeAt(ns, k)
    && (e != null ==> e.key == key && e.hash == hash && prev == ns[if k == 0 then 0 else k - 1])
  }

  /** The loop over a chain that looks for a key. */
  method FindIn(head: Node?, ghost ns: seq<Node>, ghost b: Bucket, key: Key, hash: nat)
    returns (prev: Node?, e: Node?, ghost k: nat)
    requires IsChain(head, ns, b)
    ensures IsFound(ns, key, hash, prev, e, k) && Passed(b, key, hash, k)
  {
    prev := head;
    e, k := prev, 0;
    while e != null
      invariant k <= |ns| && e == NodeAt(ns, k) && (k < |ns| ==> prev == ns[if k == 0 then 0 else k - 1])
      invariant Passed(b, key, hash, k)
      decreases |ns| - k
    {
      assert ns[k].AsEntry() == b[k] && ns[k].next == NodeAt(ns, k + 1);
      if e.hash == hash && e.key == key {
        return;
      }
      prev, e, k := e, e.next, k + 1;
    }
  }

  // ---------------------------------------------------------------- the table

  /** The array of the heads. */
  class Chains {
    const heads: array<Node?>

    /** The nodes of each chain, the buckets they stand for, and all memory of the table. */
    ghost var nodes: seq<seq<Node>>
    ghost var buckets: seq<Bucket>
    ghost var Repr: set<object>

    ghost predicate Shaped()
      reads this
    {
      this in Repr && heads in Repr && heads.Length == |nodes| == |buckets| > 0
    }

    /** The nodes are where their hashes put them, so chains share none. */
    ghost predicate ChainAt(i: nat)
      requires Shaped() && i < heads.Length
      reads this, Repr
    {
      (forall n: Node :: n in nodes[i] ==> n in Repr && n.hash % heads.Length == i) && IsChain(heads[i], nodes[i], buckets[i])
    }

    ghost predicate Valid()
      reads this, Repr
    {
      Shaped() && forall i :: 0 <= i < heads.Length ==> ChainAt(i)
    }

    /** calloc: all chains are empty. */
    constructor (n: nat)
      requires n > 0
      ensures Valid() && fresh(Repr) && heads.Length == n && buckets == seq(n, i => [])
    {
      heads := new Node?[n](_ => null);
      nodes := seq(n, i => []);
      buckets := seq(n, i => []);
      new;
      Repr := {this, heads};
    }

    /** The loop over the chain of an index. */
    method Find(index: nat, key: Key, hash: nat) returns (prev: Node?, e: Node?, ghost k: nat)
      requires Valid() && index < heads.Length
      ensures k <= |nodes[index]| == |buckets[index]| && IsFound(nodes[index], key, hash, prev, e, k)
      ensures Passed(buckets[index], key, hash, k)
    {
      assert ChainAt(index);
      prev, e, k := FindIn(heads[index], nodes[index], buckets[index], key, hash);
    }

    /** e->value = value. */
    method SetValue(e: Node, value: Value, ghost index: nat, ghost k: nat)
      requires Valid() && index < heads.Length && k < |nodes[index]| && e == nodes[index][k]
      modifies this, e
      ensures Valid() && nodes == old(nodes) && Repr == old(Repr)
      ensures k < |old(buckets)[index]| && buckets == old(buckets)[index := Replaced(old(buckets)[index], k, value)]
    {
      assert ChainAt(index);
      ghost var ns := nodes[index];
      OnlyAt(heads[index], ns, buckets[index], k);
      e.value := value;
      buckets := buckets[index := Replaced(buckets[index], k, value)];
      forall i | 0 <= i < heads.Length ensures ChainAt(i) {
        if i != index {
          assert old(ChainAt(i));
        }
      }
    }

    /** map->table[index] = head, where head starts a chain of nodes of this index. */
    method SetHead(index: nat, head: Node?, ghost ns: seq<Node>, ghost b: Bucket)
      requires Valid() && index < heads.Length && IsChain(head, ns, b)
      requires forall n: Node :: n in ns ==> n in Repr && n.hash % heads.Length == index
      modifies this, heads
      ensures Valid() && Repr == old(Repr) && buckets == old(buckets)[index := b]
    {
      heads[index] := head;
      forall i | 0 <= i < heads.Length && i != index ensures ChainAt(i) {
        assert old(ChainAt(i));
      }
      Refresh(index, ns, b);
    }

    /** e->next = table[index]; table[index] = e. */
    method LinkHead(index: nat, e: Node)
      requires Valid() && index < heads.Length && e.hash % heads.Length == index && e !in Repr
      modifies this, heads, e
      ensures Valid() && Repr == old(Repr) + {e} && e.value == old(e.value)
      ensures index < |old(buckets)| && buckets == old(buckets)[index := [old(e.AsEntry())] + old(buckets)[index]]
    {
      assert ChainAt(index);
      e.next := heads[index];
      Repr := Repr + {e};
      forall i | 0 <= i < heads.Length ensures ChainAt(i) {
        assert old(ChainAt(i));
      }
      Longer(e, nodes[index], buckets[index]);
      SetHead(index, e, [e] + nodes[index], [e.AsEntry()] + buckets[index]);
    }

    /** table[index] = NULL. */
    method ClearAt(index: nat)
      requires Valid() && index < heads.Length
      modifies this, heads
      ensures Valid() && Repr == old(Repr) && buckets == old(buckets)[index := []]
    {
      SetHead(index, null, [], []);
    }

    /** table[index] = next, for the next of the first entry. */
    method UnlinkFirst(index: nat, e: Node)
      requires Valid() && index < heads.Length && e == heads[index]
      modifies this, heads
      ensures Valid() && Repr == old(Repr)
      ensures 0 < |old(buckets)[index]| && buckets == old(buckets)[index := Without(old(buckets)[index], 0)]
    {
      assert ChainAt(index);
      ghost var ns, b := nodes[index], buckets[index];
      Rest(e, ns, b);
      assert Without(b, 0) == b[1..];
      SetHead(index, e.next, ns[1..], b[1..]);
    }

    /** All chains but one. */
    ghost predicate OthersAt(index: nat)
      requires Shaped()
      reads this, Repr
    {
      forall i :: 0 <= i < heads.Length && i != index ==> ChainAt(i)
    }

    /** prev->next = next, for the next of the entry behind prev. */
    method SkipBehind(prev: Node, e: Node, ghost index: nat, ghost k: nat)
      requires Valid() && index < heads.Length && 0 < k < |nodes[index]| && prev == nodes[index][k - 1] && e == nodes[index][k]
      modifies prev
      ensures Shaped() && OthersAt(index) && Skips(heads[index], nodes[index], buckets[index], k)
    {
      assert ChainAt(index);
      OnlyAt(heads[index], nodes[index], buckets[index], k - 1);
      assert e.next == NodeAt(nodes[index], k + 1);
      prev.next := e.next;
      forall i | 0 <= i < heads.Length && i != index ensures ChainAt(i) {
        assert old(ChainAt(i));
      }
    }

    /** Takes note of a chain that changed. */
    ghost method Refresh(index: nat, ns: seq<Node>, b: Bucket)
      requires Shaped() && index < heads.Length && OthersAt(index) && IsChain(heads[index], ns, b)
      requires forall n: Node :: n in ns ==> n in Repr && n.hash % heads.Length == index
      modifies `nodes, `buckets
      ensures Valid() && buckets == old(buckets)[index := b]
    {
      nodes := nodes[index := ns];
      buckets := buckets[index := b];
      forall i | 0 <= i < heads.Length ensures ChainAt(i) {
        if i != index {
          assert old(ChainAt(i));
        }
      }
    }

    method UnlinkBehind(prev: Node, e: Node, ghost index: nat, ghost k: nat)
      requires Valid() && index < heads.Length && 0 < k < |nodes[index]| && prev == nodes[index][k - 1] && e == nodes[index][k]
      modifies this, prev
      ensures Valid() && Repr == old(Repr)
      ensures k < |old(buckets)[index]| && buckets == old(buckets)[index := Without(old(buckets)[index], k)]
    {
      assert ChainAt(index);
      ghost var ns, b := nodes[index], buckets[index];
      SkipBehind(prev, e, index, k);
      Shorter(heads[index], ns, b, k);
      AmongThem(ns, k);
      Refresh(index, ns[..k] + ns[k + 1..], Without(b, k));
    }

    /** The entry e behind prev, or the first one, is taken out of its chain. */
    method Unlink(index: nat, prev: Node, e: Node, ghost k: nat)
      requires Valid() && index < heads.Length && k < |nodes[index]| && e == nodes[index][k]
      requires prev == nodes[index][if k == 0 then 0 else k - 1]
      modifies this, heads, prev
      ensures Valid() && Repr == old(Repr)
      ensures k < |old(buckets)[index]| && buckets == old(buckets)[index := Without(old(buckets)[index], k)]
    {
      assert ChainAt(index);
      FirstIsItself(heads[index], nodes[index], buckets[index], prev, k);
      if prev == e {
        UnlinkFirst(index, e);
        return;
      }
      UnlinkBehind(prev, e, index, k);
    }
  }

  // ---------------------------------------------------------------- the resize

  ghost function Objects(ns: seq<Node>): set<object> { set n | n in ns }

  /** The inner loop: each entry of a chain goes to the head of its chain in the new table. */
  method MoveChain(into: Chains, head: Node?, ghost ns: seq<Node>, ghost b: Bucket)
    requires into.Valid() && PowerOfTwo(into.heads.Length) && IsChain(head, ns, b) && Objects(ns) !! into.Repr
    modifies into, into.heads, ns
    ensures into.Valid() && into.buckets == MovedInto(old(into.buckets), b)
    ensures into.Repr <= old(into.Repr) + Objects(ns)
  {
    var e := head;
    ghost var rest, left := ns, b;
    while e != null
      invariant into.Valid() && IsChain(e, rest, left) && Objects(rest) !! into.Repr && Objects(rest) <= Objects(ns)
      invariant into.Repr <= old(into.Repr) + Objects(ns)
      invariant MovedInto(into.buckets, left) == MovedInto(old(into.buckets), b)
      decreases |rest|
    {
      Rest(e, rest, left);
      RestOf(rest);
      var next := e.next;
      var index := IndexFor(e.hash, into.heads.Length);
      into.LinkHead(index, e);
      e, rest, left := next, rest[1..], left[1..];
    }
  }

  lemma RestOf(ns: seq<Node>)
    requires ns != []
    ensures Objects(ns) == {ns[0]} + Objects(ns[1..])
  {
    assert ns == [ns[0]] + ns[1..];
  }

  /** The chains from i on are as they were, and none of their nodes is in the new table. */
  ghost predicate Waiting(from: Chains, into: Chains, i: nat)
    requires from.Shaped()
    reads from, from.Repr, into
  {
    forall k :: i <= k < from.heads.Length ==> from.ChainAt(k) && Objects(from.nodes[k]) !! into.Repr
  }

  ghost predicate Resizing(from: Chains, into: Chains, i: nat)
    reads from, from.Repr, into, into.Repr
  {
    from.Shaped() && into.Valid() && PowerOfTwo(into.heads.Length) && Waiting(from, into, i)
    && from !in into.Repr && from.heads !in into.Repr && into !in from.Repr && into.heads !in from.Repr
  }

  method MoveAt(from: Chains, into: Chains, i: nat)
    requires Resizing(from, into, i) && i < from.heads.Length
    modifies into, into.heads, from.Repr - {from, from.heads}
    ensures Resizing(from, into, i + 1) && into.Repr <= old(into.Repr) + from.Repr
    ensures into.buckets == MovedInto(old(into.buckets), old(from.buckets)[i])
  {
    assert from.ChainAt(i);
    MoveChain(into, from.heads[i], from.nodes[i], from.buckets[i]);
    forall k | i + 1 <= k < from.heads.Length ensures from.ChainAt(k) && Objects(from.nodes[k]) !! into.Repr {
      assert old(from.ChainAt(k));
    }
  }

  /** The outer loop. */
  method MoveAll(from: Chains, into: Chains)
    requires from.Valid() && into.Valid() && PowerOfTwo(into.heads.Length) && from.Repr !! into.Repr
    modifies into, into.heads, from.Repr
    ensures into.Valid() && into.Repr <= old(into.Repr + from.Repr)
    ensures into.buckets == AllMovedInto(old(into.buckets), old(from.buckets), |old(from.buckets)|)
  {
    ghost var t, n, repr := from.buckets, into.buckets, from.Repr;
    var i := 0;
    while i < from.heads.Length
      invariant i <= from.heads.Length && Resizing(from, into, i)
      invariant from.buckets == t && from.Repr == repr && into.Repr <= old(into.Repr) + repr
      invariant into.buckets == AllMovedInto(n, t, i)
    {
      MoveAt(from, into, i);
      i := i + 1;
    }
  }
}
