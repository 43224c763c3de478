/** The chained, resizing hash map of machista1.0/hashmap.c, with the ownership of its values. */
module HashMap {

  import opened Numbers
  import opened Wrappers
  import opened HashBuckets
  import opened HashChains

  // ---------------------------------------------------------------- the map

  ghost predicate IsCapacity(c: nat) { INITIAL_CAPACITY <= c <= MAXIMUM_CAPACITY && PowerOfTwo(c) }

  lemma LargestCapacity()
    ensures Pow2(31) == MAXIMUM_CAPACITY
  {
    assert Pow2(8) == 0x100;
    assert Pow2(16) == 0x1_0000;
    assert Pow2(24) == 0x100_0000;
  }

  lemma Doubled(c: nat)
    requires IsCapacity(c) && c < MAXIMUM_CAPACITY
    ensures IsCapacity(2 * c)
  {
    var e: nat :| c == Pow2(e);
    LargestCapacity();
    DoubledPower(e, 31);
  }

  lemma DoubledPower(e: nat, top: nat)
    requires Pow2(e) < Pow2(top)
    ensures PowerOfTwo(2 * Pow2(e)) && 2 * Pow2(e) <= Pow2(top)
  {
    assert 2 * Pow2(e) == Pow2(e + 1);
    Pow2Gap(e, top);
  }

  lemma {:induction false} Pow2Gap(a: nat, b: nat)
    requires Pow2(a) < Pow2(b)
    ensures 2 * Pow2(a) <= Pow2(b)
  {
    if a > 0 && b > 0 {
      Pow2Gap(a - 1, b - 1);
    }
  }

  /** The threshold for a capacity: three quarters of it. */
  function Load(capacity: nat): nat { 3 * capacity / 4 }

  /** A size is above the threshold exactly when more than three in four of the buckets' number is taken. */
  lemma LoadIs(capacity: nat, size: nat)
    ensures size > Load(capacity) <==> 4 * size > 3 * capacity
  {}

  predicate Balanced(v: Value, given: multiset<Value>, owned: multiset<Value>, freed: multiset<Value>, handed: multiset<Value>) {
    given[v] == owned[v] + freed[v] + handed[v]
  }

  /** Every non-NULL value that was put is stored, was freed, or was handed back. */
  ghost predicate Conserved(given: multiset<Value>, owned: multiset<Value>, freed: multiset<Value>, handed: multiset<Value>) {
    forall v {:trigger Balanced(v, given, owned, freed, handed)} ::
      v != NULL ==> Balanced(v, given, owned, freed, handed)
  }

  lemma PlusNothing(a: multiset<Value>)
    ensures a + multiset{} == a
  {}

  /** The table stands for the finite map, entry by entry. */
  ghost predicate StandsFor(h: Hasher, t: seq<Bucket>, m: map<Key, Value>) {
    TableOk(h, t) && Represents(h, t, m) && |m| == |Owned(t)|
  }

  class HashMap {
    const hasher: Hasher
    var table: Chains
    var capacity: nat
    var size: nat
    var threshold: nat

    /** The finite map this table stands for, and where every value put so far has gone: a value is
        stored, or was passed to freeFunc, or was handed back through a value pointer. */
    ghost var contents: map<Key, Value>
    ghost var given: multiset<Value>
    ghost var freed: multiset<Value>
    ghost var handed: multiset<Value>

    /** The table is memory of its own, of the capacity of the map. */
    ghost predicate Owns()
      reads this, table, table.Repr
    {
      table.Valid() && this !in table.Repr && table.heads.Length == capacity
    }

    ghost predicate Core()
      reads this, table, table.Repr
    {
      && Owns() && IsCapacity(capacity)
      && StandsFor(hasher, table.buckets, contents) && size == |contents|
      && Conserved(given, Owned(table.buckets), freed, handed)
    }

    /** The load factor is kept until the capacity cannot grow any more. */
    ghost predicate Valid()
      reads this, table, table.Repr
    {
      && Core()
      && (capacity < MAXIMUM_CAPACITY ==> threshold == Load(capacity) && size <= threshold)
      && (capacity == MAXIMUM_CAPACITY ==> threshold == Load(capacity) || threshold == UINT_MAX)
    }

    /** hashMapCreate. */
    constructor (hasher: Hasher)
      ensures Valid() && fresh(table.Repr) && this.hasher == hasher
      ensures contents == map[] && given == freed == handed == multiset{}
    {
      this.hasher := hasher;
      table := new Chains(INITIAL_CAPACITY);
      capacity := INITIAL_CAPACITY;
      size := 0;
      threshold := Load(INITIAL_CAPACITY);
      contents := map[];
      given, freed, handed := multiset{}, multiset{}, multiset{};
      new;
      EmptyTable(hasher, table.buckets);
      assert INITIAL_CAPACITY == Pow2(4);
    }

    /** The loop of get, containsKey, put and remove: walks the chain of a key until isHit. */
    method Scan(key: Key) returns (index: nat, prev: Node?, e: Node?, ghost k: nat)
      requires Core()
      ensures index == hasher(key) % capacity < table.heads.Length && k <= |table.nodes[index]|
      ensures IsFound(table.nodes[index], key, hasher(key), prev, e, k)
      ensures e != null ==> IsEntry(index, e, k) && e.key == key && key in contents && contents[key] == e.value
      ensures e != null ==> prev != null && prev in table.Repr
      ensures e == null ==> key !in contents
    {
      index := IndexFor(hasher(key), capacity);
      prev, e, k := table.Find(index, key, hasher(key));
      assert table.ChainAt(index);
      assert e != null ==> e.AsEntry() == table.buckets[index][k];
      HitIsBound(hasher, table.buckets, contents, key, k);
    }

    /** Entry k of a chain. */
    ghost predicate IsEntry(index: nat, e: Node, k: nat)
      reads this, table, table.Repr, e
    {
      table.Valid() && index < table.heads.Length && k < |table.nodes[index]| == |table.buckets[index]|
      && e == table.nodes[index][k] && table.buckets[index][k] == e.AsEntry() && e in table.Repr
    }

    /** hashMapGet: NULL when there is no entry. */
    method Get(key: Key) returns (value: Value)
      requires Valid()
      ensures value == if key in contents then contents[key] else NULL
    {
      var _, _, e, _ := Scan(key);
      value := if e != null then e.value else NULL;
    }

    /** hashMapContainsKey. */
    method ContainsKey(key: Key) returns (found: bool)
      requires Valid()
      ensures found <==> key in contents
    {
      var _, _, e, _ := Scan(key);
      found := e != null;
    }

    /** The finite map after a change of the table, and the account: a value that was put in, and one that
        copyOrFree passed to the caller or to freeFunc. */
    ghost method Note(m: map<Key, Value>, put: multiset<Value>, gone: Value, want: bool)
      requires Owns() && IsCapacity(capacity) && StandsFor(hasher, table.buckets, m) && size == |m|
      requires Conserved(given + put, Owned(table.buckets), freed + multiset{gone}, handed)
      requires Conserved(given + put, Owned(table.buckets), freed, handed + multiset{gone})
      modifies `contents, `given, `freed, `handed
      ensures Core() && contents == m && given == old(given) + put
      ensures freed == if want then old(freed) else old(freed) + multiset{gone}
      ensures handed == if want then old(handed) + multiset{gone} else old(handed)
    {
      contents, given := m, given + put;
      if want {
        handed := handed + multiset{gone};
      } else {
        freed := freed + multiset{gone};
      }
    }

    /** The resizing half of hashMapPut: the capacity doubles, and every entry moves to the new table. */
    method Grow()
      requires Owns() && IsCapacity(capacity) && capacity < MAXIMUM_CAPACITY
      requires TableOk(hasher, table.buckets) && Represents(hasher, table.buckets, contents)
      modifies `table, `capacity, `threshold, table.Repr
      ensures Owns() && fresh(table.Repr - old(table.Repr))
      ensures capacity == 2 * old(capacity) && IsCapacity(capacity)
      ensures threshold == Load(capacity)
      ensures TableOk(hasher, table.buckets) && Represents(hasher, table.buckets, contents)
      ensures Owned(table.buckets) == old(Owned(table.buckets))
    {
      Doubled(capacity);
      var newTable := new Chains(2 * capacity);
      Resized(hasher, table.buckets, newTable.buckets, contents);
      MoveAll(table, newTable);
      table := newTable;
      capacity := 2 * capacity;
      threshold := Load(capacity);
    }

    /** The first half of hashMapPut: an entry with the key exists and gets the new value. */
    method UpdateValue(key: Key, value: Value, e: Node, want: bool, ghost k: nat) returns (oldValue: Value)
      requires Core() && e.key == key && IsEntry(hasher(key) % capacity, e, k)
      modifies `contents, `given, `freed, `handed, table, e
      ensures Core() && table.Repr == old(table.Repr)
      ensures key in old(contents) && contents == old(contents)[key := value]
      ensures oldValue == if want then old(contents)[key] else NULL
      ensures given == old(given) + multiset{value}
      ensures freed == if want then old(freed) else old(freed) + multiset{old(contents)[key]}
      ensures handed == if want then old(handed) + multiset{old(contents)[key]} else old(handed)
    {
      ghost var t, index := table.buckets, hasher(key) % capacity;
      var prev := e.value;
      Updated(hasher, t, contents, key, k, value, given, freed, handed);
      oldValue := if want then prev else NULL;
      table.SetValue(e, value, index, k);
      Note(contents[key := value], multiset{value}, prev, want);
    }

    /** hashMapPut, when no entry has the key: a new entry at the head of its chain. */
    method Link(key: Key, value: Value, want: bool)
      requires Core() && key !in contents
      modifies `size, `contents, `given, `freed, `handed, table, table.heads
      ensures Core() && size == old(size) + 1 && fresh(table.Repr - old(table.Repr))
      ensures contents == old(contents)[key := value]
      ensures given == old(given) + multiset{value}
      ensures freed == if want then old(freed) else old(freed) + multiset{NULL}
      ensures handed == if want then old(handed) + multiset{NULL} else old(handed)
    {
      Linked(hasher, table.buckets, contents, key, value, given, freed, handed);
      NewEntry(key, value);
      size := size + 1;
      Note(contents[key := value], multiset{value}, NULL, want);
    }

    method NewEntry(key: Key, value: Value)
      requires Owns() && PowerOfTwo(capacity)
      modifies table, table.heads
      ensures Owns() && fresh(table.Repr - old(table.Repr))
      ensures var at, b := hasher(key) % capacity, old(table.buckets);
              at < |b| && table.buckets == b[at := [Entry(key, value, hasher(key))] + b[at]]
    {
      var hash := hasher(key);
      var index := IndexFor(hash, capacity);
      var e := new Node(key, value, hash);
      table.LinkHead(index, e);
    }

    /** The second half of hashMapPut: a new entry, and a larger table when there are too many. */
    method Insert(key: Key, value: Value, want: bool)
      requires Valid() && key !in contents
      modifies this, table.Repr
      ensures Valid() && fresh(table.Repr - old(table.Repr))
      ensures contents == old(contents)[key := value]
      ensures given == old(given) + multiset{value}
      ensures freed == if want then old(freed) else old(freed) + multiset{NULL}
      ensures handed == if want then old(handed) + multiset{NULL} else old(handed)
    {
      Link(key, value, want);
      if size - 1 >= threshold {
        GrowOrCap();
      }
    }

    /** The table when a new entry exceeds the threshold. */
    method GrowOrCap()
      requires Core() && (capacity < MAXIMUM_CAPACITY ==> size <= Load(capacity) + 1)
      modifies `table, `capacity, `threshold, table.Repr
      ensures Valid() && fresh(table.Repr - old(table.Repr))
    {
      if capacity == MAXIMUM_CAPACITY {
        threshold := UINT_MAX;
        return;
      }
      Grow();
    }

    /** hashMapPut, with successful allocation.  The value stored before (NULL when there was none)
        is handed back when wanted, and passed to freeFunc otherwise. */
    method Put(key: Key, value: Value, want: bool) returns (oldValue: Value)
      requires Valid()
      modifies this, table.Repr
      ensures Valid() && fresh(table.Repr - old(table.Repr))
      ensures contents == old(contents)[key := value]
      ensures oldValue == if want && key in old(contents) then old(contents)[key] else NULL
      ensures given == old(given) + multiset{value}
      ensures var prev := if key in old(contents) then old(contents)[key] else NULL;
              freed == (if want then old(freed) else old(freed) + multiset{prev})
              && handed == (if want then old(handed) + multiset{prev} else old(handed))
    {
      var index, prev, e, k := Scan(key);
      if e != null {
        oldValue := UpdateValue(key, value, e, want, k);
      } else {
        oldValue := NULL;
        Insert(key, value, want);
      }
    }

    /** hashMapRemove.  The removed value (NULL when there was none) is handed back when wanted, and
        passed to freeFunc otherwise. */
    method Remove(key: Key, want: bool) returns (value: Value)
      requires Valid()
      modifies `size, `contents, `given, `freed, `handed, table.Repr
      ensures given == old(given) && Valid() && table.Repr == old(table.Repr)
      ensures contents == old(contents) - {key}
      ensures value == if want && key in old(contents) then old(contents)[key] else NULL
      ensures var prev := if key in old(contents) then old(contents)[key] else NULL;
              freed == (if want then old(freed) else old(freed) + multiset{prev})
              && handed == (if want then old(handed) + multiset{prev} else old(handed))
    {
      var index, prev, e, k := Scan(key);
      if e != null {
        value := Unlink(key, index, prev, e, want, k);
      } else {
        UnlinkNothing(key, want);
        value := NULL;
      }
    }

    /** hashMapRemove for a key that is not there: NULL is freed or handed back. */
    method UnlinkNothing(key: Key, want: bool)
      requires Core() && key !in contents
      modifies `contents, `given, `freed, `handed
      ensures Core() && given == old(given) && contents == old(contents) == old(contents) - {key}
      ensures freed == if want then old(freed) else old(freed) + multiset{NULL}
      ensures handed == if want then old(handed) + multiset{NULL} else old(handed)
    {
      NotThere(contents, key);
      PlusNothing(given);
      NullGone(given, Owned(table.buckets), freed, handed);
      Note(contents, multiset{}, NULL, want);
    }

    /** The relinking half of hashMapRemove. */
    method Unlink(key: Key, index: nat, prev: Node, e: Node, want: bool, ghost k: nat) returns (value: Value)
      requires Core() && index == hasher(key) % capacity && e.key == key && IsEntry(index, e, k)
      requires prev == table.nodes[index][if k == 0 then 0 else k - 1]
      modifies `size, `contents, `given, `freed, `handed, table, table.heads, prev
      ensures given == old(given) && Core() && size == old(size) - 1 && table.Repr == old(table.Repr)
      ensures key in old(contents) && contents == old(contents) - {key}
      ensures value == if want then old(contents)[key] else NULL
      ensures freed == if want then old(freed) else old(freed) + multiset{old(contents)[key]}
      ensures handed == if want then old(handed) + multiset{old(contents)[key]} else old(handed)
    {
      ghost var t := table.buckets;
      value := e.value;
      Unlinked(hasher, t, contents, key, k, given, freed, handed);
      size := size - 1;
      table.Unlink(index, prev, e, k);
      PlusNothing(given);
      Note(contents - {key}, multiset{}, value, want);
      value := if want then value else NULL;
    }

    /** hashMapClear: frees every value and empties every chain, but leaves `size` as it was. */
    method Clear()
      requires Valid()
      modifies `contents, `freed, table, table.heads
      ensures Owns() && forall i :: 0 <= i < |table.buckets| ==> table.buckets[i] == []
      ensures contents == map[] && Owned(table.buckets) == multiset{}
      ensures freed == old(freed) + old(Owned(table.buckets))
      ensures Conserved(given, Owned(table.buckets), freed, handed)
      ensures Valid() <==> size == 0
    {
      Drained(given, Owned(table.buckets), freed, handed);
      EmptyChains();
      contents := map[];
      EmptyTable(hasher, table.buckets);
    }

    /** The outer loop of hashMapClear. */
    method EmptyChains()
      requires Owns()
      modifies `freed, table, table.heads
      ensures Owns() && forall i :: 0 <= i < |table.buckets| ==> table.buckets[i] == []
      ensures freed == old(freed) + old(Owned(table.buckets))
    {
      ghost var t, freed0 := table.buckets, freed;
      var i := 0;
      while i < capacity
        invariant i <= capacity && Owns() && Emptied(t, table.buckets, i)
        invariant freed == freed0 + OwnedBelow(t, i)
      {
        EmptyNext(i, t, freed0);
        i := i + 1;
      }
    }

    method EmptyNext(i: nat, ghost t: seq<Bucket>, ghost freed0: multiset<Value>)
      requires Owns() && i < capacity && Emptied(t, table.buckets, i) && freed == freed0 + OwnedBelow(t, i)
      modifies `freed, table, table.heads
      ensures Owns() && Emptied(t, table.buckets, i + 1) && freed == freed0 + OwnedBelow(t, i + 1)
    {
      ghost var now := table.buckets;
      EmptyChain(i);
      EmptiedNext(t, now, table.buckets, i);
      OwnedNext(freed0, t, i);
    }

    /** One turn of it. */
    method EmptyChain(i: nat)
      requires Owns() && i < capacity
      modifies `freed, table, table.heads
      ensures Owns() && table.buckets == old(table.buckets)[i := []]
      ensures i < |old(table.buckets)| && freed == old(freed) + Values(old(table.buckets)[i])
    {
      assert table.ChainAt(i);
      FreeChain(table.heads[i], table.nodes[i], table.buckets[i]);
      table.ClearAt(i);
    }

    /** The inner loop of hashMapClear: frees the values of one chain. */
    method FreeChain(head: Node?, ghost ns: seq<Node>, ghost b: Bucket)
      requires IsChain(head, ns, b)
      modifies `freed
      ensures freed == old(freed) + Values(b)
    {
      var e := head;
      ghost var rest, left := ns, b;
      while e != null
        invariant IsChain(e, rest, left) && freed + Values(left) == old(freed) + Values(b)
        decreases |rest|
      {
        Rest(e, rest, left);
        SumAssoc(freed, multiset{e.value}, Values(left[1..]));
        freed := freed + multiset{e.value};
        e, rest, left := e.next, rest[1..], left[1..];
      }
    }

    /** hashMapDestroy: afterwards no value is stored, so each one put was freed or handed back. */
    method Destroy()
      requires Valid()
      modifies `contents, `freed, table, table.heads
      ensures freed == old(freed) + old(Owned(table.buckets))
      ensures Conserved(given, multiset{}, freed, handed)
    {
      Clear();
    }
  }

  /** A new value for an entry, in the table and in the account. */
  lemma Updated(h: Hasher, t: seq<Bucket>, m: map<Key, Value>, key: Key, k: nat, v: Value,
                given: multiset<Value>, freed: multiset<Value>, handed: multiset<Value>)
    requires StandsFor(h, t, m) && Conserved(given, Owned(t), freed, handed)
    requires k < |t[h(key) % |t|]| && t[h(key) % |t|][k].key == key
    ensures var at := h(key) % |t|; var t', prev := t[at := Replaced(t[at], k, v)], t[at][k].value;
            StandsFor(h, t', m[key := v]) && |m[key := v]| == |m| && key in m && m[key] == prev
            && Conserved(given + multiset{v}, Owned(t'), freed + multiset{prev}, handed)
            && Conserved(given + multiset{v}, Owned(t'), freed, handed + multiset{prev})
  {
    var at := h(key) % |t|;
    ReplacedInTable(h, t, m, key, k, v);
    Exchanged(given, Owned(t), Owned(t[at := Replaced(t[at], k, v)]), freed, handed, v, t[at][k].value);
  }

  /** A new entry, in the table and in the account. */
  lemma Linked(h: Hasher, t: seq<Bucket>, m: map<Key, Value>, key: Key, v: Value,
               given: multiset<Value>, freed: multiset<Value>, handed: multiset<Value>)
    requires StandsFor(h, t, m) && key !in m && Conserved(given, Owned(t), freed, handed)
    ensures var at := h(key) % |t|; var t' := t[at := [Entry(key, v, h(key))] + t[at]];
            StandsFor(h, t', m[key := v]) && |m[key := v]| == |m| + 1
            && Conserved(given + multiset{v}, Owned(t'), freed + multiset{NULL}, handed)
            && Conserved(given + multiset{v}, Owned(t'), freed, handed + multiset{NULL})
  {
    var at := h(key) % |t|;
    InsertedInTable(h, t, m, key, v);
    InsertedOwned(t, at, Entry(key, v, h(key)));
    Exchanged(given, Owned(t), Owned(t[at := [Entry(key, v, h(key))] + t[at]]), freed, handed, v, NULL);
  }

  /** An entry taken out. */
  lemma Unlinked(h: Hasher, t: seq<Bucket>, m: map<Key, Value>, key: Key, k: nat,
                 given: multiset<Value>, freed: multiset<Value>, handed: multiset<Value>)
    requires StandsFor(h, t, m) && Conserved(given, Owned(t), freed, handed)
    requires k < |t[h(key) % |t|]| && t[h(key) % |t|][k].key == key
    ensures var at := h(key) % |t|; var t', v := t[at := Without(t[at], k)], t[at][k].value;
            StandsFor(h, t', m - {key}) && |m - {key}| == |m| - 1
            && key in m && m[key] == v
            && Conserved(given, Owned(t'), freed + multiset{v}, handed) && Conserved(given, Owned(t'), freed, handed + multiset{v})
  {
    var at := h(key) % |t|;
    RemovedFromTable(h, t, m, key, k);
    TakenOut(given, Owned(t), Owned(t[at := Without(t[at], k)]), freed, handed, t[at][k].value);
  }

  predicate Emptied(t: seq<Bucket>, now: seq<Bucket>, i: nat) {
    |now| == |t| && i <= |t| && (forall j :: 0 <= j < i ==> now[j] == []) && forall j :: i <= j < |t| ==> now[j] == t[j]
  }

  lemma EmptiedNext(t: seq<Bucket>, now: seq<Bucket>, later: seq<Bucket>, i: nat)
    requires Emptied(t, now, i) && i < |now| && later == now[i := []]
    ensures Emptied(t, later, i + 1) && now[i] == t[i]
  {}

  lemma OwnedNext(freed: multiset<Value>, t: seq<Bucket>, i: nat)
    requires i < |t|
    ensures freed + OwnedBelow(t, i) + Values(t[i]) == freed + OwnedBelow(t, i + 1)
  {
    SumAssoc(freed, OwnedBelow(t, i), Values(t[i]));
  }

  /** What the walk over a chain found is what the finite map has. */
  lemma HitIsBound(h: Hasher, t: seq<Bucket>, m: map<Key, Value>, key: Key, k: nat)
    requires TableOk(h, t) && Represents(h, t, m)
    requires var b := t[h(key) % |t|];
             Passed(b, key, h(key), k) && (k < |b| ==> b[k].key == key)
    ensures var b := t[h(key) % |t|];
            if k < |b| then key in m && m[key] == b[k].value else key !in m
  {
    var at := h(key) % |t|;
    var b := t[at];
    assert BucketOk(h, t, at) && FindsAsIn(h, t, m, key);
    LookupFinds(b, key);
    if k == |b| {
      forall e | e in b ensures e.key != key {
        var j :| 0 <= j < |b| && b[j] == e;
      }
    }
  }

  /** A cleared map with a nonzero size: no entry is left, and the size still says one. */
  method ClearedMapKeepsSize(hasher: Hasher, key: Key, value: Value) returns (m: HashMap)
    ensures fresh(m) && m.contents == map[] && m.size == 1 && !m.Valid()
  {
    m := new HashMap(hasher);
    var previous := m.Put(key, value, false);
    m.Clear();
  }

  lemma TakenOut(given: multiset<Value>, was: multiset<Value>, now: multiset<Value>, freed: multiset<Value>, handed: multiset<Value>, prev: Value)
    requires Conserved(given, was, freed, handed) && now + multiset{prev} == was
    ensures Conserved(given, now, freed + multiset{prev}, handed)
    ensures Conserved(given, now, freed, handed + multiset{prev})
  {
    forall e | e != NULL
      ensures Balanced(e, given, now, freed + multiset{prev}, handed)
      ensures Balanced(e, given, now, freed, handed + multiset{prev})
    {
      assert Balanced(e, given, was, freed, handed);
      assert (now + multiset{prev})[e] == was[e];
    }
  }

  lemma NullGone(given: multiset<Value>, owned: multiset<Value>, freed: multiset<Value>, handed: multiset<Value>)
    requires Conserved(given, owned, freed, handed)
    ensures Conserved(given, owned, freed + multiset{NULL}, handed)
    ensures Conserved(given, owned, freed, handed + multiset{NULL})
  {
    forall e | e != NULL
      ensures Balanced(e, given, owned, freed + multiset{NULL}, handed)
      ensures Balanced(e, given, owned, freed, handed + multiset{NULL})
    {
      assert Balanced(e, given, owned, freed, handed);
    }
  }

  lemma Drained(given: multiset<Value>, owned: multiset<Value>, freed: multiset<Value>, handed: multiset<Value>)
    requires Conserved(given, owned, freed, handed)
    ensures Conserved(given, multiset{}, freed + owned, handed)
  {
    forall e | e != NULL ensures Balanced(e, given, multiset{}, freed + owned, handed) {
      assert Balanced(e, given, owned, freed, handed);
    }
  }

  /** Ownership: when no non-NULL value was put twice, the values put are at all times the disjoint
      union of those stored, those freed and those handed back, and none of them occurs twice. */
  lemma ValuesHaveOneOwner(given: multiset<Value>, owned: multiset<Value>, freed: multiset<Value>, handed: multiset<Value>, v: Value)
    requires Conserved(given, owned, freed, handed)
    requires v != NULL && given[v] == 1
    ensures owned[v] + freed[v] + handed[v] == 1
    ensures (v in owned && v !in freed && v !in handed) || (v !in owned && v in freed && v !in handed)
            || (v !in owned && v !in freed && v in handed)
  {
    assert Balanced(v, given, owned, freed, handed);
  }

  /** Storing v in place of prev (NULL when nothing was there) keeps the account. */
  lemma Exchanged(given: multiset<Value>, was: multiset<Value>, now: multiset<Value>, freed: multiset<Value>, handed: multiset<Value>,
                  v: Value, prev: Value)
    requires Conserved(given, was, freed, handed)
    requires now + multiset{prev} == was + multiset{v} || (prev == NULL && now == was + multiset{v})
    ensures Conserved(given + multiset{v}, now, freed + multiset{prev}, handed)
    ensures Conserved(given + multiset{v}, now, freed, handed + multiset{prev})
  {
    forall e | e != NULL
      ensures Balanced(e, given + multiset{v}, now, freed + multiset{prev}, handed)
      ensures Balanced(e, given + multiset{v}, now, freed, handed + multiset{prev})
    {
      assert Balanced(e, given, was, freed, handed);
      if now + multiset{prev} == was + multiset{v} {
        assert (now + multiset{prev})[e] == (was + multiset{v})[e];
      }
    }
  }

  // ---------------------------------------------------------------- whole lifetimes

  datatype Op =
    | PutOp(key: Key, value: Value, want: bool)
    | GetOp(key: Key)
    | ContainsOp(key: Key)
    | RemoveOp(key: Key, want: bool)

  datatype Answer = Pointer(value: Value) | Found(found: bool)

  function ValueAt(m: map<Key, Value>, key: Key): Value { if key in m then m[key] else NULL }

  /** What an operation makes of a finite map, what it answers, what it puts in and takes out. */
  function Applied(m: map<Key, Value>, op: Op): map<Key, Value> {
    match op
    case PutOp(key, value, _) => m[key := value]
    case RemoveOp(key, _) => m - {key}
    case _ => m
  }

  function AnswerTo(m: map<Key, Value>, op: Op): Answer {
    match op
    case PutOp(key, _, want) => Pointer(if want then ValueAt(m, key) else NULL)
    case GetOp(key) => Pointer(ValueAt(m, key))
    case ContainsOp(key) => Found(key in m)
    case RemoveOp(key, want) => Pointer(if want then ValueAt(m, key) else NULL)
  }

  function PutIn(op: Op): multiset<Value> { if op.PutOp? then multiset{op.value} else multiset{} }

  function TakenOutBy(m: map<Key, Value>, op: Op): multiset<Value> {
    if (op.PutOp? || op.RemoveOp?) && op.want then multiset{ValueAt(m, op.key)} else multiset{}
  }

  datatype Account = Account(contents: map<Key, Value>, answers: seq<Answer>, put: multiset<Value>, taken: multiset<Value>)

  const START := Account(map[], [], multiset{}, multiset{})

  /** A whole run on a finite map: its contents, the answers, the values put in and taken out. */
  function Ledger(a: Account, ops: seq<Op>): Account
    decreases |ops|
  {
    if ops == [] then a else Ledger(Booked(a, ops[0]), ops[1..])
  }

  function Booked(a: Account, op: Op): Account {
    Account(Applied(a.contents, op), a.answers + [AnswerTo(a.contents, op)],
            a.put + PutIn(op), a.taken + TakenOutBy(a.contents, op))
  }

  /** One operation on the table is that operation on the finite map. */
  method Perform(m: HashMap, op: Op) returns (answer: Answer)
    requires m.Valid()
    modifies m, m.table.Repr
    ensures m.Valid() && fresh(m.table.Repr - old(m.table.Repr))
    ensures m.contents == Applied(old(m.contents), op) && answer == AnswerTo(old(m.contents), op)
    ensures m.given == old(m.given) + PutIn(op) && m.handed == old(m.handed) + TakenOutBy(old(m.contents), op)
  {
    match op {
      case PutOp(_, _, _) =>
        answer := PerformPut(m, op);
      case GetOp(key) =>
        var value := m.Get(key);
        answer := Pointer(value);
      case ContainsOp(key) =>
        var found := m.ContainsKey(key);
        answer := Found(found);
      case RemoveOp(_, _) =>
        answer := PerformRemove(m, op);
    }
    PlusNothing(old(m.given));
    PlusNothing(old(m.handed));
  }

  method PerformPut(m: HashMap, op: Op) returns (answer: Answer)
    requires m.Valid() && op.PutOp?
    modifies m, m.table.Repr
    ensures m.Valid() && fresh(m.table.Repr - old(m.table.Repr))
    ensures m.contents == Applied(old(m.contents), op) && answer == AnswerTo(old(m.contents), op)
    ensures m.given == old(m.given) + PutIn(op) && m.handed == old(m.handed) + TakenOutBy(old(m.contents), op)
  {
    PlusNothing(m.handed);
    var previous := m.Put(op.key, op.value, op.want);
    answer := Pointer(previous);
  }

  method PerformRemove(m: HashMap, op: Op) returns (answer: Answer)
    requires m.Valid() && op.RemoveOp?
    modifies m, m.table.Repr
    ensures m.Valid() && fresh(m.table.Repr - old(m.table.Repr))
    ensures m.contents == Applied(old(m.contents), op) && answer == AnswerTo(old(m.contents), op)
    ensures m.given == old(m.given) + PutIn(op) && m.handed == old(m.handed) + TakenOutBy(old(m.contents), op)
  {
    PlusNothing(m.given);
    PlusNothing(m.handed);
    var value := m.Remove(op.key, op.want);
    answer := Pointer(value);
  }

  /** The map and the answers given so far are those of the account. */
  ghost predicate InStep(m: HashMap, answers: seq<Answer>, a: Account)
    reads m, m.table, m.table.Repr
  {
    m.Valid() && a == Account(m.contents, answers, m.given, m.handed)
  }

  method RunOne(m: HashMap, op: Op, before: seq<Answer>, ghost a: Account) returns (answers: seq<Answer>)
    requires InStep(m, before, a)
    modifies m, m.table.Repr
    ensures InStep(m, answers, Booked(a, op)) && fresh(m.table.Repr - old(m.table.Repr))
  {
    var answer := Perform(m, op);
    answers := before + [answer];
  }

  method RunAll(m: HashMap, ops: seq<Op>, before: seq<Answer>, ghost a: Account) returns (answers: seq<Answer>)
    requires InStep(m, before, a)
    modifies m, m.table.Repr
    ensures InStep(m, answers, Ledger(a, ops)) && fresh(m.table.Repr - old(m.table.Repr))
    decreases |ops|
  {
    if ops == [] {
      return before;
    }
    answers := RunOne(m, ops[0], before, a);
    answers := RunAll(m, ops[1..], answers, Booked(a, ops[0]));
  }

  /** Over every run from hashMapCreate to hashMapDestroy, across any number of resizes, the table
      answers as a finite map does, and in the end every value put has been freed exactly as often
      as it was put and not taken back. */
  method Lifetime(hasher: Hasher, ops: seq<Op>) returns (answers: seq<Answer>, ghost freed: multiset<Value>)
    ensures answers == Ledger(START, ops).answers
    ensures Conserved(Ledger(START, ops).put, multiset{}, freed, Ledger(START, ops).taken)
  {
    var m := new HashMap(hasher);
    answers := RunAll(m, ops, [], START);
    m.Destroy();
    freed := m.freed;
  }
}
