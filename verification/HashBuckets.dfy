/** The tables of the hash map of machista1.0/hashmap.c, on values: buckets are sequences of entries, head first.

    They are correct for every hash function of the keys. */
module HashBuckets {

  import opened Numbers
  import opened Wrappers

  type Key = string
  type Hasher = Key -> nat

  /** A value is a pointer; NULL is one of them. */
  type Value = nat
  const NULL: Value := 0

  datatype Entry = Entry(key: Key, value: Value, hash: nat)
  type Bucket = seq<Entry>

  const INITIAL_CAPACITY: nat := 16
  const MAXIMUM_CAPACITY: nat := 0x8000_0000
  const UINT_MAX: nat := 0xFFFF_FFFF

  // ---------------------------------------------------------------- bucket indices

  /** C's & on natural numbers, bit by bit. */
  function BitAnd(a: nat, b: nat): nat {
    if a == 0 || b == 0 then 0 else (if a % 2 == 1 && b % 2 == 1 then 1 else 0) + 2 * BitAnd(a / 2, b / 2)
  }

  lemma HalvedMod(h: nat, n: nat)
    requires n > 0
    ensures h % 2 + 2 * (h / 2 % n) == h % (2 * n)
  {
    var q, r := h / 2 / n, h / 2 % n;
    var s := h % 2 + 2 * r;
    assert h / 2 == n * q + r;
    assert h == (2 * n) * q + s by {
      assert 2 * (n * q) == (2 * n) * q;
    }
    DivModUnique(h, 2 * n, q, s);
  }

  /** The mask of a power of two picks the bucket "hash mod capacity". */
  lemma {:induction false} MaskIsMod(hash: nat, e: nat)
    ensures BitAnd(hash, Pow2(e) - 1) == hash % Pow2(e)
  {
    if e > 0 {
      MaskIsMod(hash / 2, e - 1);
      HalvedMod(hash, Pow2(e - 1));
      var b := Pow2(e) - 1;
      assert b % 2 == 1 && b / 2 == Pow2(e - 1) - 1;
      if hash == 0 {
      } else if b / 2 == 0 {
        assert e == 1;
      }
    }
  }

  ghost predicate PowerOfTwo(n: nat) { exists e: nat :: n == Pow2(e) }

  /** indexFor. */
  method IndexFor(hash: nat, length: nat) returns (index: nat)
    requires PowerOfTwo(length)
    ensures length > 0 && index == hash % length < length
  {
    index := BitAnd(hash, length - 1);
    ghost var e: nat :| length == Pow2(e);
    MaskIsMod(hash, e);
  }

  // ---------------------------------------------------------------- buckets and tables

  function Lookup(b: Bucket, key: Key): Option<Value> {
    if b == [] then None else if b[0].key == key then Some(b[0].value) else Lookup(b[1..], key)
  }

  /** The values a bucket owns. */
  function Values(b: Bucket): multiset<Value> {
    if b == [] then multiset{} else multiset{b[0].value} + Values(b[1..])
  }

  predicate Distinct(b: Bucket) {
    forall i, j :: 0 <= i < j < |b| ==> b[i].key != b[j].key
  }

  predicate Placed(h: Hasher, b: Bucket, i: nat, capacity: nat)
    requires capacity > 0
  {
    forall e :: e in b ==> e.hash == h(e.key) && e.hash % capacity == i
  }

  predicate BucketOk(h: Hasher, t: seq<Bucket>, i: nat)
    requires i < |t|
  {
    Placed(h, t[i], i, |t|) && Distinct(t[i])
  }

  predicate TableOk(h: Hasher, t: seq<Bucket>) {
    |t| > 0 && forall i {:trigger BucketOk(h, t, i)} :: 0 <= i < |t| ==> BucketOk(h, t, i)
  }

  function Find(h: Hasher, t: seq<Bucket>, key: Key): Option<Value>
    requires |t| > 0
  {
    Lookup(t[h(key) % |t|], key)
  }

  /** The values the first n buckets of a table own. */
  function OwnedBelow(t: seq<Bucket>, n: nat): multiset<Value>
    requires n <= |t|
  {
    if n == 0 then multiset{} else OwnedBelow(t, n - 1) + Values(t[n - 1])
  }

  function Owned(t: seq<Bucket>): multiset<Value> { OwnedBelow(t, |t|) }

  predicate FindsAsIn(h: Hasher, t: seq<Bucket>, m: map<Key, Value>, key: Key)
    requires |t| > 0
  {
    Find(h, t, key) == if key in m then Some(m[key]) else None
  }

  ghost predicate Represents(h: Hasher, t: seq<Bucket>, m: map<Key, Value>)
    requires |t| > 0
  {
    forall key {:trigger FindsAsIn(h, t, m, key)} :: FindsAsIn(h, t, m, key)
  }

  lemma {:induction false} LookupFinds(b: Bucket, key: Key)
    ensures Lookup(b, key).None? <==> forall e :: e in b ==> e.key != key
    ensures forall i :: 0 <= i < |b| && b[i].key == key && Distinct(b) ==> Lookup(b, key) == Some(b[i].value)
  {
    if b != [] {
      assert b == [b[0]] + b[1..];
      LookupFinds(b[1..], key);
      if Distinct(b) {
        forall i | 0 <= i < |b| && b[i].key == key ensures Lookup(b, key) == Some(b[i].value) {
          if i > 0 {
            assert b[1..][i - 1] == b[i];
          }
        }
      }
    }
  }

  // ---------------------------------------------------------------- changing one bucket

  function Replaced(b: Bucket, i: nat, v: Value): Bucket
    requires i < |b|
  {
    b[i := b[i].(value := v)]
  }

  function Without(b: Bucket, i: nat): Bucket
    requires i < |b|
  {
    b[..i] + b[i + 1..]
  }

  lemma SumSwap(a: multiset<Value>, x: multiset<Value>, x': multiset<Value>, y: multiset<Value>, y': multiset<Value>)
    requires x + x' == y + y'
    ensures a + x + x' == a + y + y'
  {
    assert a + x + x' == a + (x + x');
    assert a + y + y' == a + (y + y');
  }

  lemma SumTail(x: multiset<Value>, a: multiset<Value>, x': multiset<Value>, y: multiset<Value>, y': multiset<Value>)
    requires x + x' == y + y'
    ensures x + a + x' == y + a + y'
  {
    assert x + a == a + x && y + a == a + y;
    SumSwap(a, x, x', y, y');
  }

  lemma {:induction false} ReplacedBucket(b: Bucket, i: nat, v: Value, key: Key)
    requires i < |b| && Distinct(b)
    ensures Lookup(Replaced(b, i, v), key) == if key == b[i].key then Some(v) else Lookup(b, key)
  {
    if i == 0 {
      assert Replaced(b, i, v)[1..] == b[1..];
    } else {
      assert Replaced(b, i, v)[1..] == Replaced(b[1..], i - 1, v);
      ReplacedBucket(b[1..], i - 1, v, key);
    }
  }

  lemma {:induction false} ReplacedValues(b: Bucket, i: nat, v: Value)
    requires i < |b|
    ensures Values(Replaced(b, i, v)) + multiset{b[i].value} == Values(b) + multiset{v}
  {
    var r := Replaced(b, i, v);
    if i == 0 {
      assert r[1..] == b[1..];
    } else {
      assert r[1..] == Replaced(b[1..], i - 1, v);
      ReplacedValues(b[1..], i - 1, v);
      SumSwap(multiset{b[0].value}, Values(r[1..]), multiset{b[i].value}, Values(b[1..]), multiset{v});
    }
  }

  lemma WithoutBucket(b: Bucket, i: nat, key: Key)
    requires i < |b| && Distinct(b)
    ensures Lookup(Without(b, i), key) == if key == b[i].key then None else Lookup(b, key)
    ensures Values(Without(b, i)) + multiset{b[i].value} == Values(b)
  {
    WithoutLookup(b, i, key);
    WithoutValues(b, i);
  }

  lemma {:induction false} WithoutLookup(b: Bucket, i: nat, key: Key)
    requires i < |b| && Distinct(b)
    ensures Lookup(Without(b, i), key) == if key == b[i].key then None else Lookup(b, key)
  {
    if i == 0 {
      assert Without(b, i) == b[1..];
      LookupFinds(b[1..], b[0].key);
      assert forall e :: e in b[1..] ==> e.key != b[0].key;
    } else {
      assert Without(b, i)[1..] == Without(b[1..], i - 1);
      WithoutLookup(b[1..], i - 1, key);
    }
  }

  lemma {:induction false} WithoutValues(b: Bucket, i: nat)
    requires i < |b|
    ensures Values(Without(b, i)) + multiset{b[i].value} == Values(b)
  {
    if i == 0 {
      assert Without(b, i) == b[1..];
    } else {
      assert Without(b, i)[1..] == Without(b[1..], i - 1);
      WithoutValues(b[1..], i - 1);
    }
  }

  lemma BucketStaysOk(h: Hasher, b: Bucket, i: nat, v: Value, at: nat, capacity: nat)
    requires capacity > 0 && i < |b| && Placed(h, b, at, capacity) && Distinct(b)
    ensures Placed(h, Replaced(b, i, v), at, capacity) && Distinct(Replaced(b, i, v))
    ensures Placed(h, Without(b, i), at, capacity) && Distinct(Without(b, i))
  {}

  lemma {:induction false} OwnedBelowKept(t: seq<Bucket>, n: nat, i: nat, b: Bucket)
    requires n <= i < |t|
    ensures OwnedBelow(t[i := b], n) == OwnedBelow(t, n)
  {
    if n > 0 {
      OwnedBelowKept(t, n - 1, i, b);
    }
  }

  lemma {:induction false} OwnedBelowUpdate(t: seq<Bucket>, n: nat, i: nat, b: Bucket)
    requires i < n <= |t|
    ensures OwnedBelow(t[i := b], n) + Values(t[i]) == OwnedBelow(t, n) + Values(b)
  {
    var t' := t[i := b];
    if i == n - 1 {
      OwnedBelowKept(t, i, i, b);
      SumSwap(OwnedBelow(t, i), Values(b), Values(t[i]), Values(t[i]), Values(b));
      assert OwnedBelow(t', n) == OwnedBelow(t, i) + Values(b);
    } else {
      OwnedBelowUpdate(t, n - 1, i, b);
      assert t'[n - 1] == t[n - 1];
      SumTail(OwnedBelow(t', n - 1), Values(t[n - 1]), Values(t[i]), OwnedBelow(t, n - 1), Values(b));
    }
  }

  lemma OwnedUpdate(t: seq<Bucket>, i: nat, b: Bucket)
    requires i < |t|
    ensures Owned(t[i := b]) + Values(t[i]) == Owned(t) + Values(b)
  {
    OwnedBelowUpdate(t, |t|, i, b);
  }

  /** A table in which only the bucket of `key` changed, and only for that key. */
  lemma TableUpdate(h: Hasher, t: seq<Bucket>, m: map<Key, Value>, key: Key, b: Bucket, m': map<Key, Value>)
    requires TableOk(h, t) && Represents(h, t, m)
    requires Placed(h, b, h(key) % |t|, |t|) && Distinct(b)
    requires forall k :: k != key ==> Lookup(b, k) == Lookup(t[h(key) % |t|], k)
    requires Lookup(b, key) == if key in m' then Some(m'[key]) else None
    requires m' - {key} == m - {key}
    ensures TableOk(h, t[h(key) % |t| := b]) && Represents(h, t[h(key) % |t| := b], m')
  {
    var i := h(key) % |t|;
    var t' := t[i := b];
    TableWith(h, t, i, b);
    forall k ensures FindsAsIn(h, t', m', k) {
      assert FindsAsIn(h, t, m, k);
      if k != key {
        assert k in m' <==> k in m' - {key};
        assert k in m <==> k in m - {key};
        if k in m {
          assert (m - {key})[k] == m[k];
          assert (m' - {key})[k] == m'[k];
        }
      }
    }
  }

  // ---------------------------------------------------------------- moving to a larger table

  /** What a half-moved table must find: the buckets below i are moved, and the first j entries of bucket i. */
  function Moved(h: Hasher, t: seq<Bucket>, i: nat, j: nat, key: Key): Option<Value>
    requires |t| > 0 && (i < |t| ==> j <= |t[i]|)
  {
    var at := h(key) % |t|;
    if at < i then Lookup(t[at], key) else if at == i then Lookup(t[i][..j], key) else None
  }

  predicate FindsMoved(h: Hasher, t: seq<Bucket>, n: seq<Bucket>, i: nat, j: nat, key: Key)
    requires |t| > 0 && |n| > 0 && (i < |t| ==> j <= |t[i]|)
  {
    Find(h, n, key) == Moved(h, t, i, j, key)
  }

  ghost predicate HalfMoved(h: Hasher, t: seq<Bucket>, n: seq<Bucket>, i: nat, j: nat)
    requires |t| > 0
  {
    (i < |t| ==> j <= |t[i]|) && TableOk(h, n)
    && forall key {:trigger FindsMoved(h, t, n, i, j, key)} :: FindsMoved(h, t, n, i, j, key)
  }

  lemma {:induction false} LookupLast(b: Bucket, e: Entry, key: Key)
    ensures Lookup(b + [e], key) == if Lookup(b, key).Some? then Lookup(b, key) else if key == e.key then Some(e.value) else None
  {
    if b == [] {
      assert b + [e] == [e];
    } else {
      assert (b + [e])[1..] == b[1..] + [e];
      LookupLast(b[1..], e, key);
    }
  }

  lemma TableWith(h: Hasher, t: seq<Bucket>, i: nat, b: Bucket)
    requires TableOk(h, t) && i < |t| && Placed(h, b, i, |t|) && Distinct(b)
    ensures TableOk(h, t[i := b])
  {
    var t' := t[i := b];
    forall k | 0 <= k < |t| ensures BucketOk(h, t', k) {
      assert BucketOk(h, t, k);
    }
  }

  lemma Prepended(h: Hasher, b: Bucket, e: Entry, at: nat, capacity: nat)
    requires capacity > 0 && Placed(h, b, at, capacity) && Distinct(b)
    requires e.hash == h(e.key) && e.hash % capacity == at && Lookup(b, e.key) == None
    ensures Placed(h, [e] + b, at, capacity) && Distinct([e] + b)
    ensures Values([e] + b) == multiset{e.value} + Values(b)
    ensures forall key :: Lookup([e] + b, key) == if key == e.key then Some(e.value) else Lookup(b, key)
  {
    LookupFinds(b, e.key);
    assert ([e] + b)[1..] == b;
    assert forall i :: 0 <= i < |b| ==> b[i] in b;
  }

  lemma FindWith(h: Hasher, n: seq<Bucket>, at: nat, b: Bucket, key: Key)
    requires at < |n|
    ensures Find(h, n[at := b], key) == if h(key) % |n| == at then Lookup(b, key) else Find(h, n, key)
  {}

  lemma MovedNext(h: Hasher, t: seq<Bucket>, i: nat, j: nat, key: Key)
    requires i < |t| && BucketOk(h, t, i) && j < |t[i]|
    ensures Moved(h, t, i, j + 1, key) == if key == t[i][j].key then Some(t[i][j].value) else Moved(h, t, i, j, key)
    ensures Moved(h, t, i, j, t[i][j].key) == None
  {
    var b, e := t[i], t[i][j];
    assert e in b;
    assert b[..j + 1] == b[..j] + [e];
    LookupLast(b[..j], e, key);
    LookupFinds(b[..j], e.key);
  }

  /** Moving one entry to the head of its new bucket. */
  lemma MoveEntry(h: Hasher, t: seq<Bucket>, n: seq<Bucket>, i: nat, j: nat)
    requires TableOk(h, t) && HalfMoved(h, t, n, i, j) && i < |t| && j < |t[i]|
    ensures var e := t[i][j]; var at := e.hash % |n|;
            HalfMoved(h, t, n[at := [e] + n[at]], i, j + 1)
            && Owned(n[at := [e] + n[at]]) == Owned(n) + multiset{e.value}
  {
    var e := t[i][j];
    assert BucketOk(h, t, i) && e in t[i];
    var at := e.hash % |n|;
    MovedNext(h, t, i, j, e.key);
    assert FindsMoved(h, t, n, i, j, e.key) && BucketOk(h, n, at);
    Prepended(h, n[at], e, at, |n|);
    var added := [e] + n[at];
    var n' := n[at := added];
    TableWith(h, n, at, added);
    OwnedUpdate(n, at, added);
    SumCancel(Owned(n'), Owned(n), Values(n[at]), multiset{e.value});
    assert HalfMoved(h, t, n', i, j + 1) by {
      var j' := j + 1;
      forall key ensures FindsMoved(h, t, n', i, j', key) {
        MovedNext(h, t, i, j, key);
        FindWith(h, n, at, added, key);
        assert FindsMoved(h, t, n, i, j, key);
      }
    }
  }

  lemma SumAssoc(a: multiset<Value>, b: multiset<Value>, c: multiset<Value>)
    ensures a + (b + c) == a + b + c
  {}

  lemma NotThere(m: map<Key, Value>, key: Key)
    requires key !in m
    ensures m - {key} == m
  {}

  lemma SumCancel(x: multiset<Value>, y: multiset<Value>, a: multiset<Value>, v: multiset<Value>)
    requires x + a == y + (v + a)
    ensures x == y + v
  {
    forall e ensures x[e] == (y + v)[e] {
      assert (x + a)[e] == (y + (v + a))[e];
    }
  }

  lemma NextBucket(h: Hasher, t: seq<Bucket>, n: seq<Bucket>, i: nat)
    requires TableOk(h, t) && i < |t| && HalfMoved(h, t, n, i, |t[i]|)
    ensures HalfMoved(h, t, n, i + 1, 0)
  {
    assert t[i][..|t[i]|] == t[i];
    var i' := i + 1;
    forall key ensures FindsMoved(h, t, n, i', 0, key) {
      assert FindsMoved(h, t, n, i, |t[i]|, key);
      if i + 1 < |t| {
        assert t[i + 1][..0] == [];
      }
    }
  }

  lemma StartMoving(h: Hasher, t: seq<Bucket>, n: seq<Bucket>)
    requires |t| > 0 && |n| > 0 && forall i :: 0 <= i < |n| ==> n[i] == []
    ensures HalfMoved(h, t, n, 0, 0) && Owned(n) == multiset{}
  {
    EmptyTable(h, n);
    assert t[0][..0] == [];
  }

  lemma EndMoving(h: Hasher, t: seq<Bucket>, n: seq<Bucket>, m: map<Key, Value>)
    requires TableOk(h, t) && Represents(h, t, m) && HalfMoved(h, t, n, |t|, 0)
    ensures Represents(h, n, m)
  {
    forall key ensures FindsAsIn(h, n, m, key) {
      assert FindsMoved(h, t, n, |t|, 0, key) && FindsAsIn(h, t, m, key);
    }
  }

  // ---------------------------------------------------------------- the resize on values

  /** The entries of a bucket, moved one by one to the heads of their new buckets. */
  function MovedInto(n: seq<Bucket>, b: Bucket): (r: seq<Bucket>)
    requires |n| > 0
    ensures |r| == |n|
    decreases |b|
  {
    if b == [] then n else MovedInto(n[b[0].hash % |n| := [b[0]] + n[b[0].hash % |n|]], b[1..])
  }

  function AllMovedInto(n: seq<Bucket>, t: seq<Bucket>, i: nat): (r: seq<Bucket>)
    requires |n| > 0 && i <= |t|
    ensures |r| == |n|
  {
    if i == 0 then n else MovedInto(AllMovedInto(n, t, i - 1), t[i - 1])
  }

  /** Moving the rest of a bucket. */
  lemma {:induction false} BucketMoves(h: Hasher, t: seq<Bucket>, n: seq<Bucket>, i: nat, j: nat)
    requires TableOk(h, t) && i < |t| && j <= |t[i]| && |n| > 0 && HalfMoved(h, t, n, i, j)
    ensures HalfMoved(h, t, MovedInto(n, t[i][j..]), i, |t[i]|)
    ensures Owned(MovedInto(n, t[i][j..])) == Owned(n) + Values(t[i][j..])
    decreases |t[i]| - j
  {
    var b := t[i][j..];
    if b == [] {
      assert Owned(n) + Values(b) == Owned(n);
    } else {
      MoveEntry(h, t, n, i, j);
      assert b[0] == t[i][j] && b[1..] == t[i][j + 1..];
      var at := b[0].hash % |n|;
      BucketMoves(h, t, n[at := [b[0]] + n[at]], i, j + 1);
      SumAssoc(Owned(n), multiset{b[0].value}, Values(b[1..]));
    }
  }

  /** Moving whole buckets. */
  lemma {:induction false} BucketsMove(h: Hasher, t: seq<Bucket>, n: seq<Bucket>, i: nat)
    requires TableOk(h, t) && i <= |t| && |n| > 0 && forall k :: 0 <= k < |n| ==> n[k] == []
    ensures HalfMoved(h, t, AllMovedInto(n, t, i), i, 0) && Owned(AllMovedInto(n, t, i)) == OwnedBelow(t, i)
  {
    if i == 0 {
      StartMoving(h, t, n);
    } else {
      BucketsMove(h, t, n, i - 1);
      var m := AllMovedInto(n, t, i - 1);
      BucketMoves(h, t, m, i - 1, 0);
      assert t[i - 1][0..] == t[i - 1];
      NextBucket(h, t, MovedInto(m, t[i - 1]), i - 1);
    }
  }

  /** The table into which all buckets were moved finds and owns the same. */
  lemma Resized(h: Hasher, t: seq<Bucket>, n: seq<Bucket>, m: map<Key, Value>)
    requires TableOk(h, t) && Represents(h, t, m) && |n| > 0 && forall k :: 0 <= k < |n| ==> n[k] == []
    ensures var r := AllMovedInto(n, t, |t|);
            TableOk(h, r) && Represents(h, r, m) && Owned(r) == Owned(t)
  {
    BucketsMove(h, t, n, |t|);
    EndMoving(h, t, AllMovedInto(n, t, |t|), m);
  }

  // ---------------------------------------------------------------- changing one entry of a table

  lemma ReplacedInTable(h: Hasher, t: seq<Bucket>, m: map<Key, Value>, key: Key, i: nat, v: Value)
    requires TableOk(h, t) && Represents(h, t, m)
    requires i < |t[h(key) % |t|]| && t[h(key) % |t|][i].key == key
    ensures var at := h(key) % |t|; var t' := t[at := Replaced(t[at], i, v)];
            TableOk(h, t') && Represents(h, t', m[key := v])
            && Owned(t') + multiset{t[at][i].value} == Owned(t) + multiset{v}
            && |Owned(t')| == |Owned(t)| && key in m && m[key] == t[at][i].value && |m[key := v]| == |m|
  {
    var at := h(key) % |t|;
    var b := t[at];
    assert BucketOk(h, t, at) && FindsAsIn(h, t, m, key);
    LookupFinds(b, key);
    assert m[key := v].Keys == m.Keys;
    forall k ensures Lookup(Replaced(b, i, v), k) == if k == key then Some(v) else Lookup(b, k) {
      ReplacedBucket(b, i, v, k);
    }
    BucketStaysOk(h, b, i, v, at, |t|);
    TableUpdate(h, t, m, key, Replaced(b, i, v), m[key := v]);
    ReplacedValues(b, i, v);
    OwnedUpdate(t, at, Replaced(b, i, v));
    SumExchange(Owned(t[at := Replaced(b, i, v)]), Owned(t), Values(Replaced(b, i, v)), Values(b), multiset{b[i].value}, multiset{v});
    var t' := t[at := Replaced(b, i, v)];
    assert |Owned(t') + multiset{b[i].value}| == |Owned(t) + multiset{v}|;
  }

  lemma SumExchange(x: multiset<Value>, y: multiset<Value>, a: multiset<Value>, b: multiset<Value>, p: multiset<Value>, q: multiset<Value>)
    requires x + b == y + a && a + p == b + q
    ensures x + p == y + q
  {
    forall e ensures (x + p)[e] == (y + q)[e] {
      assert (x + b)[e] == (y + a)[e] && (a + p)[e] == (b + q)[e];
    }
  }

  lemma InsertedInTable(h: Hasher, t: seq<Bucket>, m: map<Key, Value>, key: Key, v: Value)
    requires TableOk(h, t) && Represents(h, t, m) && key !in m
    ensures var at := h(key) % |t|; var t' := t[at := [Entry(key, v, h(key))] + t[at]];
            TableOk(h, t') && Represents(h, t', m[key := v]) && |m[key := v]| == |m| + 1
  {
    var at := h(key) % |t|;
    var e, b := Entry(key, v, h(key)), t[at];
    assert BucketOk(h, t, at) && FindsAsIn(h, t, m, key);
    PutKeys(m, key, v);
    Prepended(h, b, e, at, |t|);
    TableUpdate(h, t, m, key, [e] + b, m[key := v]);
  }

  lemma PutKeys(m: map<Key, Value>, key: Key, v: Value)
    requires key !in m
    ensures |m[key := v]| == |m| + 1 && m[key := v] - {key} == m - {key}
  {
    assert m[key := v].Keys == m.Keys + {key};
  }

  lemma InsertedOwned(t: seq<Bucket>, at: nat, e: Entry)
    requires at < |t|
    ensures var t' := t[at := [e] + t[at]];
            Owned(t') == Owned(t) + multiset{e.value} && |Owned(t')| == |Owned(t)| + 1
  {
    var b := t[at];
    assert ([e] + b)[1..] == b;
    OwnedUpdate(t, at, [e] + b);
    SumCancel(Owned(t[at := [e] + b]), Owned(t), Values(b), multiset{e.value});
  }

  lemma {:induction false} EmptyOwnsNothing(t: seq<Bucket>, n: nat)
    requires n <= |t| && forall i :: 0 <= i < n ==> t[i] == []
    ensures OwnedBelow(t, n) == multiset{}
  {
    if n > 0 {
      EmptyOwnsNothing(t, n - 1);
    }
  }

  lemma EmptyTable(h: Hasher, t: seq<Bucket>)
    requires |t| > 0 && forall i :: 0 <= i < |t| ==> t[i] == []
    ensures Owned(t) == multiset{} && TableOk(h, t) && Represents(h, t, map[])
  {
    EmptyOwnsNothing(t, |t|);
  }

  lemma RemovedFromTable(h: Hasher, t: seq<Bucket>, m: map<Key, Value>, key: Key, i: nat)
    requires TableOk(h, t) && Represents(h, t, m)
    requires i < |t[h(key) % |t|]| && t[h(key) % |t|][i].key == key
    ensures var at := h(key) % |t|; var t' := t[at := Without(t[at], i)];
            TableOk(h, t') && Represents(h, t', m - {key})
            && Owned(t') + multiset{t[at][i].value} == Owned(t)
            && |Owned(t')| == |Owned(t)| - 1
            && key in m && m[key] == t[at][i].value && |m - {key}| == |m| - 1
  {
    var at := h(key) % |t|;
    var b := t[at];
    assert BucketOk(h, t, at) && FindsAsIn(h, t, m, key);
    LookupFinds(b, key);
    assert (m - {key}).Keys == m.Keys - {key};
    forall k ensures Lookup(Without(b, i), k) == if k == key then None else Lookup(b, k) {
      WithoutBucket(b, i, k);
    }
    BucketStaysOk(h, b, i, NULL, at, |t|);
    TableUpdate(h, t, m, key, Without(b, i), m - {key});
    WithoutBucket(b, i, key);
    OwnedUpdate(t, at, Without(b, i));
    var t' := t[at := Without(b, i)];
    SumExchange(Owned(t'), Owned(t), Values(Without(b, i)), Values(b), multiset{b[i].value}, multiset{});
    assert Owned(t) + multiset{} == Owned(t);
    assert |Owned(t') + multiset{b[i].value}| == |Owned(t)|;
  }
}
