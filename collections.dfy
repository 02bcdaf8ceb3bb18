/**
 * The chained-bucket `HashMap<K, V>` of the minimal standard library.
 *
 * The table is a sequence of buckets, each a sequence of key/value pairs,
 * plus an entry counter `size` and the hash seed `stamp`. Keys are byte
 * strings (the hash reads only a key's bytes); values are of any type.
 *
 * The pure part (bucket search, the table seen as one flat sequence and as a
 * map, and what inserting or removing does to a table) is stated and proved
 * on values; the class `HashMap` is the imperative code, each method proved
 * to leave its fields as the pure part says.
 */
module Collections {

  type Key = seq<bv8>

  datatype Option<T> = None | Some(value: T)

  /** Number of buckets `new()` allocates. */
  const BUCKETS: nat := 16

  /** The seed `new()` stores in `stamp`. */
  const STAMP: bv64 := 1145141919810

  // ---------------------------------------------------------------------
  // Hashing
  // ---------------------------------------------------------------------

  /**
   * One round of the hash: `(h << 5).wrapping_add(h) ^ byte`. The shift and
   * add is djb2's multiplication by 33, modulo 2^64.
   */
  function HashStep(h: bv64, b: bv8): (r: bv64)
    ensures r == (h * 33) ^ (b as bv64)
  {
    ((h << 5) + h) ^ (b as bv64)
  }

  /**
   * The hash accumulator after folding every byte of `key`, in order, from
   * `seed`: the empty key leaves the seed, and a one-byte key takes one round.
   * `Djb2Concat` states the fold over longer keys.
   */
  function Djb2(seed: bv64, key: Key): (r: bv64)
    ensures key == [] ==> r == seed
    ensures |key| == 1 ==> r == HashStep(seed, key[0])
    decreases |key|
  {
    if key == [] then seed else HashStep(Djb2(seed, key[..|key| - 1]), key[|key| - 1])
  }

  /** Folding a concatenation is folding the second part from the result of the first. */
  lemma {:induction false} Djb2Concat(seed: bv64, a: Key, b: Key)
    ensures Djb2(seed, a + b) == Djb2(Djb2(seed, a), b)
    decreases |b|
  {
    if b != [] {
      var c := b[..|b| - 1];
      assert (a + b)[..|a + b| - 1] == a + c;
      Djb2Concat(seed, a, c);
    } else {
      assert a + b == a;
    }
  }

  /** The bucket of `key` in a table of `n` buckets: the hash reduced modulo `n`. */
  function BucketOf(seed: bv64, key: Key, n: nat): (i: nat)
    requires n > 0
    ensures i < n
  {
    (Djb2(seed, key) as int) % n
  }

  // ---------------------------------------------------------------------
  // Buckets
  // ---------------------------------------------------------------------

  /** How many entries of `entries` have key `k`. */
  function Count<V>(entries: seq<(Key, V)>, k: Key): nat
  {
    if entries == [] then 0
    else (if entries[0].0 == k then 1 else 0) + Count(entries[1..], k)
  }

  /** The value of the first entry with key `k`, searching from the front. */
  function Find<V>(entries: seq<(Key, V)>, k: Key): Option<V>
  {
    if entries == [] then None
    else if entries[0].0 == k then Some(entries[0].1)
    else Find(entries[1..], k)
  }

  /** `iter().position(..)`: the index of the first entry with key `k`. */
  function Position<V>(entries: seq<(Key, V)>, k: Key): (r: Option<nat>)
    ensures r.Some? ==> r.value < |entries| && entries[r.value].0 == k
    ensures r.Some? ==> forall j :: 0 <= j < r.value ==> entries[j].0 != k
    ensures r.None? ==> forall j :: 0 <= j < |entries| ==> entries[j].0 != k
  {
    if entries == [] then None
    else if entries[0].0 == k then Some(0)
    else match Position(entries[1..], k)
      case None => None
      case Some(j) => Some(j + 1)
  }

  /** No key occurs twice. */
  ghost predicate Unique<V>(entries: seq<(Key, V)>)
  {
    forall k :: Count(entries, k) <= 1
  }

  /** A key no entry carries has count zero and is not found. */
  lemma {:induction false} AbsentKey<V>(entries: seq<(Key, V)>, k: Key)
    requires forall j :: 0 <= j < |entries| ==> entries[j].0 != k
    ensures Count(entries, k) == 0 && Find(entries, k) == None
  {
    if entries != [] {
      AbsentKey(entries[1..], k);
    }
  }

  /** A key is found exactly when it is counted. */
  lemma {:induction false} FindCounted<V>(entries: seq<(Key, V)>, k: Key)
    ensures Find(entries, k).Some? <==> Count(entries, k) > 0
  {
    if entries != [] {
      FindCounted(entries[1..], k);
    }
  }

  /** Searching a concatenation searches the first part, then the second. */
  lemma {:induction false} FindConcat<V>(a: seq<(Key, V)>, b: seq<(Key, V)>, k: Key)
    ensures Find(a + b, k) == (if Find(a, k).Some? then Find(a, k) else Find(b, k))
    ensures Count(a + b, k) == Count(a, k) + Count(b, k)
  {
    if a == [] {
      assert a + b == b;
    } else {
      assert (a + b)[1..] == a[1..] + b;
      FindConcat(a[1..], b, k);
    }
  }

  /** The value at the first entry with key `k` is what `Find` returns. */
  lemma {:induction false} FindAtPosition<V>(entries: seq<(Key, V)>, k: Key, j: nat)
    requires j < |entries| && entries[j].0 == k
    requires forall i :: 0 <= i < j ==> entries[i].0 != k
    ensures Find(entries, k) == Some(entries[j].1)
  {
    if j > 0 {
      FindAtPosition(entries[1..], k, j - 1);
    }
  }

  /**
   * `insert` on one bucket: overwrite the value of the first entry with key
   * `k` in place, or append `(k, v)` when there is none.
   */
  function BucketInsert<V>(b: seq<(Key, V)>, k: Key, v: V): (r: seq<(Key, V)>)
    ensures |r| == |b| + (if Position(b, k).None? then 1 else 0)
    ensures (k, v) in r
    ensures forall i :: 0 <= i < |b| && b[i].0 != k ==> r[i] == b[i]
  {
    match Position(b, k)
    case Some(j) =>
      assert b[j := (k, v)][j] == (k, v);
      b[j := (k, v)]
    case None => b + [(k, v)]
  }

  /** `remove` on one bucket: delete the first entry with key `k`, if any. */
  function BucketRemove<V>(b: seq<(Key, V)>, k: Key): (r: seq<(Key, V)>)
    ensures |r| == |b| - (if Position(b, k).Some? then 1 else 0)
    ensures forall e :: e in r ==> e in b
    ensures forall e :: e in b && e.0 != k ==> e in r
  {
    match Position(b, k)
    case Some(j) =>
      assert b == b[..j] + [b[j]] + b[j + 1..];
      b[..j] + b[j + 1..]
    case None => b
  }

  /**
   * After `BucketInsert`, `k` is found with `v` and counted once more only if
   * it was absent; every other key is found and counted as before.
   */
  lemma BucketInsertEffect<V>(b: seq<(Key, V)>, k: Key, v: V, k': Key)
    ensures Find(BucketInsert(b, k, v), k') == (if k' == k then Some(v) else Find(b, k'))
    ensures Count(BucketInsert(b, k, v), k') ==
      Count(b, k') + (if k' == k && Position(b, k).None? then 1 else 0)
    ensures |BucketInsert(b, k, v)| == |b| + (if Position(b, k).None? then 1 else 0)
  {
    match Position(b, k)
    case Some(j) =>
      var b' := b[j := (k, v)];
      assert b == b[..j] + [b[j]] + b[j + 1..];
      assert b' == b[..j] + [(k, v)] + b[j + 1..];
      FindConcat(b[..j] + [b[j]], b[j + 1..], k');
      FindConcat(b[..j] + [(k, v)], b[j + 1..], k');
      FindConcat(b[..j], [b[j]], k');
      FindConcat(b[..j], [(k, v)], k');
      AbsentKey(b[..j], k);
    case None =>
      FindConcat(b, [(k, v)], k');
      AbsentKey(b, k);
  }

  /**
   * After `BucketRemove` of a key that occurs at most once, that key is
   * neither found nor counted; every other key is found and counted as before.
   */
  lemma BucketRemoveEffect<V>(b: seq<(Key, V)>, k: Key, k': Key)
    requires Count(b, k) <= 1
    ensures Find(BucketRemove(b, k), k') == (if k' == k then None else Find(b, k'))
    ensures Count(BucketRemove(b, k), k') == (if k' == k then 0 else Count(b, k'))
    ensures |BucketRemove(b, k)| == |b| - (if Position(b, k).Some? then 1 else 0)
  {
    match Position(b, k)
    case Some(j) =>
      assert b == b[..j] + [b[j]] + b[j + 1..];
      FindConcat(b[..j] + [b[j]], b[j + 1..], k');
      FindConcat(b[..j], [b[j]], k');
      FindConcat(b[..j], b[j + 1..], k');
      FindConcat(b[..j] + [b[j]], b[j + 1..], k);
      FindConcat(b[..j], [b[j]], k);
      FindConcat(b[..j], b[j + 1..], k);
      AbsentKey(b[..j], k);
      FindCounted(b[j + 1..], k);
      FindCounted(BucketRemove(b, k), k);
    case None =>
      AbsentKey(b, k);
  }

  // ---------------------------------------------------------------------
  // The table
  // ---------------------------------------------------------------------

  /** `iter()`: the entries of every bucket, bucket by bucket. */
  function Flatten<V>(tab: seq<seq<(Key, V)>>): (r: seq<(Key, V)>)
    ensures forall i {:trigger multiset(tab[i])} :: 0 <= i < |tab| ==> multiset(tab[i]) <= multiset(r)
    decreases |tab|
  {
    if tab == [] then []
    else
      var front := tab[..|tab| - 1];
      assert forall i :: 0 <= i < |front| ==> front[i] == tab[i];
      Flatten(front) + tab[|tab| - 1]
  }

  /** The association list `entries` as a map; the first entry of a key wins. */
  ghost function ToMap<V>(entries: seq<(Key, V)>): map<Key, V>
  {
    if entries == [] then map[] else ToMap(entries[1..])[entries[0].0 := entries[0].1]
  }

  /** Every entry of bucket `i` hashes to `i`, for the table size `n`. */
  ghost predicate Placed<V>(tab: seq<seq<(Key, V)>>, seed: bv64, n: nat)
  {
    n > 0 && forall i, j :: 0 <= i < |tab| && 0 <= j < |tab[i]| ==> BucketOf(seed, tab[i][j].0, n) == i
  }

  /** The two invariants of the table: entries sit in their own bucket, and no bucket repeats a key. */
  ghost predicate TableOk<V>(tab: seq<seq<(Key, V)>>, seed: bv64)
  {
    |tab| > 0 && Placed(tab, seed, |tab|) && forall i :: 0 <= i < |tab| ==> Unique(tab[i])
  }

  /**
   * In a table whose entries sit in their own buckets (for size `n`), the
   * search over all entries finds and counts exactly what the search of
   * key `k`'s own bucket does.
   */
  lemma {:induction false} LookupInOwnBucket<V>(tab: seq<seq<(Key, V)>>, seed: bv64, n: nat, k: Key)
    requires Placed(tab, seed, n)
    ensures var b := BucketOf(seed, k, n);
      Find(Flatten(tab), k) == (if b < |tab| then Find(tab[b], k) else None)
      && Count(Flatten(tab), k) == (if b < |tab| then Count(tab[b], k) else 0)
    decreases |tab|
  {
    if tab != [] {
      var front, last := tab[..|tab| - 1], tab[|tab| - 1];
      PlacedSplit(tab, seed, n);
      LookupInOwnBucket(front, seed, n, k);
      assert Flatten(tab) == Flatten(front) + last;
      FindConcat(Flatten(front), last, k);
      if BucketOf(seed, k, n) != |tab| - 1 {
        AbsentKey(last, k);
      }
    }
  }

  /** A placed table without its last bucket is placed. */
  lemma PlacedSplit<V>(tab: seq<seq<(Key, V)>>, seed: bv64, n: nat)
    requires Placed(tab, seed, n) && tab != []
    ensures Placed(tab[..|tab| - 1], seed, n)
  {
    var front: seq<seq<(Key, V)>> := tab[..|tab| - 1];
    forall i: nat, j: nat | i < |front| && j < |front[i]|
      ensures BucketOf(seed, front[i][j].0, n) == i
    {
      assert front[i] == tab[i];
    }
  }

  /** `Find` and `ToMap` agree. */
  lemma {:induction false} ToMapFind<V>(entries: seq<(Key, V)>, k: Key)
    ensures k in ToMap(entries) <==> Find(entries, k).Some?
    ensures k in ToMap(entries) ==> ToMap(entries)[k] == Find(entries, k).value
  {
    if entries != [] {
      ToMapFind(entries[1..], k);
    }
  }

  /** With no repeated key, the map has one key per entry. */
  lemma {:induction false} ToMapSize<V>(entries: seq<(Key, V)>)
    requires Unique(entries)
    ensures |ToMap(entries)| == |entries|
  {
    if entries != [] {
      var k := entries[0].0;
      forall k' ensures Count(entries[1..], k') <= 1 {
        assert Count(entries, k') <= 1;
      }
      ToMapSize(entries[1..]);
      assert Count(entries, k) <= 1;
      FindCounted(entries[1..], k);
      ToMapFind(entries[1..], k);
    }
  }

  /** Replacing bucket `h` with `b` changes the flat length by the difference of the bucket lengths. */
  lemma {:induction false} FlattenReplaceLength<V>(tab: seq<seq<(Key, V)>>, h: nat, b: seq<(Key, V)>)
    requires h < |tab|
    ensures |Flatten(tab[h := b])| + |tab[h]| == |Flatten(tab)| + |b|
    decreases |tab|
  {
    var t := tab[h := b];
    assert t[..|t| - 1] == if h == |tab| - 1 then tab[..|tab| - 1] else tab[..|tab| - 1][h := b];
    if h < |tab| - 1 {
      FlattenReplaceLength(tab[..|tab| - 1], h, b);
    }
  }

  /** The table after `insert(k, v)`: bucket `BucketOf(k)` gets `BucketInsert`. */
  function TableInsert<V>(tab: seq<seq<(Key, V)>>, seed: bv64, k: Key, v: V): (t: seq<seq<(Key, V)>>)
    requires |tab| > 0
    ensures |t| == |tab| && (k, v) in t[BucketOf(seed, k, |tab|)]
    ensures forall i :: 0 <= i < |tab| && i != BucketOf(seed, k, |tab|) ==> t[i] == tab[i]
  {
    var h := BucketOf(seed, k, |tab|);
    tab[h := BucketInsert(tab[h], k, v)]
  }

  /** The table after `remove(k)`: bucket `BucketOf(k)` gets `BucketRemove`. */
  function TableRemove<V>(tab: seq<seq<(Key, V)>>, seed: bv64, k: Key): (t: seq<seq<(Key, V)>>)
    requires |tab| > 0
    ensures |t| == |tab|
    ensures var h := BucketOf(seed, k, |tab|);
      (forall e :: e in t[h] ==> e in tab[h]) && (forall e :: e in tab[h] && e.0 != k ==> e in t[h])
    ensures forall i :: 0 <= i < |tab| && i != BucketOf(seed, k, |tab|) ==> t[i] == tab[i]
  {
    var h := BucketOf(seed, k, |tab|);
    tab[h := BucketRemove(tab[h], k)]
  }

  /** `insert(k, v)` keeps both table invariants: placement by hash and no repeated key in a bucket. */
  lemma InsertKeepsOk<V>(tab: seq<seq<(Key, V)>>, seed: bv64, k: Key, v: V)
    requires TableOk(tab, seed)
    ensures TableOk(TableInsert(tab, seed, k, v), seed)
  {
    var n, h := |tab|, BucketOf(seed, k, |tab|);
    var t: seq<seq<(Key, V)>> := TableInsert(tab, seed, k, v);
    forall i: nat, j: nat | i < |t| && j < |t[i]| ensures BucketOf(seed, t[i][j].0, n) == i {
      if i == h {
        var b := tab[h];
        match Position(b, k)
        case Some(p) =>
          if j != p { assert t[i][j] == b[j]; }
        case None =>
          if j < |b| { assert t[i][j] == b[j]; }
      }
    }
    forall i | 0 <= i < |t| ensures Unique(t[i]) {
      if i == h {
        forall k' ensures Count(t[i], k') <= 1 {
          BucketInsertEffect(tab[h], k, v, k');
          assert Count(tab[h], k') <= 1;
          if k' == k && Position(tab[h], k).None? {
            AbsentKey(tab[h], k);
          }
        }
      }
    }
  }

  /**
   * `insert(k, v)` keeps both table invariants, maps `k` to `v` and leaves
   * every other key as it was; the number of entries grows by one exactly
   * when `k` was absent.
   */
  lemma InsertKeepsTable<V>(tab: seq<seq<(Key, V)>>, seed: bv64, k: Key, v: V)
    requires TableOk(tab, seed)
    ensures var t := TableInsert(tab, seed, k, v);
      TableOk(t, seed) && |t| == |tab|
      && ToMap(Flatten(t)) == ToMap(Flatten(tab))[k := v]
      && |Flatten(t)| == |Flatten(tab)| + (if k in ToMap(Flatten(tab)) then 0 else 1)
  {
    var n, h := |tab|, BucketOf(seed, k, |tab|);
    var t: seq<seq<(Key, V)>> := TableInsert(tab, seed, k, v);
    InsertKeepsOk(tab, seed, k, v);
    forall k' ensures (k' in ToMap(Flatten(t))) == (k' in ToMap(Flatten(tab))[k := v])
      && (k' in ToMap(Flatten(t)) ==> ToMap(Flatten(t))[k'] == ToMap(Flatten(tab))[k := v][k'])
    {
      ToMapFind(Flatten(t), k');
      ToMapFind(Flatten(tab), k');
      LookupInOwnBucket(t, seed, n, k');
      LookupInOwnBucket(tab, seed, n, k');
      BucketInsertEffect(tab[h], k, v, k');
    }
    BucketInsertEffect(tab[h], k, v, k);
    FlattenReplaceLength(tab, h, BucketInsert(tab[h], k, v));
    MapFromBucket(tab, seed, k);
  }

  /** `remove(k)` keeps both table invariants. */
  lemma RemoveKeepsOk<V>(tab: seq<seq<(Key, V)>>, seed: bv64, k: Key)
    requires TableOk(tab, seed)
    ensures TableOk(TableRemove(tab, seed, k), seed)
  {
    var n, h := |tab|, BucketOf(seed, k, |tab|);
    var t: seq<seq<(Key, V)>> := TableRemove(tab, seed, k);
    var b := tab[h];
    assert Count(b, k) <= 1;
    forall i: nat, j: nat | i < |t| && j < |t[i]| ensures BucketOf(seed, t[i][j].0, n) == i {
      if i == h {
        match Position(b, k)
        case Some(p) =>
          if j < p { assert t[i][j] == b[j]; } else { assert t[i][j] == b[j + 1]; }
        case None =>
      }
    }
    forall i | 0 <= i < |t| ensures Unique(t[i]) {
      if i == h {
        forall k' ensures Count(t[i], k') <= 1 {
          BucketRemoveEffect(b, k, k');
          assert Count(b, k') <= 1;
        }
      }
    }
  }

  /**
   * `remove(k)` keeps both table invariants and drops `k` from the map,
   * leaving every other key as it was; the number of entries shrinks by one
   * exactly when `k` was present.
   */
  lemma RemoveKeepsTable<V>(tab: seq<seq<(Key, V)>>, seed: bv64, k: Key)
    requires TableOk(tab, seed)
    ensures var t := TableRemove(tab, seed, k);
      TableOk(t, seed) && |t| == |tab|
      && ToMap(Flatten(t)) == ToMap(Flatten(tab)) - {k}
      && |Flatten(t)| == |Flatten(tab)| - (if k in ToMap(Flatten(tab)) then 1 else 0)
  {
    var n, h := |tab|, BucketOf(seed, k, |tab|);
    var t: seq<seq<(Key, V)>> := TableRemove(tab, seed, k);
    var b := tab[h];
    assert Count(b, k) <= 1;
    RemoveKeepsOk(tab, seed, k);
    forall k' ensures (k' in ToMap(Flatten(t))) == (k' in ToMap(Flatten(tab)) - {k})
      && (k' in ToMap(Flatten(t)) ==> ToMap(Flatten(t))[k'] == (ToMap(Flatten(tab)) - {k})[k'])
    {
      ToMapFind(Flatten(t), k');
      ToMapFind(Flatten(tab), k');
      LookupInOwnBucket(t, seed, n, k');
      LookupInOwnBucket(tab, seed, n, k');
      BucketRemoveEffect(b, k, k');
    }
    BucketRemoveEffect(b, k, k);
    FlattenReplaceLength(tab, h, BucketRemove(b, k));
    MapFromBucket(tab, seed, k);
  }

  /** No key occurs twice in the whole table. */
  lemma TableUnique<V>(tab: seq<seq<(Key, V)>>, seed: bv64)
    requires TableOk(tab, seed)
    ensures Unique(Flatten(tab))
  {
    forall k ensures Count(Flatten(tab), k) <= 1 {
      LookupInOwnBucket(tab, seed, |tab|, k);
    }
  }

  /** Every entry's key is counted at least once. */
  lemma {:induction false} EntryCounted<V>(entries: seq<(Key, V)>, p: nat)
    requires p < |entries|
    ensures Count(entries, entries[p].0) >= 1
  {
    if p > 0 {
      EntryCounted(entries[1..], p - 1);
    }
  }

  /** The value an entry carries is the value the map gives its key. */
  lemma {:induction false} EntryInMap<V>(entries: seq<(Key, V)>, p: nat)
    requires Unique(entries) && p < |entries|
    ensures entries[p].0 in ToMap(entries) && ToMap(entries)[entries[p].0] == entries[p].1
  {
    if p > 0 {
      var k, rest := entries[p].0, entries[1..];
      forall k' ensures Count(rest, k') <= 1 {
        assert Count(entries, k') <= 1;
      }
      EntryInMap(rest, p - 1);
      EntryCounted(rest, p - 1);
      assert Count(entries, k) <= 1;
      assert entries[0].0 != k;
    }
  }

  /**
   * In a well-formed table, `k` is a key of the map exactly when it occurs
   * in its own bucket, and its value is that of its entry there.
   */
  lemma MapFromBucket<V>(tab: seq<seq<(Key, V)>>, seed: bv64, k: Key)
    requires TableOk(tab, seed)
    ensures var b := tab[BucketOf(seed, k, |tab|)];
      (k in ToMap(Flatten(tab)) <==> Position(b, k).Some?)
      && (k in ToMap(Flatten(tab)) ==> ToMap(Flatten(tab))[k] == b[Position(b, k).value].1)
  {
    var b := tab[BucketOf(seed, k, |tab|)];
    LookupInOwnBucket(tab, seed, |tab|, k);
    ToMapFind(Flatten(tab), k);
    match Position(b, k)
    case Some(j) => FindAtPosition(b, k, j);
    case None => AbsentKey(b, k);
  }

  // ---------------------------------------------------------------------
  // The map object
  // ---------------------------------------------------------------------

  /** `HashMap<K, V>` with byte-string keys. */
  class HashMap<V> {
    var tab: seq<seq<(Key, V)>>
    var size: nat
    const stamp: bv64

    ghost predicate Valid()
      reads this
    {
      |tab| == BUCKETS && TableOk(tab, stamp) && size == |Flatten(tab)|
    }

    /** The contents, as a map from keys to values. */
    ghost function View(): map<Key, V>
      reads this
    {
      ToMap(Flatten(tab))
    }

    /** `new()`: sixteen empty buckets, no entries, the fixed seed. */
    constructor ()
      ensures Valid() && tab == seq(BUCKETS, _ => []) && size == 0 && stamp == STAMP
      ensures View() == map[]
    {
      tab := seq(BUCKETS, _ => []);
      size := 0;
      stamp := STAMP;
      new;
      assert Flatten(tab[..0]) == [];
      FlattenEmpty(tab);
    }

    /** All-empty buckets flatten to nothing. */
    static lemma {:induction false} FlattenEmpty(tab: seq<seq<(Key, V)>>)
      requires forall i :: 0 <= i < |tab| ==> tab[i] == []
      ensures Flatten(tab) == []
      decreases |tab|
    {
      if tab != [] {
        FlattenEmpty(tab[..|tab| - 1]);
      }
    }

    /** `hash(key)`: the bucket index of `key`, always below the number of buckets. */
    method Hash(key: Key) returns (h: nat)
      requires |tab| > 0
      ensures h == BucketOf(stamp, key, |tab|) && h < |tab|
    {
      var hash := stamp;
      for i := 0 to |key|
        invariant hash == Djb2(stamp, key[..i])
      {
        assert key[..i + 1][..i] == key[..i];
        hash := HashStep(hash, key[i]);
      }
      assert key[..|key|] == key;
      h := (hash as int) % |tab|;
    }

    /** `get(key)`: the value `key` maps to, if any. */
    method Get(key: Key) returns (r: Option<V>)
      requires Valid()
      ensures r == (if key in View() then Some(View()[key]) else None)
    {
      var h := Hash(key);
      var bucket := tab[h];
      MapFromBucket(tab, stamp, key);
      for i := 0 to |bucket|
        invariant forall j :: 0 <= j < i ==> bucket[j].0 != key
      {
        if bucket[i].0 == key {
          PositionIsFirst(bucket, key, i);
          return Some(bucket[i].1);
        }
      }
      return None;
    }

    /**
     * `insert(key, value)`: overwrite the value of `key` in place when it is
     * present, otherwise append the pair to its bucket and count it.
     */
    method Insert(key: Key, value: V)
      requires Valid()
      modifies this
      ensures Valid()
      ensures tab == TableInsert(old(tab), stamp, key, value)
      ensures size == old(size) + (if key in old(View()) then 0 else 1)
      ensures View() == old(View())[key := value]
    {
      InsertKeepsTable(tab, stamp, key, value);
      MapFromBucket(tab, stamp, key);
      var h := Hash(key);
      var bucket := tab[h];
      for i := 0 to |bucket|
        invariant forall j :: 0 <= j < i ==> bucket[j].0 != key
        invariant tab == old(tab) && size == old(size)
      {
        if bucket[i].0 == key {
          PositionIsFirst(bucket, key, i);
          tab := tab[h := bucket[i := (key, value)]];
          return;
        }
      }
      assert Position(bucket, key).None?;
      tab := tab[h := bucket + [(key, value)]];
      size := size + 1;
    }

    /** The first index carrying `k` is what `Position` returns. */
    static lemma PositionIsFirst(b: seq<(Key, V)>, k: Key, i: nat)
      requires i < |b| && b[i].0 == k
      requires forall j :: 0 <= j < i ==> b[j].0 != k
      ensures Position(b, k) == Some(i)
    {
    }

    /**
     * `remove(key)`: when `key` is present, delete its entry, uncount it and
     * return its value; otherwise return `None` and change nothing.
     */
    method Remove(key: Key) returns (r: Option<V>)
      requires Valid()
      modifies this
      ensures Valid()
      ensures r == (if key in old(View()) then Some(old(View())[key]) else None)
      ensures tab == TableRemove(old(tab), stamp, key)
      ensures size == old(size) - (if key in old(View()) then 1 else 0)
      ensures View() == old(View()) - {key}
    {
      RemoveKeepsTable(tab, stamp, key);
      MapFromBucket(tab, stamp, key);
      var h := Hash(key);
      var bucket := tab[h];
      match Position(bucket, key)
      case Some(index) =>
        r := Some(bucket[index].1);
        tab := tab[h := bucket[..index] + bucket[index + 1..]];
        size := size - 1;
      case None =>
        r := None;
    }

    /**
     * `iter()`: every entry, bucket by bucket. It yields `size` items, no key
     * twice, and each item is a key with the value the map gives it.
     */
    function Iter(): (r: seq<(Key, V)>)
      reads this
      requires Valid()
      ensures |r| == size == |View()|
      ensures Unique(r)
      ensures forall p :: 0 <= p < |r| ==> r[p].0 in View() && View()[r[p].0] == r[p].1
    {
      TableUnique(tab, stamp);
      ToMapSize(Flatten(tab));
      forall p | 0 <= p < |Flatten(tab)|
        ensures Flatten(tab)[p].0 in View() && View()[Flatten(tab)[p].0] == Flatten(tab)[p].1
      {
        EntryInMap(Flatten(tab), p);
      }
      Flatten(tab)
    }
  }
}
