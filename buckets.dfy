/** Rows grouped by a key tuple: the dict filled by
    `for idx in range(n): d.setdefault(key(idx), []).append(idx)`, which the
    hash join builds over its right table and the group-by over its table. */
module Buckets {
  import opened Values
  import opened Sequences
  import opened Tables
  import opened Counting

  /** The key tuple of row i: its cells in the key columns, in key order. */
  function KeyOf(t: Table, on: seq<Name>, i: nat): (k: seq<Value>)
    requires t.Valid() && i < t.length
    requires forall j :: 0 <= j < |on| ==> on[j] in t.data
    ensures |k| == |on| && forall j :: 0 <= j < |on| ==> k[j] == t.data[on[j]][i]
  {
    seq(|on|, j requires 0 <= j < |on| => t.data[on[j]][i])
  }

  /** The key tuples of the rows up to `shape[0]`. */
  function KeysOf(t: Table, on: seq<Name>): (ks: seq<seq<Value>>)
    requires t.Valid()
    requires forall j :: 0 <= j < |on| ==> on[j] in t.data
    ensures |ks| == Rows(t) && forall i :: 0 <= i < Rows(t) ==> ks[i] == KeyOf(t, on, i)
  {
    seq(Rows(t), i requires 0 <= i < Rows(t) => KeyOf(t, on, i))
  }

  /** A key tuple. */
  type Tuple = seq<Value>

  /** The positions below n whose key is `key`, ascending. */
  function Bucket<K(==)>(keys: seq<K>, key: K, n: nat): seq<nat>
    requires n <= |keys|
  {
    if n == 0 then []
    else
      var rest := Bucket(keys, key, n - 1);
      rest + if keys[n - 1] == key then [n - 1] else []
  }

  /** A bucket lists rows below n, ascending, each carrying the key. */
  lemma {:induction false} BucketSound<K>(keys: seq<K>, key: K, n: nat)
    requires n <= |keys|
    ensures AllBelow(Bucket(keys, key, n), n) && Increasing(Bucket(keys, key, n))
    ensures forall k :: 0 <= k < |Bucket(keys, key, n)| ==> keys[Bucket(keys, key, n)[k]] == key
    decreases n
  {
    if n > 0 {
      BucketSound(keys, key, n - 1);
    }
  }

  /** Every row below n carrying the key is in its bucket. */
  lemma {:induction false} BucketComplete<K>(keys: seq<K>, key: K, n: nat, i: nat)
    requires i < n <= |keys| && keys[i] == key
    ensures i in Bucket(keys, key, n)
    decreases n
  {
    if i < n - 1 {
      BucketComplete(keys, key, n - 1, i);
    }
  }

  /** A bucket is empty exactly when no row below n has the key. */
  lemma BucketEmpty<K>(keys: seq<K>, key: K, n: nat)
    requires n <= |keys|
    ensures Bucket(keys, key, n) == [] <==> key !in keys[..n]
  {
    var b := Bucket(keys, key, n);
    if key in keys[..n] {
      var i :| 0 <= i < n && keys[..n][i] == key;
      BucketComplete(keys, key, n, i);
    }
    if b != [] {
      BucketSound(keys, key, n);
      assert keys[..n][b[0]] == key;
    }
  }

  /** Row r is in the bucket of `key` exactly when it is below n and carries the key. */
  lemma BucketHas<K>(keys: seq<K>, key: K, n: nat, r: nat)
    requires n <= |keys|
    ensures r in Bucket(keys, key, n) <==> r < n && keys[r] == key
  {
    var b := Bucket(keys, key, n);
    if r in b {
      BucketSound(keys, key, n);
      var k :| 0 <= k < |b| && b[k] == r;
    }
    if r < n && keys[r] == key {
      BucketComplete(keys, key, n, r);
    }
  }

  /** The dict after the first n rows: the row is appended to the list of
      its key, which is created empty when the key is new. */
  function Buckets(keys: seq<Tuple>, n: nat): (m: map<Tuple, seq<nat>>)
    requires n <= |keys|
  {
    if n == 0 then map[]
    else
      var m := Buckets(keys, n - 1);
      var key := keys[n - 1];
      m[key := (if key in m then m[key] else []) + [n - 1]]
  }

  /** The grouping loop, also returning the dict's key order. */
  method Group(keys: seq<Tuple>) returns (order: seq<Tuple>, m: map<Tuple, seq<nat>>)
    ensures m == Buckets(keys, |keys|)
    ensures order == Uniques(keys)
  {
    order := [];
    m := map[];
    assert keys[..0] == [];
    for idx := 0 to |keys|
      invariant Grouped(keys, idx, order, m)
    {
      order, m := GroupOne(keys, idx, order, m);
    }
    assert keys[..|keys|] == keys;
  }

  /** The state of the grouping loop after idx rows. */
  ghost predicate Grouped(keys: seq<Tuple>, idx: nat, order: seq<Tuple>, m: map<Tuple, seq<nat>>) {
    idx <= |keys| && m == Buckets(keys, idx) && order == Uniques(keys[..idx])
  }

  /** One pass: `d.setdefault(key, []).append(idx)`. */
  method GroupOne(keys: seq<Tuple>, idx: nat, order: seq<Tuple>, m: map<Tuple, seq<nat>>)
    returns (order': seq<Tuple>, m': map<Tuple, seq<nat>>)
    requires idx < |keys| && Grouped(keys, idx, order, m)
    ensures Grouped(keys, idx + 1, order', m')
  {
    var key := keys[idx];
    BucketsMembers(keys, idx, key);
    UniquesStep(keys, idx);
    if key in m {
      m' := m[key := m[key] + [idx]];
      order' := order;
    } else {
      assert [] + [idx] == [idx];
      m' := m[key := [idx]];
      order' := order + [key];
    }
  }

  /** The dict's keys after n rows are the keys seen so far. */
  lemma {:induction false} BucketsMembers(keys: seq<Tuple>, n: nat, k: Tuple)
    requires n <= |keys|
    ensures k in Buckets(keys, n) <==> k in keys[..n]
    decreases n
  {
    if n > 0 {
      BucketsMembers(keys, n - 1, k);
      assert keys[..n] == keys[..n - 1] + [keys[n - 1]];
    }
  }

  /** What the dict holds after n rows: exactly the keys seen so far, each
      with the ascending list of the rows that carry it. */
  lemma {:induction false} BucketsContents(keys: seq<Tuple>, n: nat, k: Tuple)
    requires n <= |keys|
    ensures k in Buckets(keys, n) <==> k in keys[..n]
    ensures k in Buckets(keys, n) ==> Buckets(keys, n)[k] == Bucket(keys, k, n)
    decreases n
  {
    if n > 0 {
      BucketsContents(keys, n - 1, k);
      BucketsMembers(keys, n - 1, k);
      assert keys[..n] == keys[..n - 1] + [keys[n - 1]];
      if k == keys[n - 1] && k !in Buckets(keys, n - 1) {
        BucketEmpty(keys, k, n - 1);
      }
    }
  }

  lemma UniquesStep(keys: seq<Tuple>, idx: nat)
    requires idx < |keys|
    ensures Uniques(keys[..idx + 1]) == Uniques(keys[..idx]) + if keys[idx] in keys[..idx] then [] else [keys[idx]]
  {
    var key := keys[idx];
    assert keys[..idx + 1][..idx] == keys[..idx];
    var u := Uniques(keys[..idx]);
    assert key in u <==> key in keys[..idx] by {
      if key in keys[..idx] {
        var i :| 0 <= i < idx && keys[..idx][i] == key;
      }
    }
  }

  /** The buckets partition the rows: every row lies in the bucket of its
      own key and in no other. */
  lemma BucketsPartition(keys: seq<Tuple>, i: nat, k: Tuple)
    requires i < |keys|
    ensures keys[i] in Buckets(keys, |keys|) && i in Buckets(keys, |keys|)[keys[i]]
    ensures k in Buckets(keys, |keys|) && i in Buckets(keys, |keys|)[k] ==> k == keys[i]
  {
    assert keys[..|keys|] == keys;
    BucketsContents(keys, |keys|, keys[i]);
    BucketsContents(keys, |keys|, k);
    BucketComplete(keys, keys[i], |keys|, i);
    if k in Buckets(keys, |keys|) && i in Buckets(keys, |keys|)[k] {
      var b := Bucket(keys, k, |keys|);
      BucketSound(keys, k, |keys|);
      var p :| 0 <= p < |b| && b[p] == i;
    }
  }

  /** A bucket holds as many rows as the key occurs. */
  lemma {:induction false} BucketSize<K>(keys: seq<K>, key: K, n: nat)
    requires n <= |keys|
    ensures |Bucket(keys, key, n)| == multiset(keys[..n])[key]
    decreases n
  {
    if n > 0 {
      BucketSize(keys, key, n - 1);
      BucketSizeStep(keys, key, n);
    }
  }

  lemma BucketSizeStep<K>(keys: seq<K>, key: K, n: nat)
    requires 0 < n <= |keys| && |Bucket(keys, key, n - 1)| == multiset(keys[..n - 1])[key]
    ensures |Bucket(keys, key, n)| == multiset(keys[..n])[key]
  {
    var one := if keys[n - 1] == key then 1 else 0;
    assert |Bucket(keys, key, n)| == |Bucket(keys, key, n - 1)| + one;
    assert multiset(keys[..n])[key] == multiset(keys[..n - 1])[key] + one by {
      assert keys[..n] == keys[..n - 1] + [keys[n - 1]];
    }
  }
}
