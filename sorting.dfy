/** Python's stable sort (`list.sort`, `sorted`) applied to a list of row
    positions, each carrying a key. Stability, also under `reverse=True`, means
    that positions with equal keys keep their original relative order, so the
    result is the list ordered by (key, position): with a strict total order on
    keys that order is itself strict and total, and the sorted list is unique. */
module StableSort {
  import opened Values
  import opened Sequences

  /** Position i goes before position j: a smaller key, or an equal key and
      an earlier position. */
  predicate Before<K(==)>(keys: seq<K>, lt: (K, K) -> bool, i: nat, j: nat) {
    if i < |keys| && j < |keys| then lt(keys[i], keys[j]) || (keys[i] == keys[j] && i < j)
    else i < j
  }

  predicate SortedBy<K(==)>(keys: seq<K>, lt: (K, K) -> bool, xs: seq<nat>) {
    forall a, b :: 0 <= a < b < |xs| ==> Before(keys, lt, xs[a], xs[b])
  }


  function Insert<K(==)>(keys: seq<K>, lt: (K, K) -> bool, x: nat, xs: seq<nat>): seq<nat> {
    if xs == [] then [x]
    else if Before(keys, lt, x, xs[0]) then [x] + xs
    else [xs[0]] + Insert(keys, lt, x, xs[1..])
  }

  /** The stable sort of positions `xs` by their keys. */
  function Sort<K(==)>(keys: seq<K>, lt: (K, K) -> bool, xs: seq<nat>): seq<nat> {
    if xs == [] then [] else Insert(keys, lt, xs[0], Sort(keys, lt, xs[1..]))
  }

  lemma {:induction false} InsertPermutes<K>(keys: seq<K>, lt: (K, K) -> bool, x: nat, xs: seq<nat>)
    ensures multiset(Insert(keys, lt, x, xs)) == multiset(xs) + multiset{x}
    ensures |Insert(keys, lt, x, xs)| == |xs| + 1
    decreases xs
  {
    if xs != [] && !Before(keys, lt, x, xs[0]) {
      InsertPermutes(keys, lt, x, xs[1..]);
      assert xs == [xs[0]] + xs[1..];
    }
  }

  /** Sorting only reorders: the result is a permutation of the input. */
  lemma {:induction false} SortPermutes<K>(keys: seq<K>, lt: (K, K) -> bool, xs: seq<nat>)
    ensures multiset(Sort(keys, lt, xs)) == multiset(xs)
    ensures |Sort(keys, lt, xs)| == |xs|
    decreases xs
  {
    if xs != [] {
      SortPermutes(keys, lt, xs[1..]);
      InsertPermutes(keys, lt, xs[0], Sort(keys, lt, xs[1..]));
      assert xs == [xs[0]] + xs[1..];
    }
  }

  /** With a strict total order on keys, Before is a strict total order on
      the positions of `keys`. */
  lemma BeforeIsStrictTotal<K(!new)>(keys: seq<K>, lt: (K, K) -> bool, i: nat, j: nat, k: nat)
    requires StrictTotalOrder(lt)
    requires i < |keys| && j < |keys| && k < |keys|
    ensures !Before(keys, lt, i, i)
    ensures Before(keys, lt, i, j) && Before(keys, lt, j, k) ==> Before(keys, lt, i, k)
    ensures i != j ==> Before(keys, lt, i, j) || Before(keys, lt, j, i)
    ensures Before(keys, lt, i, j) ==> !Before(keys, lt, j, i)
  {
  }

  lemma {:induction false} InsertSorted<K(!new)>(keys: seq<K>, lt: (K, K) -> bool, x: nat, xs: seq<nat>)
    requires StrictTotalOrder(lt)
    requires x < |keys| && AllBelow(xs, |keys|) && x !in xs
    requires SortedBy(keys, lt, xs)
    ensures SortedBy(keys, lt, Insert(keys, lt, x, xs))
    decreases xs
  {
    if xs == [] {
    } else if Before(keys, lt, x, xs[0]) {
      forall b | 0 < b < |xs| ensures Before(keys, lt, x, xs[b]) {
        BeforeIsStrictTotal(keys, lt, x, xs[0], xs[b]);
      }
    } else {
      var rest := Insert(keys, lt, x, xs[1..]);
      InsertSorted(keys, lt, x, xs[1..]);
      InsertPermutes(keys, lt, x, xs[1..]);
      BeforeIsStrictTotal(keys, lt, x, xs[0], x);
      assert Before(keys, lt, xs[0], x);
      forall b | 0 <= b < |rest| ensures Before(keys, lt, xs[0], rest[b]) {
        assert rest[b] in multiset(rest);
        if rest[b] != x {
          assert rest[b] in xs[1..];
        }
      }
    }
  }

  /** The stable sort orders positions by (key, position). */
  lemma {:induction false} SortSorted<K(!new)>(keys: seq<K>, lt: (K, K) -> bool, xs: seq<nat>)
    requires StrictTotalOrder(lt)
    requires AllBelow(xs, |keys|) && Distinct(xs)
    ensures SortedBy(keys, lt, Sort(keys, lt, xs))
    decreases xs
  {
    if xs != [] {
      SortSorted(keys, lt, xs[1..]);
      SortPermutes(keys, lt, xs[1..]);
      var s := Sort(keys, lt, xs[1..]);
      assert xs[0] !in multiset(s) by {
        assert xs[0] !in xs[1..];
      }
      forall a | 0 <= a < |s| ensures s[a] < |keys| {
        assert s[a] in multiset(xs[1..]);
      }
      InsertSorted(keys, lt, xs[0], s);
    }
  }

  /** What the caller of a stable sort relies on: keys never decrease along
      the result, and equal keys keep the original order of their positions. */
  lemma SortedMeansStable<K(!new)>(keys: seq<K>, lt: (K, K) -> bool, ys: seq<nat>, a: nat, b: nat)
    requires StrictTotalOrder(lt)
    requires AllBelow(ys, |keys|) && SortedBy(keys, lt, ys)
    requires a < b < |ys|
    ensures !lt(keys[ys[b]], keys[ys[a]])
    ensures keys[ys[a]] == keys[ys[b]] ==> ys[a] < ys[b]
  {
    assert Before(keys, lt, ys[a], ys[b]);
  }
}
