/** Counting occurrences the way a Python dict of counters does: distinct
    values in first-seen (insertion) order, each with its number of
    occurrences, and sums of counts that survive reordering. */
module Counting {
  import opened Values
  import opened Sequences

  /** `list(range(n))` as positions. */
  function Iota(n: nat): (r: seq<nat>)
    ensures |r| == n && AllBelow(r, n) && Distinct(r)
    ensures forall i :: 0 <= i < n ==> r[i] == i
  {
    seq(n, i => i)
  }

  /** The distinct elements of `xs` in order of first occurrence: the keys of
      a dict filled by `for x in xs: counts[x] = ...`. */
  function Uniques<T(==)>(xs: seq<T>): (r: seq<T>)
    ensures Distinct(r)
    ensures forall i :: 0 <= i < |xs| ==> xs[i] in r
    ensures forall k :: 0 <= k < |r| ==> r[k] in xs
    ensures |r| <= |xs|
  {
    if xs == [] then []
    else
      var u := Uniques(xs[..|xs| - 1]);
      if xs[|xs| - 1] in u then u else u + [xs[|xs| - 1]]
  }

  /** Position of the first occurrence of x: `xs.index(x)`. */
  function FirstIndex<T(==)>(xs: seq<T>, x: T): (r: nat)
    requires x in xs
    ensures r < |xs| && xs[r] == x
    ensures forall k :: 0 <= k < r ==> xs[k] != x
  {
    if xs[0] == x then 0 else 1 + FirstIndex(xs[1..], x)
  }

  /** Sum of the multiplicities in `m` of the elements of `keys`. */
  function TotalCount<T>(keys: seq<T>, m: multiset<T>): nat {
    if keys == [] then 0 else TotalCount(keys[..|keys| - 1], m) + m[keys[|keys| - 1]]
  }

  /** Sum of `c[i]` over the positions `p`. */
  function SumAt(c: seq<int>, p: seq<nat>): int
    requires AllBelow(p, |c|)
  {
    if p == [] then 0 else SumAt(c, p[..|p| - 1]) + c[p[|p| - 1]]
  }

  lemma {:induction false} FirstIndexOfPrefix<T>(xs: seq<T>, y: T, x: T)
    requires x in xs
    ensures FirstIndex(xs + [y], x) == FirstIndex(xs, x)
  {
    if xs[0] != x {
      assert (xs + [y])[1..] == xs[1..] + [y];
      FirstIndexOfPrefix(xs[1..], y, x);
    }
  }

  lemma {:induction false} FirstIndexOfNewcomer<T>(xs: seq<T>, y: T)
    requires y !in xs
    ensures FirstIndex(xs + [y], y) == |xs|
  {
    if xs != [] {
      assert (xs + [y])[1..] == xs[1..] + [y];
      FirstIndexOfNewcomer(xs[1..], y);
    }
  }

  /** Insertion order is first-occurrence order: an earlier key of the dict
      first occurs earlier in the data. */
  lemma {:induction false} UniquesInFirstSeenOrder<T>(xs: seq<T>, j: nat, k: nat)
    requires j < k < |Uniques(xs)|
    ensures FirstIndex(xs, Uniques(xs)[j]) < FirstIndex(xs, Uniques(xs)[k])
  {
    var p := xs[..|xs| - 1];
    var y := xs[|xs| - 1];
    assert xs == p + [y];
    var u := Uniques(p);
    assert Uniques(xs)[j] in p by {
      if y !in u { assert Uniques(xs)[j] == u[j]; }
    }
    FirstIndexOfPrefix(p, y, Uniques(xs)[j]);
    if y in u || k < |u| {
      assert Uniques(xs)[j] == u[j] && Uniques(xs)[k] == u[k];
      UniquesInFirstSeenOrder(p, j, k);
      FirstIndexOfPrefix(p, y, Uniques(xs)[k]);
    } else {
      assert Uniques(xs)[k] == y;
      FirstIndexOfNewcomer(p, y);
    }
  }

  /** Adding one occurrence of y adds one to the total exactly when y is a
      key. */
  lemma {:induction false} TotalCountAdd<T>(keys: seq<T>, m: multiset<T>, y: T)
    requires Distinct(keys)
    ensures TotalCount(keys, m + multiset{y}) == TotalCount(keys, m) + (if y in keys then 1 else 0)
  {
    if keys != [] {
      var init := keys[..|keys| - 1];
      assert keys == init + [keys[|keys| - 1]];
      TotalCountAdd(init, m, y);
      if y in keys && y !in init {
        assert y == keys[|keys| - 1];
      }
    }
  }

  /** The occurrence counts of the distinct values add up to the length. */
  lemma {:induction false} CountsSumToLength<T>(xs: seq<T>)
    ensures TotalCount(Uniques(xs), multiset(xs)) == |xs|
  {
    if xs != [] {
      var p := xs[..|xs| - 1];
      var y := xs[|xs| - 1];
      assert xs == p + [y];
      var u := Uniques(p);
      CountsSumToLength(p);
      TotalCountAdd(u, multiset(p), y);
      if y !in u {
        assert multiset(p)[y] == 0;
        assert Uniques(xs)[..|Uniques(xs)| - 1] == u;
      }
    }
  }

  lemma {:induction false} SumAtConcat(c: seq<int>, a: seq<nat>, b: seq<nat>)
    requires AllBelow(a, |c|) && AllBelow(b, |c|)
    ensures AllBelow(a + b, |c|)
    ensures SumAt(c, a + b) == SumAt(c, a) + SumAt(c, b)
    decreases b
  {
    if b == [] {
      assert a + b == a;
    } else {
      assert (a + b)[..|a + b| - 1] == a + b[..|b| - 1];
      SumAtConcat(c, a, b[..|b| - 1]);
    }
  }

  /** A sum over positions does not depend on their order. */
  lemma {:induction false} SumAtPermutation(c: seq<int>, p: seq<nat>, q: seq<nat>)
    requires AllBelow(p, |c|) && AllBelow(q, |c|)
    requires multiset(p) == multiset(q)
    ensures SumAt(c, p) == SumAt(c, q)
    decreases |p|
  {
    if p != [] {
      var init := p[..|p| - 1];
      var x := p[|p| - 1];
      assert p == init + [x];
      assert multiset(init) == multiset(p) - multiset{x};
      assert x in multiset(q);
      var j :| 0 <= j < |q| && q[j] == x;
      RemoveAt(c, q, j);
      SumAtPermutation(c, init, q[..j] + q[j + 1..]);
    }
  }

  /** Taking one position out of a list: its multiset loses that position
      and its sum loses that entry. */
  lemma RemoveAt(c: seq<int>, q: seq<nat>, j: nat)
    requires AllBelow(q, |c|) && j < |q|
    ensures AllBelow(q[..j] + q[j + 1..], |c|)
    ensures multiset(q[..j] + q[j + 1..]) == multiset(q) - multiset{q[j]}
    ensures SumAt(c, q) == SumAt(c, q[..j] + q[j + 1..]) + c[q[j]]
  {
    var a, b := q[..j], q[j + 1..];
    assert q == a + [q[j]] + b;
    assert multiset(q) == multiset(a) + multiset{q[j]} + multiset(b);
    SumAtConcat(c, a + [q[j]], b);
    SumAtConcat(c, a, [q[j]]);
    assert SumAt(c, [q[j]]) == c[q[j]] by {
      assert [q[j]][..0] == [];
    }
    SumAtConcat(c, a, b);
  }

  /** Summing a table of counts over all its positions sums the counts. */
  lemma {:induction false} SumAtIota<T>(keys: seq<T>, m: multiset<T>, n: nat)
    requires n <= |keys|
    ensures AllBelow(Iota(n), |keys|)
    ensures SumAt(seq(|keys|, j requires 0 <= j < |keys| => m[keys[j]]), Iota(n)) == TotalCount(keys[..n], m)
    decreases n
  {
    var c := seq(|keys|, j requires 0 <= j < |keys| => m[keys[j]]);
    if n > 0 {
      SumAtIota(keys, m, n - 1);
      assert Iota(n)[..n - 1] == Iota(n - 1);
      assert keys[..n][..n - 1] == keys[..n - 1];
    }
  }

  /** A distinct position list with the same elements as `Iota(n)` has no
      repeats and stays below n. */
  lemma PermutationOfIota(p: seq<nat>, n: nat)
    requires multiset(p) == multiset(Iota(n))
    ensures AllBelow(p, n) && Distinct(p) && |p| == n
  {
    assert |p| == n by {
      assert |multiset(p)| == |multiset(Iota(n))|;
    }
    forall k | 0 <= k < |p| ensures p[k] < n {
      assert p[k] in multiset(Iota(n));
    }
    forall a, b | 0 <= a < b < |p| ensures p[a] != p[b] {
      if p[a] == p[b] {
        assert p == p[..b] + p[b..];
        assert p[a] in multiset(p[..b]);
        assert p[b] in multiset(p[b..]);
        assert multiset(p)[p[a]] >= 2;
        DistinctOnce(Iota(n), p[a]);
      }
    }
  }

  lemma {:induction false} DistinctOnce<T>(s: seq<T>, x: T)
    requires Distinct(s)
    ensures multiset(s)[x] <= 1
  {
    if s != [] {
      var init := s[..|s| - 1];
      assert s == init + [s[|s| - 1]];
      DistinctOnce(init, x);
      if x == s[|s| - 1] {
        assert x !in init;
      }
    }
  }

  /** Without repetitions, the first-seen order is the sequence itself. */
  lemma {:induction false} UniquesOfDistinct<T>(xs: seq<T>)
    requires Distinct(xs)
    ensures Uniques(xs) == xs
  {
    if xs != [] {
      var init := xs[..|xs| - 1];
      UniquesOfDistinct(init);
      assert xs[|xs| - 1] !in init;
      assert xs == init + [xs[|xs| - 1]];
    }
  }

  /** Appending a value extends the first-seen list exactly when the value is new. */
  lemma UniquesSnoc<T>(xs: seq<T>, x: T)
    ensures Uniques(xs + [x]) == Uniques(xs) + if x in xs then [] else [x]
  {
    var next := xs + [x];
    assert next[..|next| - 1] == xs;
    var u := Uniques(xs);
    assert x in u <==> x in xs by {
      if x in xs {
        var i :| 0 <= i < |xs| && xs[i] == x;
      }
    }
  }
}
