/** `GroupBy(df, by)` and its `sum`, `mean` and `count` aggregations. The
    constructor partitions the row positions by their key tuple; an
    aggregation visits the groups in the order of a null-last key and reduces
    every numeric non-key column over the group's rows, skipping nulls. */
module Grouping {
  import opened Values
  import opened Sequences
  import opened Tables
  import opened Counting
  import opened StableSort
  import opened Buckets

  /** The `by` argument: one column name, a list of names, or anything else. */
  datatype By = ByName(name: Name) | ByList(names: seq<Name>) | ByOther

  /** The aggregations the convenience methods request. */
  datatype Reducer = Sum | Mean | Count

  /** A GroupBy object: the table, the key columns, and the dict `groups`
      from key tuple to row positions (its keys in insertion order, and the
      mapping). */
  datatype GroupBy = GroupBy(df: Table, byCols: seq<Name>, order: seq<Tuple>, groups: map<Tuple, seq<nat>>)

  function ByColumns(arg: By): Result<seq<Name>> {
    match arg
    case ByName(name) => Ok([name])
    case ByList(names) => Ok(names)
    case ByOther => Err(TypeError)
  }

  /** `GroupBy(df, by)`: TypeError unless `by` is a name or a list, KeyError
      when a key column is missing; otherwise the rows bucketed by the tuple
      of their key cells, scanning rows up to `shape[0]`. */
  function Grouped(t: Table, arg: By): (r: Result<GroupBy>)
    requires t.Valid()
    ensures arg.ByOther? ==> r == Err(TypeError)
    ensures !arg.ByOther? ==>
      (r.Err? <==> exists c :: c in ByColumns(arg).value && c !in t.columns)
    ensures !arg.ByOther? && r.Err? ==> r.error == KeyError
    ensures r.Ok? ==> r.value.df == t && r.value.byCols == ByColumns(arg).value && Formed(r.value)
  {
    match ByColumns(arg)
    case Err(e) => Err(e)
    case Ok(cols) =>
      if exists c :: c in cols && c !in t.columns then Err(KeyError)
      else
        var keys := KeysOf(t, cols);
        Ok(GroupBy(t, cols, Uniques(keys), Buckets.Buckets(keys, |keys|)))
  }

  /** A GroupBy built from its table: `groups` is the dict the constructor's
      loop fills, and `order` its insertion order. */
  predicate Formed(g: GroupBy) {
    && g.df.Valid()
    && (forall c :: c in g.byCols ==> c in g.df.data)
    && g.order == Uniques(KeysOf(g.df, g.byCols))
    && g.groups == Buckets.Buckets(KeysOf(g.df, g.byCols), Rows(g.df))
  }

  /** What the aggregations rely on: the key columns exist, the insertion
      order lists keys of the dict, and every group holds row positions and
      one cell per key column. */
  predicate Shaped(g: GroupBy) {
    && g.df.Valid()
    && (forall c :: c in g.byCols ==> c in g.df.data)
    && (forall k :: k in g.order ==> k in g.groups)
    && (forall k :: k in g.groups ==> |k| == |g.byCols| && AllBelow(g.groups[k], Rows(g.df)))
  }

  /** The insertion order lists every key of the dict exactly once. */
  predicate Listed(g: GroupBy) {
    Distinct(g.order) && forall k :: k in g.groups ==> k in g.order
  }

  /** The constructor's dict has that shape. */
  lemma FormedIsShaped(g: GroupBy)
    requires Formed(g)
    ensures Shaped(g) && Listed(g)
  {
    forall k ensures k in g.order <==> k in g.groups {
      OrderListsGroups(g, k);
    }
    forall k | k in g.groups ensures |k| == |g.byCols| && AllBelow(g.groups[k], Rows(g.df)) {
      GroupContents(g, k);
    }
    OrderListsGroups(g, []);
  }

  /** The constructor: normalise `by`, check every key column, then bucket
      the rows. */
  method NewGroupBy(t: Table, arg: By) returns (r: Result<GroupBy>)
    requires t.Valid()
    ensures r == Grouped(t, arg)
  {
    var cols: seq<Name>;
    match arg {
      case ByOther => return Err(TypeError);
      case ByName(name) => cols := [name];
      case ByList(names) => cols := names;
    }
    for i := 0 to |cols|
      invariant forall j :: 0 <= j < i ==> cols[j] in t.columns
    {
      if cols[i] !in t.columns {
        return Err(KeyError);
      }
    }
    var keys := KeysOf(t, cols);
    var order, groups := Group(keys);
    return Ok(GroupBy(t, cols, order, groups));
  }

  // ---------------------------------------------------------------------
  // The partition

  /** The groups partition the rows: row i lies in the group of its own key
      tuple and in no other. */
  lemma GroupsPartitionRows(g: GroupBy, i: nat, k: Tuple)
    requires Formed(g) && i < Rows(g.df)
    ensures KeyOf(g.df, g.byCols, i) in g.groups && i in g.groups[KeyOf(g.df, g.byCols, i)]
    ensures k in g.groups && i in g.groups[k] ==> k == KeyOf(g.df, g.byCols, i)
  {
    BucketsPartition(KeysOf(g.df, g.byCols), i, k);
  }

  /** A key is a group exactly when some row carries it; its group lists
      exactly the rows carrying it, ascending, and is never empty. */
  lemma GroupContents(g: GroupBy, k: Tuple)
    requires Formed(g)
    ensures k in g.groups <==> exists i :: 0 <= i < Rows(g.df) && KeyOf(g.df, g.byCols, i) == k
    ensures k in g.groups ==>
      && g.groups[k] != []
      && AllBelow(g.groups[k], Rows(g.df)) && Increasing(g.groups[k])
      && (forall i: nat :: i in g.groups[k] <==> i < Rows(g.df) && KeyOf(g.df, g.byCols, i) == k)
      && |g.groups[k]| == multiset(KeysOf(g.df, g.byCols))[k]
      && |k| == |g.byCols|
  {
    var keys := KeysOf(g.df, g.byCols);
    var n := Rows(g.df);
    assert keys[..n] == keys;
    BucketsContents(keys, n, k);
    if k in g.groups {
      var b := Bucket(keys, k, n);
      assert g.groups[k] == b;
      assert b != [] && |b| == multiset(keys)[k] by {
        BucketEmpty(keys, k, n);
        BucketSize(keys, k, n);
      }
      assert AllBelow(b, n) && Increasing(b) by {
        BucketSound(keys, k, n);
      }
      forall r: nat ensures r in b <==> r < n && KeyOf(g.df, g.byCols, r) == k {
        BucketHas(keys, k, n, r);
      }
      var i :| 0 <= i < n && keys[..n][i] == k;
      assert |k| == |g.byCols|;
    }
    if exists i :: 0 <= i < n && KeyOf(g.df, g.byCols, i) == k {
      var i :| 0 <= i < n && KeyOf(g.df, g.byCols, i) == k;
      assert keys[..n][i] == k;
    }
  }

  /** The insertion order lists the dict's keys, each once. */
  lemma OrderListsGroups(g: GroupBy, k: Tuple)
    requires Formed(g)
    ensures Distinct(g.order)
    ensures k in g.order <==> k in g.groups
  {
    var keys := KeysOf(g.df, g.byCols);
    BucketsMembers(keys, |keys|, k);
    assert keys[..|keys|] == keys;
    if k in keys {
      var i :| 0 <= i < |keys| && keys[i] == k;
    }
  }

  // ---------------------------------------------------------------------
  // Group order

  /** `safe_key` on one position: `(x is None, x)`, so a value comes before
      null and two values compare naturally. */
  predicate SafeLt(x: Value, y: Value) {
    (x != Null && y == Null) || (x != Null && y != Null && Lt(x, y))
  }

  /** Tuples of `safe_key` pairs compared as Python compares tuples: the
      first position where they differ decides; a proper prefix comes first. */
  predicate KeyLt(a: Tuple, b: Tuple) {
    if a == [] then b != []
    else b != [] && (SafeLt(a[0], b[0]) || (a[0] == b[0] && KeyLt(a[1..], b[1..])))
  }

  /** The per-position safe key is the value order, whose null comes last. */
  lemma SafeLtIsLt(x: Value, y: Value)
    ensures SafeLt(x, y) <==> Lt(x, y)
  {
  }

  lemma {:induction false} KeyLtIrreflexive(a: Tuple)
    ensures !KeyLt(a, a)
  {
    if a != [] {
      LtIsStrictTotalOrder();
      KeyLtIrreflexive(a[1..]);
    }
  }

  lemma {:induction false} KeyLtTransitive(a: Tuple, b: Tuple, c: Tuple)
    requires KeyLt(a, b) && KeyLt(b, c)
    ensures KeyLt(a, c)
  {
    LtIsStrictTotalOrder();
    if a != [] && b != [] && c != [] && a[0] == b[0] && b[0] == c[0] {
      KeyLtTransitive(a[1..], b[1..], c[1..]);
    }
  }

  lemma {:induction false} KeyLtTotal(a: Tuple, b: Tuple)
    requires a != b
    ensures KeyLt(a, b) || KeyLt(b, a)
  {
    LtIsStrictTotalOrder();
    if a != [] && b != [] && a[0] == b[0] {
      assert a == [a[0]] + a[1..] && b == [b[0]] + b[1..];
      KeyLtTotal(a[1..], b[1..]);
    }
  }

  /** `safe_key` orders key tuples totally, so the group order is fixed by
      the keys alone. */
  lemma KeyLtIsStrictTotalOrder()
    ensures StrictTotalOrder(KeyLt)
  {
    forall a ensures !KeyLt(a, a) {
      KeyLtIrreflexive(a);
    }
    forall a, b, c | KeyLt(a, b) && KeyLt(b, c) ensures KeyLt(a, c) {
      KeyLtTransitive(a, b, c);
    }
    forall a, b | a != b ensures KeyLt(a, b) || KeyLt(b, a) {
      KeyLtTotal(a, b);
    }
  }

  /** `sorted(self.groups.keys(), key=safe_key)`, as positions into the
      dict's key order. */
  function GroupOrder(g: GroupBy): seq<nat> {
    Sort(g.order, KeyLt, Iota(|g.order|))
  }

  lemma GroupOrderIsPermutation(g: GroupBy)
    ensures multiset(GroupOrder(g)) == multiset(Iota(|g.order|))
    ensures AllBelow(GroupOrder(g), |g.order|) && Distinct(GroupOrder(g)) && |GroupOrder(g)| == |g.order|
  {
    SortPermutes(g.order, KeyLt, Iota(|g.order|));
    PermutationOfIota(GroupOrder(g), |g.order|);
  }

  /** The group keys in output order. */
  function SortedKeys(g: GroupBy): (ks: seq<Tuple>)
    requires Shaped(g)
    ensures |ks| == |g.order|
    ensures forall j :: 0 <= j < |ks| ==> ks[j] in g.groups
  {
    GroupOrderIsPermutation(g);
    var ks := Gather(g.order, GroupOrder(g));
    assert forall j :: 0 <= j < |ks| ==> ks[j] in g.order;
    ks
  }

  /** The output has one row per distinct key tuple, and the rows are
      strictly increasing under `safe_key`: the order is deterministic. */
  lemma SortedKeysOrdered(g: GroupBy)
    requires Shaped(g) && Listed(g)
    ensures forall k :: k in SortedKeys(g) <==> k in g.groups
    ensures Distinct(SortedKeys(g))
    ensures forall a, b :: 0 <= a < b < |SortedKeys(g)| ==> KeyLt(SortedKeys(g)[a], SortedKeys(g)[b])
  {
    var ks := SortedKeys(g);
    var p := GroupOrder(g);
    GroupOrderIsPermutation(g);
    KeyLtIsStrictTotalOrder();
    SortSorted(g.order, KeyLt, Iota(|g.order|));
    forall a, b | 0 <= a < b < |ks| ensures KeyLt(ks[a], ks[b]) {
      assert Before(g.order, KeyLt, p[a], p[b]);
      assert g.order[p[a]] != g.order[p[b]];
    }
    forall a, b | 0 <= a < b < |ks| ensures ks[a] != ks[b] {
      KeyLtIrreflexive(ks[a]);
    }
    forall k | k in g.groups ensures k in ks {
      SortedKeysCover(g, k);
    }
  }

  // ---------------------------------------------------------------------
  // Column selection and reducers

  /** `next((x for x in col if x is not None), None)`. */
  function FirstNonNull(col: seq<Value>): (r: Value)
    ensures r == Null <==> forall i :: 0 <= i < |col| ==> col[i] == Null
    ensures r != Null ==> exists i :: 0 <= i < |col| && col[i] == r && forall j :: 0 <= j < i ==> col[j] == Null
  {
    if col == [] then Null
    else if col[0] != Null then (assert col[0] == col[0]; col[0])
    else
      var r := FirstNonNull(col[1..]);
      assert r != Null ==> exists i :: 0 <= i < |col| && col[i] == r && forall j :: 0 <= j < i ==> col[j] == Null by {
        if r != Null {
          var i :| 0 <= i < |col[1..]| && col[1..][i] == r && forall j :: 0 <= j < i ==> col[1..][j] == Null;
          assert col[i + 1] == r;
        }
      }
      r
  }

  /** The first-value scan as a loop. */
  method FindFirstNonNull(col: seq<Value>) returns (v: Value)
    ensures v == FirstNonNull(col)
  {
    var i := 0;
    while i < |col|
      invariant 0 <= i <= |col|
      invariant FirstNonNull(col) == FirstNonNull(col[i..])
    {
      if col[i] != Null {
        return col[i];
      }
      assert col[i..][1..] == col[i + 1..];
      i := i + 1;
    }
    return Null;
  }

  /** The non-key columns among `cols` whose first non-null cell is a number. */
  function NumericAmong(t: Table, cols: seq<Name>, byCols: seq<Name>): (r: seq<Name>)
    requires t.Valid() && forall c :: c in cols ==> c in t.data
    ensures forall c :: c in r <==> c in cols && c !in byCols && IsNumeric(FirstNonNull(t.data[c]))
    ensures Distinct(cols) ==> Distinct(r)
  {
    if cols == [] then []
    else
      var c := cols[|cols| - 1];
      var init := cols[..|cols| - 1];
      assert cols == init + [c];
      NumericAmong(t, init, byCols) + if c !in byCols && IsNumeric(FirstNonNull(t.data[c])) then [c] else []
  }

  /** The aggregated columns: every non-key column, in table order, whose
      first non-null value is an int, float or bool. */
  function NumericColumns(t: Table, byCols: seq<Name>): seq<Name>
    requires t.Valid()
  {
    NumericAmong(t, t.columns, byCols)
  }

  /** The loop that picks the numeric columns. */
  method SelectNumeric(t: Table, byCols: seq<Name>) returns (numeric: seq<Name>)
    requires t.Valid()
    ensures numeric == NumericColumns(t, byCols)
  {
    numeric := [];
    for i := 0 to |t.columns|
      invariant numeric == NumericAmong(t, t.columns[..i], byCols)
    {
      var c := t.columns[i];
      assert t.columns[..i + 1][..i] == t.columns[..i];
      if c !in byCols {
        var first := FindFirstNonNull(t.data[c]);
        if IsNumeric(first) {
          numeric := numeric + [c];
        }
      }
    }
    assert t.columns[..|t.columns|] == t.columns;
  }

  /** `[x for x in cells if x is not None]`. */
  function Present(cells: seq<Value>): seq<Value> {
    if cells == [] then []
    else
      var x := cells[|cells| - 1];
      Present(cells[..|cells| - 1]) + if x != Null then [x] else []
  }

  /** The non-null values are as many as the non-null cells, and they are
      exactly the non-null cells. */
  lemma {:induction false} PresentCount(cells: seq<Value>)
    ensures |Present(cells)| <= |cells|
    ensures |Present(cells)| == |set k | 0 <= k < |cells| && cells[k] != Null|
    ensures Present(cells) == [] <==> forall k :: 0 <= k < |cells| ==> cells[k] == Null
    ensures forall v :: v in Present(cells) <==> v != Null && v in cells
    decreases |cells|
  {
    if cells != [] {
      PresentCount(cells[..|cells| - 1]);
      PresentStep(cells);
    }
  }

  /** What `PresentCount` states, as one predicate for its inductive step. */
  ghost predicate PresentFacts(cells: seq<Value>) {
    && |Present(cells)| == |set k | 0 <= k < |cells| && cells[k] != Null|
    && (Present(cells) == [] <==> forall k :: 0 <= k < |cells| ==> cells[k] == Null)
    && (forall v :: v in Present(cells) <==> v != Null && v in cells)
    && |Present(cells)| <= |cells|
  }

  lemma PresentStep(cells: seq<Value>)
    requires cells != [] && PresentFacts(cells[..|cells| - 1])
    ensures PresentFacts(cells)
  {
    var init := cells[..|cells| - 1];
    var x := cells[|cells| - 1];
    assert cells == init + [x];
    PresentSizeStep(cells, init, x);
    PresentMembersStep(cells, init, x);
    PresentEmpty(cells);
  }

  lemma PresentEmpty(cells: seq<Value>)
    requires forall v :: v in Present(cells) <==> v != Null && v in cells
    ensures Present(cells) == [] <==> forall k :: 0 <= k < |cells| ==> cells[k] == Null
  {
    if Present(cells) != [] {
      assert Present(cells)[0] in Present(cells);
    }
  }

  lemma PresentSizeStep(cells: seq<Value>, init: seq<Value>, x: Value)
    requires cells == init + [x]
    requires |Present(init)| == |set k | 0 <= k < |init| && init[k] != Null| && |Present(init)| <= |init|
    ensures |Present(cells)| == |set k | 0 <= k < |cells| && cells[k] != Null| && |Present(cells)| <= |cells|
  {
    assert cells[..|init|] == init;
    assert |Present(cells)| == |Present(init)| + if x != Null then 1 else 0;
    NonNullPositionsSnoc(cells, init, x);
  }

  /** Appending a cell adds its position to the non-null positions when it
      is not null. */
  lemma NonNullPositionsSnoc(cells: seq<Value>, init: seq<Value>, x: Value)
    requires cells == init + [x]
    ensures |set k | 0 <= k < |cells| && cells[k] != Null| ==
      |set k | 0 <= k < |init| && init[k] != Null| + if x != Null then 1 else 0
  {
    var n := |init|;
    var before := set k | 0 <= k < n && init[k] != Null;
    var now := set k | 0 <= k < |cells| && cells[k] != Null;
    if x != Null {
      forall k ensures k in now <==> k in before || k == n {
        if 0 <= k < n { assert cells[k] == init[k]; }
      }
      assert now == before + {n};
    } else {
      forall k ensures k in now <==> k in before {
        if 0 <= k < n { assert cells[k] == init[k]; }
      }
      assert now == before;
    }
  }

  lemma PresentMembersStep(cells: seq<Value>, init: seq<Value>, x: Value)
    requires cells == init + [x]
    requires forall v :: v in Present(init) <==> v != Null && v in init
    ensures forall v :: v in Present(cells) <==> v != Null && v in cells
  {
    assert cells[..|init|] == init;
    assert Present(cells) == Present(init) + if x != Null then [x] else [];
    NonNullSnoc(Present(init), init, x, Present(cells), cells);
  }

  /** Appending a cell: the non-null values grow by it when it is not null. */
  lemma NonNullSnoc(kept: seq<Value>, init: seq<Value>, x: Value, kept': seq<Value>, cells: seq<Value>)
    requires forall v :: v in kept <==> v != Null && v in init
    requires cells == init + [x] && kept' == kept + if x != Null then [x] else []
    ensures forall v :: v in kept' <==> v != Null && v in cells
  {
  }

  /** Python's `+` on two numbers: an int unless a float is involved; a
      TypeError (None) when either side is not a number. */
  function PyAdd(a: Value, b: Value): (r: Option<Value>)
    ensures r.Some? <==> IsNumeric(a) && IsNumeric(b)
    ensures r.Some? ==> AsReal(r.value) == AsReal(a) + AsReal(b)
    ensures r.Some? ==> (r.value.Float? <==> a.Float? || b.Float?) && IsNumeric(r.value)
  {
    if !IsNumeric(a) || !IsNumeric(b) then None
    else if a.Float? || b.Float? then Some(Float(AsReal(a) + AsReal(b)))
    else Some(Int(AsInt(a) + AsInt(b)))
  }

  /** `sum(values)`: `0 + values[0] + values[1] + ...`, None at the first
      addition that raises. */
  function PySum(vs: seq<Value>): Option<Value> {
    if vs == [] then Some(Int(0))
    else match PySum(vs[..|vs| - 1])
      case None => None
      case Some(acc) => PyAdd(acc, vs[|vs| - 1])
  }

  /** The arithmetic sum of the values taken as numbers. */
  function RealTotal(vs: seq<Value>): real {
    if vs == [] then 0.0 else RealTotal(vs[..|vs| - 1]) + AsReal(vs[|vs| - 1])
  }

  /** `sum` succeeds exactly on lists of numbers; it then gives their total,
      and an int unless some value is a float. */
  lemma {:induction false} PySumMeaning(vs: seq<Value>)
    ensures PySum(vs).Some? <==> forall k :: 0 <= k < |vs| ==> IsNumeric(vs[k])
    ensures PySum(vs).Some? ==> IsNumeric(PySum(vs).value) && AsReal(PySum(vs).value) == RealTotal(vs)
    ensures PySum(vs).Some? ==> (PySum(vs).value.Float? <==> exists k :: 0 <= k < |vs| && vs[k].Float?)
  {
    if vs != [] {
      var init := vs[..|vs| - 1];
      PySumMeaning(init);
      assert forall k :: 0 <= k < |init| ==> init[k] == vs[k];
      if (exists k :: 0 <= k < |vs| && vs[k].Float?) && !vs[|vs| - 1].Float? {
        var k :| 0 <= k < |vs| && vs[k].Float?;
        assert init[k].Float?;
      }
    }
  }

  /** `sum(values) / len(values)` once the sum succeeded. */
  function Average(s: Value, count: nat): real
    requires count > 0
  {
    AsReal(s) / count as real
  }

  /** One aggregated cell from a group's non-null values (`_aggregate`'s
      branches on `func_name`). */
  function Reduce(f: Reducer, vals: seq<Value>): Result<Value> {
    match f
    case Count => Ok(Int(|vals|))
    case Sum =>
      if vals == [] then Ok(Null)
      else (match PySum(vals)
        case None => Err(TypeError)
        case Some(s) => Ok(s))
    case Mean =>
      if vals == [] then Ok(Null)
      else (match PySum(vals)
        case None => Err(TypeError)
        case Some(s) => Ok(Float(Average(s, |vals|))))
  }

  /** `count` is how many non-null values there are; `sum` and `mean` are
      null without any, and otherwise the total and the total over the
      count; a value that is not a number makes `sum` and `mean` raise
      TypeError. */
  lemma ReduceMeaning(f: Reducer, vals: seq<Value>)
    ensures f.Count? ==> Reduce(f, vals) == Ok(Int(|vals|))
    ensures !f.Count? && vals == [] ==> Reduce(f, vals) == Ok(Null)
    ensures !f.Count? && vals != [] ==>
      (Reduce(f, vals).Ok? <==> forall k :: 0 <= k < |vals| ==> IsNumeric(vals[k]))
    ensures Reduce(f, vals).Err? ==> Reduce(f, vals).error == TypeError
    ensures f.Sum? && vals != [] && Reduce(f, vals).Ok? ==>
      IsNumeric(Reduce(f, vals).value) && AsReal(Reduce(f, vals).value) == RealTotal(vals)
    ensures f.Mean? && vals != [] && Reduce(f, vals).Ok? ==>
      Reduce(f, vals).value == Float(RealTotal(vals) / |vals| as real)
  {
    PySumMeaning(vals);
  }

  /** Column c's cells in the rows of group k: `[col[i] for i in indices]`. */
  function GroupCells(g: GroupBy, k: Tuple, c: Name): seq<Value>
    requires Shaped(g) && k in g.groups && c in g.df.data
  {
    Gather(g.df.data[c], g.groups[k])
  }

  /** The reducer over column c of group k. */
  function ReduceAt(g: GroupBy, f: Reducer, k: Tuple, c: Name): Result<Value>
    requires Shaped(g) && k in g.groups && c in g.df.data
  {
    Reduce(f, Present(GroupCells(g, k, c)))
  }

  // ---------------------------------------------------------------------
  // The aggregated table

  /** The cells `for i, col in enumerate(by_cols): result_data[col].append(key[i])`
      appends to column c for one key, looking at the first n key columns. */
  function KeyCells(key: Tuple, byCols: seq<Name>, c: Name, n: nat): (r: seq<Value>)
    requires n <= |byCols| == |key|
  {
    if n == 0 then [] else KeyCells(key, byCols, c, n - 1) + if byCols[n - 1] == c then [key[n - 1]] else []
  }

  /** With distinct key columns, key column `byCols[i]` gets exactly the
      key's i-th cell. */
  lemma {:induction false} KeyCellsDistinct(key: Tuple, byCols: seq<Name>, i: nat, n: nat)
    requires n <= |byCols| == |key| && Distinct(byCols) && i < |byCols|
    ensures KeyCells(key, byCols, byCols[i], n) == if i < n then [key[i]] else []
    decreases n
  {
    if n > 0 {
      KeyCellsDistinct(key, byCols, i, n - 1);
    }
  }

  /** The groups `keys` are groups of g. */
  predicate AreGroups(g: GroupBy, keys: seq<Tuple>) {
    forall j :: 0 <= j < |keys| ==> keys[j] in g.groups
  }

  /** Every key of `keys` has one cell per key column. */
  predicate KeyWidths(keys: seq<Tuple>, byCols: seq<Name>) {
    forall j :: 0 <= j < |keys| ==> |keys[j]| == |byCols|
  }

  lemma GroupsHaveWidth(g: GroupBy, keys: seq<Tuple>)
    requires Shaped(g) && AreGroups(g, keys)
    ensures KeyWidths(keys, g.byCols)
  {
  }

  /** Key column c after the first n groups of `keys`. */
  function KeyColumn(keys: seq<Tuple>, byCols: seq<Name>, c: Name, n: nat): seq<Value>
    requires n <= |keys| && KeyWidths(keys, byCols)
  {
    if n == 0 then []
    else KeyColumn(keys, byCols, c, n - 1) + KeyCells(keys[n - 1], byCols, c, |byCols|)
  }

  /** With distinct key columns, row j of key column `byCols[i]` is the i-th
      cell of the j-th key. */
  lemma {:induction false} KeyColumnDistinct(keys: seq<Tuple>, byCols: seq<Name>, i: nat, n: nat)
    requires n <= |keys| && KeyWidths(keys, byCols)
    requires Distinct(byCols) && i < |byCols|
    ensures |KeyColumn(keys, byCols, byCols[i], n)| == n
    ensures forall j :: 0 <= j < n ==> KeyColumn(keys, byCols, byCols[i], n)[j] == keys[j][i]
    decreases n
  {
    if n > 0 {
      var prev := KeyColumn(keys, byCols, byCols[i], n - 1);
      var cells := KeyCells(keys[n - 1], byCols, byCols[i], |byCols|);
      assert |prev| == n - 1 && forall j :: 0 <= j < n - 1 ==> prev[j] == keys[j][i] by {
        KeyColumnDistinct(keys, byCols, i, n - 1);
      }
      assert cells == [keys[n - 1][i]] by {
        KeyCellsDistinct(keys[n - 1], byCols, i, |byCols|);
      }
      KeyColumnSnoc(prev, keys, |byCols|, i, n);
      assert KeyColumn(keys, byCols, byCols[i], n) == prev + cells;
    }
  }

  lemma KeyColumnSnoc(prev: seq<Value>, keys: seq<Tuple>, w: nat, i: nat, n: nat)
    requires 0 < n <= |keys| && i < w && forall j :: 0 <= j < |keys| ==> |keys[j]| == w
    requires |prev| == n - 1 && forall j :: 0 <= j < n - 1 ==> prev[j] == keys[j][i]
    ensures |prev + [keys[n - 1][i]]| == n
    ensures forall j :: 0 <= j < n ==> (prev + [keys[n - 1][i]])[j] == keys[j][i]
  {
  }

  /** The cell of the aggregated column c for group `key` (null where the
      reducer fails, which the aggregation reports as a whole). */
  function ReducedCell(g: GroupBy, f: Reducer, key: Tuple, c: Name): Value
    requires Shaped(g) && c in g.df.data && key in g.groups
  {
    var v := ReduceAt(g, f, key, c); if v.Ok? then v.value else Null
  }

  /** Aggregated column c after the first n groups of `keys`. */
  function ReducedColumn(g: GroupBy, f: Reducer, keys: seq<Tuple>, c: Name, n: nat): (r: seq<Value>)
    requires Shaped(g) && c in g.df.data && AreGroups(g, keys) && n <= |keys|
    ensures |r| == n
  {
    seq(n, j requires 0 <= j < n => ReducedCell(g, f, keys[j], c))
  }

  /** Column c of `result_data` after the first n groups of `keys`. */
  function Column(g: GroupBy, f: Reducer, keys: seq<Tuple>, c: Name, n: nat): seq<Value>
    requires Shaped(g) && c in g.df.data && AreGroups(g, keys) && n <= |keys|
  {
    GroupsHaveWidth(g, keys);
    if c in g.byCols then KeyColumn(keys, g.byCols, c, n) else ReducedColumn(g, f, keys, c, n)
  }

  /** Some aggregated column's reducer raises for group `key`. */
  predicate RowFails(g: GroupBy, f: Reducer, key: Tuple, numeric: seq<Name>)
    requires Shaped(g) && key in g.groups
    requires forall c :: c in numeric ==> c in g.df.data
  {
    exists q :: 0 <= q < |numeric| && ReduceAt(g, f, key, numeric[q]).Err?
  }

  /** One of the first n groups makes some aggregated column's reducer
      raise. */
  predicate Fails(g: GroupBy, f: Reducer, keys: seq<Tuple>, numeric: seq<Name>, n: nat)
    requires Shaped(g) && AreGroups(g, keys) && n <= |keys|
    requires forall c :: c in numeric ==> c in g.df.data
  {
    exists j :: 0 <= j < n && RowFails(g, f, keys[j], numeric)
  }

  /** The columns of `result_data` after all the groups `keys`. */
  function AggregateData(g: GroupBy, f: Reducer, keys: seq<Tuple>, numeric: seq<Name>): map<Name, seq<Value>>
    requires Shaped(g) && AreGroups(g, keys)
    requires forall c :: c in numeric ==> c in g.df.data
  {
    map c | c in g.byCols + numeric :: Column(g, f, keys, c, |keys|)
  }

  /** The output columns: the key columns (a dict, so once each), then the
      aggregated ones. */
  function OutputColumns(g: GroupBy): seq<Name>
    requires Shaped(g)
  {
    Uniques(g.byCols) + NumericColumns(g.df, g.byCols)
  }

  lemma OutputSchema(g: GroupBy, f: Reducer, keys: seq<Tuple>)
    requires Shaped(g) && AreGroups(g, keys)
    ensures forall c :: c in NumericColumns(g.df, g.byCols) ==> c in g.df.data && c !in g.byCols
    ensures Distinct(NumericColumns(g.df, g.byCols))
    ensures Schema(OutputColumns(g), AggregateData(g, f, keys, NumericColumns(g.df, g.byCols)))
  {
    var u := Uniques(g.byCols);
    var numeric := NumericColumns(g.df, g.byCols);
    assert forall c :: c in u <==> c in g.byCols by {
      forall c | c in g.byCols ensures c in u {
        var j :| 0 <= j < |g.byCols| && g.byCols[j] == c;
      }
    }
    forall a, b | 0 <= a < b < |u + numeric| ensures (u + numeric)[a] != (u + numeric)[b] {
      if a < |u| && b >= |u| {
        assert (u + numeric)[b] in numeric;
      }
    }
  }

  /** `_aggregate(func_name)` on a GroupBy: TypeError when the reducer
      raises for some group and column; otherwise `DataFrame(result_data)`
      on the key columns and the aggregated columns, one row per group in
      `safe_key` order. */
  function Aggregate(g: GroupBy, f: Reducer): Result<Table>
    requires Shaped(g)
  {
    var keys := SortedKeys(g);
    var numeric := NumericColumns(g.df, g.byCols);
    OutputSchema(g, f, keys);
    if Fails(g, f, keys, numeric, |keys|) then Err(TypeError)
    else FromDict(OutputColumns(g), AggregateData(g, f, keys, numeric))
  }

  /** `sum()`, `mean()`, `count()`. */
  function SumOf(g: GroupBy): Result<Table> requires Shaped(g) { Aggregate(g, Sum) }
  function MeanOf(g: GroupBy): Result<Table> requires Shaped(g) { Aggregate(g, Mean) }
  function CountOf(g: GroupBy): Result<Table> requires Shaped(g) { Aggregate(g, Count) }

  /** The aggregation: key columns first, then the numeric columns (each
      created empty), then one row per group in sorted order. */
  method AggregateLoop(g: GroupBy, f: Reducer) returns (r: Result<Table>)
    requires Shaped(g)
    ensures r == Aggregate(g, f)
  {
    var numeric := SelectNumeric(g.df, g.byCols);
    var keys := SortedKeys(g);
    OutputSchema(g, f, keys);
    var data, ok := FillRows(g, f, keys, numeric);
    if !ok {
      return Err(TypeError);
    }
    r := FromDict(OutputColumns(g), data);
  }

  /** Every column holds the cells of the first n groups. */
  ghost predicate Filled(g: GroupBy, f: Reducer, keys: seq<Tuple>, numeric: seq<Name>, n: nat, data: map<Name, seq<Value>>)
    requires Shaped(g) && AreGroups(g, keys) && n <= |keys|
    requires forall c :: c in numeric ==> c in g.df.data
  {
    && (forall c :: c in data <==> c in g.byCols + numeric)
    && (forall c :: c in data ==> data[c] == Column(g, f, keys, c, n))
  }

  /** The loop over the sorted groups: false when a reducer raises. */
  method FillRows(g: GroupBy, f: Reducer, keys: seq<Tuple>, numeric: seq<Name>)
    returns (data: map<Name, seq<Value>>, ok: bool)
    requires Shaped(g) && AreGroups(g, keys)
    requires Distinct(numeric) && forall c :: c in numeric ==> c in g.df.data && c !in g.byCols
    ensures ok <==> !Fails(g, f, keys, numeric, |keys|)
    ensures ok ==> data == AggregateData(g, f, keys, numeric)
  {
    data := map c | c in g.byCols + numeric :: [];
    FilledStart(g, f, keys, numeric);
    for j := 0 to |keys|
      invariant Filled(g, f, keys, numeric, j, data)
      invariant !Fails(g, f, keys, numeric, j)
    {
      var next;
      next, ok := AddGroup(g, f, keys, j, numeric, data);
      if !ok {
        FailsFrom(g, f, keys, numeric, j);
        return data, false;
      }
      NoFailureStep(g, f, keys, numeric, j);
      data := next;
    }
    ok := true;
    FilledEnd(g, f, keys, numeric, data);
  }

  lemma FilledStart(g: GroupBy, f: Reducer, keys: seq<Tuple>, numeric: seq<Name>)
    requires Shaped(g) && AreGroups(g, keys) && forall c :: c in numeric ==> c in g.df.data
    ensures Filled(g, f, keys, numeric, 0, map c | c in g.byCols + numeric :: [])
    ensures !Fails(g, f, keys, numeric, 0)
  {
  }

  lemma FilledEnd(g: GroupBy, f: Reducer, keys: seq<Tuple>, numeric: seq<Name>, data: map<Name, seq<Value>>)
    requires Shaped(g) && AreGroups(g, keys) && forall c :: c in numeric ==> c in g.df.data
    requires Filled(g, f, keys, numeric, |keys|, data)
    ensures data == AggregateData(g, f, keys, numeric)
  {
  }

  lemma FailsFrom(g: GroupBy, f: Reducer, keys: seq<Tuple>, numeric: seq<Name>, j: nat)
    requires Shaped(g) && AreGroups(g, keys) && forall c :: c in numeric ==> c in g.df.data
    requires j < |keys| && RowFails(g, f, keys[j], numeric)
    ensures Fails(g, f, keys, numeric, |keys|)
  {
  }

  lemma NoFailureStep(g: GroupBy, f: Reducer, keys: seq<Tuple>, numeric: seq<Name>, j: nat)
    requires Shaped(g) && AreGroups(g, keys) && forall c :: c in numeric ==> c in g.df.data
    requires j < |keys| && !Fails(g, f, keys, numeric, j) && !RowFails(g, f, keys[j], numeric)
    ensures !Fails(g, f, keys, numeric, j + 1)
  {
  }

  /** Group j's row: its key cells, then its aggregated cells. */
  method AddGroup(g: GroupBy, f: Reducer, keys: seq<Tuple>, j: nat, numeric: seq<Name>,
                  data: map<Name, seq<Value>>) returns (next: map<Name, seq<Value>>, ok: bool)
    requires Shaped(g) && AreGroups(g, keys) && j < |keys|
    requires Distinct(numeric) && forall c :: c in numeric ==> c in g.df.data && c !in g.byCols
    requires Filled(g, f, keys, numeric, j, data)
    ensures ok <==> !RowFails(g, f, keys[j], numeric)
    ensures ok ==> Filled(g, f, keys, numeric, j + 1, next)
  {
    var key := keys[j];
    assert |key| == |g.byCols|;
    var keyed := AppendKey(g.byCols, key, data);
    forall c | c in g.byCols ensures keyed[c] == Column(g, f, keys, c, j + 1) {
    }
    assert Partial(g, f, keys, j, numeric, 0, keyed);
    next, ok := AppendAggregates(g, f, keys, j, numeric, keyed);
  }

  /** The by-column loop for one key: key column `byCols[i]` gets the
      key's i-th cell. */
  method AppendKey(byCols: seq<Name>, key: Tuple, data: map<Name, seq<Value>>) returns (next: map<Name, seq<Value>>)
    requires |key| == |byCols| && forall c :: c in byCols ==> c in data
    ensures next.Keys == data.Keys
    ensures forall c :: c in byCols ==> next[c] == data[c] + KeyCells(key, byCols, c, |byCols|)
    ensures forall c :: c in next && c !in byCols ==> next[c] == data[c]
  {
    next := data;
    for i := 0 to |byCols|
      invariant next.Keys == data.Keys
      invariant forall c :: c in byCols ==> next[c] == data[c] + KeyCells(key, byCols, c, i)
      invariant forall c :: c in next && c !in byCols ==> next[c] == data[c]
    {
      var c := byCols[i];
      next := next[c := next[c] + [key[i]]];
    }
  }

  /** The numeric-column loop for group j: false at the first reducer that
      raises; otherwise every aggregated column has the group's cell
      appended. */
  method AppendAggregates(g: GroupBy, f: Reducer, keys: seq<Tuple>, j: nat, numeric: seq<Name>,
                          data: map<Name, seq<Value>>) returns (next: map<Name, seq<Value>>, ok: bool)
    requires Shaped(g) && AreGroups(g, keys) && j < |keys|
    requires Distinct(numeric) && forall c :: c in numeric ==> c in g.df.data && c !in g.byCols
    requires Partial(g, f, keys, j, numeric, 0, data)
    ensures ok <==> !RowFails(g, f, keys[j], numeric)
    ensures ok ==> Filled(g, f, keys, numeric, j + 1, next)
  {
    var key := keys[j];
    next := data;
    var q := 0;
    while q < |numeric|
      invariant q <= |numeric| && Reduced(g, f, keys, j, numeric, q, next)
    {
      var c := numeric[q];
      var v := ReduceAt(g, f, key, c);
      if v.Err? {
        RowFailsAt(g, f, key, numeric, q);
        return next, false;
      }
      PartialStep(g, f, keys, j, numeric, q, next);
      next := next[c := next[c] + [v.value]];
      q := q + 1;
    }
    ok := true;
    PartialDone(g, f, keys, j, numeric, next);
  }

  /** The state of the column loop of one group after q columns. */
  ghost predicate Reduced(g: GroupBy, f: Reducer, keys: seq<Tuple>, j: nat, numeric: seq<Name>, q: nat,
                          data: map<Name, seq<Value>>)
    requires Shaped(g) && AreGroups(g, keys) && j < |keys| && q <= |numeric|
    requires forall c :: c in numeric ==> c in g.df.data
  {
    && Partial(g, f, keys, j, numeric, q, data)
    && forall p :: 0 <= p < q ==> ReduceAt(g, f, keys[j], numeric[p]).Ok?
  }

  lemma RowFailsAt(g: GroupBy, f: Reducer, key: Tuple, numeric: seq<Name>, q: nat)
    requires Shaped(g) && key in g.groups && forall c :: c in numeric ==> c in g.df.data
    requires q < |numeric| && ReduceAt(g, f, key, numeric[q]).Err?
    ensures RowFails(g, f, key, numeric)
  {
  }

  /** Group j's row is written up to aggregated column q: the key columns
      and the first q aggregated columns have j + 1 cells, the others j. */
  ghost predicate Partial(g: GroupBy, f: Reducer, keys: seq<Tuple>, j: nat, numeric: seq<Name>, q: nat,
                          data: map<Name, seq<Value>>)
    requires Shaped(g) && AreGroups(g, keys) && j < |keys| && q <= |numeric|
    requires forall c :: c in numeric ==> c in g.df.data
  {
    && (forall c :: c in data <==> c in g.byCols + numeric)
    && (forall c :: c in g.byCols ==> data[c] == Column(g, f, keys, c, j + 1))
    && (forall p :: 0 <= p < q ==> data[numeric[p]] == Column(g, f, keys, numeric[p], j + 1))
    && (forall p :: q <= p < |numeric| ==> data[numeric[p]] == Column(g, f, keys, numeric[p], j))
  }

  lemma PartialStep(g: GroupBy, f: Reducer, keys: seq<Tuple>, j: nat, numeric: seq<Name>, q: nat,
                    data: map<Name, seq<Value>>)
    requires Shaped(g) && AreGroups(g, keys) && j < |keys| && q < |numeric|
    requires Distinct(numeric) && forall c :: c in numeric ==> c in g.df.data && c !in g.byCols
    requires Partial(g, f, keys, j, numeric, q, data)
    requires ReduceAt(g, f, keys[j], numeric[q]).Ok?
    ensures Partial(g, f, keys, j, numeric, q + 1,
      data[numeric[q] := data[numeric[q]] + [ReduceAt(g, f, keys[j], numeric[q]).value]])
  {
    var c := numeric[q];
    var m := data[c := data[c] + [ReduceAt(g, f, keys[j], c).value]];
    ColumnStep(g, f, keys, c, j);
    assert m[c] == Column(g, f, keys, c, j + 1);
    forall d | d in g.byCols ensures m[d] == Column(g, f, keys, d, j + 1) {
      assert d != c;
    }
    forall p | 0 <= p < |numeric| && p != q ensures m[numeric[p]] == data[numeric[p]] {
      assert numeric[p] != c;
    }
    assert forall d :: d in m <==> d in g.byCols + numeric;
  }

  /** Group j appends the reducer's value to an aggregated column. */
  lemma ColumnStep(g: GroupBy, f: Reducer, keys: seq<Tuple>, c: Name, j: nat)
    requires Shaped(g) && AreGroups(g, keys) && j < |keys| && c in g.df.data && c !in g.byCols
    requires ReduceAt(g, f, keys[j], c).Ok?
    ensures Column(g, f, keys, c, j + 1) == Column(g, f, keys, c, j) + [ReduceAt(g, f, keys[j], c).value]
  {
    var before := ReducedColumn(g, f, keys, c, j);
    var after := ReducedColumn(g, f, keys, c, j + 1);
    assert forall i :: 0 <= i < j ==> after[i] == before[i];
    assert after == before + [ReducedCell(g, f, keys[j], c)];
  }

  lemma PartialDone(g: GroupBy, f: Reducer, keys: seq<Tuple>, j: nat, numeric: seq<Name>,
                    data: map<Name, seq<Value>>)
    requires Shaped(g) && AreGroups(g, keys) && j < |keys|
    requires forall c :: c in numeric ==> c in g.df.data
    requires Reduced(g, f, keys, j, numeric, |numeric|, data)
    ensures Filled(g, f, keys, numeric, j + 1, data)
    ensures !RowFails(g, f, keys[j], numeric)
  {
    forall c | c in data ensures data[c] == Column(g, f, keys, c, j + 1) {
      if c !in g.byCols {
        var p :| 0 <= p < |numeric| && numeric[p] == c;
      }
    }
  }

  // ---------------------------------------------------------------------
  // What an aggregation promises

  /** With distinct key columns every column of `result_data` has one cell
      per group. */
  lemma DataUniform(g: GroupBy, f: Reducer, keys: seq<Tuple>, numeric: seq<Name>)
    requires Shaped(g) && AreGroups(g, keys) && Distinct(g.byCols)
    requires forall c :: c in numeric ==> c in g.df.data
    ensures Uniform(AggregateData(g, f, keys, numeric), |keys|)
  {
    var data := AggregateData(g, f, keys, numeric);
    GroupsHaveWidth(g, keys);
    forall c | c in data ensures |data[c]| == |keys| {
      if c in g.byCols {
        var i :| 0 <= i < |g.byCols| && g.byCols[i] == c;
        KeyColumnDistinct(keys, g.byCols, i, |keys|);
      }
    }
  }

  /** Every group of the dict has a row in the sorted order. */
  lemma SortedKeysCover(g: GroupBy, k: Tuple)
    requires Shaped(g) && Listed(g) && k in g.groups
    ensures exists j :: 0 <= j < |SortedKeys(g)| && SortedKeys(g)[j] == k
  {
    var p := GroupOrder(g);
    GroupOrderIsPermutation(g);
    var j :| 0 <= j < |g.order| && g.order[j] == k;
    assert Iota(|g.order|)[j] == j;
    assert j in multiset(p);
    var q :| 0 <= q < |p| && p[q] == j;
    assert SortedKeys(g)[q] == k;
  }

  /** A reducer that raises for some group makes the aggregation raise. */
  lemma FailsFromCell(g: GroupBy, f: Reducer, k: Tuple, c: Name)
    requires Shaped(g) && Listed(g) && k in g.groups && c in NumericColumns(g.df, g.byCols)
    requires forall c :: c in NumericColumns(g.df, g.byCols) ==> c in g.df.data
    requires ReduceAt(g, f, k, c).Err?
    ensures Fails(g, f, SortedKeys(g), NumericColumns(g.df, g.byCols), |SortedKeys(g)|)
  {
    var keys := SortedKeys(g);
    var numeric := NumericColumns(g.df, g.byCols);
    SortedKeysCover(g, k);
    var j :| 0 <= j < |keys| && keys[j] == k;
    var q :| 0 <= q < |numeric| && numeric[q] == c;
    assert RowFails(g, f, keys[j], numeric);
  }

  /** A reducer fails for one of the sorted groups exactly when it fails
      for some group of the dict. */
  lemma FailsSomewhere(g: GroupBy, f: Reducer)
    requires Shaped(g) && Listed(g)
    ensures forall c :: c in NumericColumns(g.df, g.byCols) ==> c in g.df.data
    ensures Fails(g, f, SortedKeys(g), NumericColumns(g.df, g.byCols), |SortedKeys(g)|) <==>
      exists k, c :: k in g.groups && c in NumericColumns(g.df, g.byCols) && ReduceAt(g, f, k, c).Err?
  {
    var keys := SortedKeys(g);
    var numeric := NumericColumns(g.df, g.byCols);
    if exists k, c :: k in g.groups && c in numeric && ReduceAt(g, f, k, c).Err? {
      var k, c :| k in g.groups && c in numeric && ReduceAt(g, f, k, c).Err?;
      FailsFromCell(g, f, k, c);
    }
    if Fails(g, f, keys, numeric, |keys|) {
      CellFromFails(g, f, keys, numeric);
    }
  }

  lemma CellFromFails(g: GroupBy, f: Reducer, keys: seq<Tuple>, numeric: seq<Name>)
    requires Shaped(g) && AreGroups(g, keys) && forall c :: c in numeric ==> c in g.df.data
    requires Fails(g, f, keys, numeric, |keys|)
    ensures exists k, c :: k in g.groups && c in numeric && ReduceAt(g, f, k, c).Err?
  {
    var j :| 0 <= j < |keys| && RowFails(g, f, keys[j], numeric);
    var q :| 0 <= q < |numeric| && ReduceAt(g, f, keys[j], numeric[q]).Err?;
    assert keys[j] in g.groups && numeric[q] in numeric;
  }

  /** With distinct key columns, an aggregation raises TypeError exactly
      when the reducer raises for some group and aggregated column;
      otherwise the result has the key columns (in `by` order) and then the
      aggregated columns, and one row per group. */
  lemma AggregateOutcome(g: GroupBy, f: Reducer)
    requires Shaped(g) && Listed(g) && Distinct(g.byCols)
    ensures Aggregate(g, f).Err? <==>
      exists k, c :: k in g.groups && c in NumericColumns(g.df, g.byCols) && ReduceAt(g, f, k, c).Err?
    ensures Aggregate(g, f).Err? ==> Aggregate(g, f).error == TypeError
    ensures Aggregate(g, f).Ok? ==>
      && Aggregate(g, f).value.Valid()
      && Aggregate(g, f).value.columns == g.byCols + NumericColumns(g.df, g.byCols)
      && (g.byCols != [] ==> Aggregate(g, f).value.length == |g.order|)
  {
    FailsSomewhere(g, f);
    UniquesOfDistinct(g.byCols);
    DataUniform(g, f, SortedKeys(g), NumericColumns(g.df, g.byCols));
  }

  /** A successful aggregation's columns are `result_data` after every
      group, and no reducer raised. */
  lemma AggregateTable(g: GroupBy, f: Reducer)
    requires Shaped(g) && Aggregate(g, f).Ok?
    ensures forall c :: c in NumericColumns(g.df, g.byCols) ==> c in g.df.data
    ensures !Fails(g, f, SortedKeys(g), NumericColumns(g.df, g.byCols), |SortedKeys(g)|)
    ensures Aggregate(g, f).value.data == AggregateData(g, f, SortedKeys(g), NumericColumns(g.df, g.byCols))
  {
  }

  /** Row j of a successful aggregation belongs to the j-th group in
      `safe_key` order: its key columns carry that group's key. */
  lemma AggregateKeyCells(g: GroupBy, f: Reducer, j: nat)
    requires Shaped(g) && Distinct(g.byCols) && Aggregate(g, f).Ok?
    requires j < |SortedKeys(g)|
    ensures var t := Aggregate(g, f).value;
      forall i :: 0 <= i < |g.byCols| ==> j < |t.data[g.byCols[i]]| && t.data[g.byCols[i]][j] == SortedKeys(g)[j][i]
  {
    AggregateTable(g, f);
    DataKeyCells(g, f, SortedKeys(g), NumericColumns(g.df, g.byCols), j);
  }

  lemma DataKeyCells(g: GroupBy, f: Reducer, keys: seq<Tuple>, numeric: seq<Name>, j: nat)
    requires Shaped(g) && AreGroups(g, keys) && Distinct(g.byCols) && j < |keys|
    requires forall c :: c in numeric ==> c in g.df.data
    ensures var data := AggregateData(g, f, keys, numeric);
      forall i :: 0 <= i < |g.byCols| ==> j < |data[g.byCols[i]]| && data[g.byCols[i]][j] == keys[j][i]
  {
    var data := AggregateData(g, f, keys, numeric);
    GroupsHaveWidth(g, keys);
    forall i | 0 <= i < |g.byCols| ensures j < |data[g.byCols[i]]| && data[g.byCols[i]][j] == keys[j][i] {
      KeyColumnDistinct(keys, g.byCols, i, |keys|);
    }
  }

  /** Row j of a successful aggregation holds, in every aggregated column,
      the reducer over the non-null cells of the j-th group. */
  lemma AggregateReducedCell(g: GroupBy, f: Reducer, j: nat, c: Name)
    requires Shaped(g) && Aggregate(g, f).Ok?
    requires j < |SortedKeys(g)| && c in NumericColumns(g.df, g.byCols)
    ensures var t := Aggregate(g, f).value; var key := SortedKeys(g)[j];
      c in g.df.data && ReduceAt(g, f, key, c).Ok? && j < |t.data[c]| && t.data[c][j] == ReduceAt(g, f, key, c).value
  {
    var keys := SortedKeys(g);
    var numeric := NumericColumns(g.df, g.byCols);
    AggregateTable(g, f);
    OutputSchema(g, f, keys);
    var q :| 0 <= q < |numeric| && numeric[q] == c;
    assert !RowFails(g, f, keys[j], numeric);
  }

  /** `count()` never raises, and its cell for a group is the number of the
      group's rows whose cell is not null (0 when all are null). */
  lemma CountCells(g: GroupBy, k: Tuple, c: Name)
    requires Shaped(g) && k in g.groups && c in g.df.data
    ensures ReduceAt(g, Count, k, c) == Ok(Int(|set p | 0 <= p < |GroupCells(g, k, c)| && GroupCells(g, k, c)[p] != Null|))
  {
    PresentCount(GroupCells(g, k, c));
    ReduceMeaning(Count, Present(GroupCells(g, k, c)));
  }

  /** `sum()` and `mean()` give null for a group whose cells are all null. */
  lemma AllNullGroupGivesNull(g: GroupBy, f: Reducer, k: Tuple, c: Name)
    requires Shaped(g) && k in g.groups && c in g.df.data && !f.Count?
    requires forall p :: 0 <= p < |GroupCells(g, k, c)| ==> GroupCells(g, k, c)[p] == Null
    ensures ReduceAt(g, f, k, c) == Ok(Null)
  {
    PresentCount(GroupCells(g, k, c));
    ReduceMeaning(f, Present(GroupCells(g, k, c)));
  }

  /** `sum()` and `mean()` raise TypeError exactly when a non-null cell of
      the group is not a number. */
  lemma SumFailsOnText(g: GroupBy, f: Reducer, k: Tuple, c: Name)
    requires Shaped(g) && k in g.groups && c in g.df.data && !f.Count?
    ensures var cells := GroupCells(g, k, c);
      ReduceAt(g, f, k, c).Err? <==> exists p :: 0 <= p < |cells| && cells[p] != Null && !IsNumeric(cells[p])
  {
    var cells := GroupCells(g, k, c);
    var vals := Present(cells);
    PresentCount(cells);
    ReduceMeaning(f, vals);
    if exists p :: 0 <= p < |cells| && cells[p] != Null && !IsNumeric(cells[p]) {
      var p :| 0 <= p < |cells| && cells[p] != Null && !IsNumeric(cells[p]);
      assert cells[p] in vals;
    }
    if ReduceAt(g, f, k, c).Err? {
      var q :| 0 <= q < |vals| && !IsNumeric(vals[q]);
      assert vals[q] in vals;
    }
  }

  /** Over a group with some non-null cell, `sum()` is the total of the
      non-null cells and `mean()` that total over their count. */
  lemma SumAndMeanValues(g: GroupBy, k: Tuple, c: Name)
    requires Shaped(g) && k in g.groups && c in g.df.data
    requires Present(GroupCells(g, k, c)) != [] && ReduceAt(g, Sum, k, c).Ok?
    ensures var vals := Present(GroupCells(g, k, c));
      && AsReal(ReduceAt(g, Sum, k, c).value) == RealTotal(vals)
      && ReduceAt(g, Mean, k, c) == Ok(Float(RealTotal(vals) / |vals| as real))
  {
    var vals := Present(GroupCells(g, k, c));
    ReduceMeaning(Sum, vals);
    ReduceMeaning(Mean, vals);
  }

  /** The groups' sizes (each the number of rows carrying the key) add up
      to the number of rows. */
  lemma GroupSizesAddUp(g: GroupBy)
    requires Formed(g)
    ensures TotalCount(g.order, multiset(KeysOf(g.df, g.byCols))) == Rows(g.df)
  {
    CountsSumToLength(KeysOf(g.df, g.byCols));
  }
}
