/** The read-only DataFrame operations: `columns` and `shape`, `df[item]`,
    `sort_values`, `to_dict`, `fillna` and `dropna`. Each returns a new table
    value; the loops of `to_dict` and `dropna` are methods proved against the
    functions that specify them. */
module FrameOps {
  import opened Values
  import opened Sequences
  import opened Tables
  import opened Counting
  import opened StableSort
  import opened Indexing
  import opened SeriesOps
  import Frames

  /** `columns`: the column names in insertion order, each once, and exactly
      the names the table holds. */
  function Columns(t: Table): (r: seq<Name>)
    requires t.Valid()
    ensures Distinct(r)
    ensures forall c :: c in r <==> c in t.data
  {
    t.columns
  }

  lemma {:induction false} DistinctCardinality<T>(s: seq<T>)
    requires Distinct(s)
    ensures |set x | x in s| == |s|
  {
    if s != [] {
      var init := s[..|s| - 1];
      var last := s[|s| - 1];
      assert s == init + [last];
      DistinctCardinality(init);
      assert (set x | x in s) == (set x | x in init) + {last};
      assert last !in (set x | x in init);
    }
  }

  /** `shape` as the source computes it from the column dict: (0, 0) when
      the dict is empty, else (`_length`, number of entries). */
  lemma ShapeOfTable(t: Table)
    requires t.Valid()
    ensures Shape(t) == if |t.data| == 0 then (0, 0) else (t.length, |t.data|)
  {
    assert t.data.Keys == set c | c in t.columns;
    DistinctCardinality(t.columns);
  }

  /** What `df[item]` returns: a column as a Series, or a new table. */
  datatype Picked = ColumnOf(s: Series) | FrameOf(t: Table)

  /** The string entries of `items` that name a column, in request order,
      repeats kept. */
  function Requested(t: Table, items: seq<Value>): (r: seq<Name>)
    ensures forall k :: 0 <= k < |r| ==> r[k] in t.data && Str(r[k]) in items
    ensures forall j :: 0 <= j < |items| && items[j].Str? && items[j].s in t.data ==> items[j].s in r
  {
    if items == [] then []
    else
      var x := items[|items| - 1];
      Requested(t, items[..|items| - 1]) + if x.Str? && x.s in t.data then [x.s] else []
  }

  /** The table `DataFrame(new_data)` builds from columns that all have the
      table's length. */
  function Sub(t: Table, columns: seq<Name>, data: map<Name, seq<Value>>): (r: Table)
    requires t.Valid() && Schema(columns, data) && Uniform(data, t.length)
    ensures r.Valid() && r.columns == columns && r.data == data
    ensures r.length == (if columns == [] then 0 else t.length) && r.index == Range(r.length)
  {
    Assemble(columns, data, t.length)
  }

  /** `df[item]` as the engine intends it: a column name gives that column
      as a Series with the default index (KeyError when absent); a list is
      handled by `SelectList`, and a Series is read as the list of its
      values; anything else is a TypeError. */
  function Select(t: Table, key: Key): (r: Result<Picked>)
    requires t.Valid()
    ensures key.Label? && key.v.Str? && key.v.s !in t.data ==> r == Err(KeyError)
    ensures key.Label? && key.v.Str? && key.v.s in t.data ==>
      r == Ok(ColumnOf(Series(t.data[key.v.s], Range(t.length), Some(key.v.s))))
    ensures key.Items? ==> r == SelectList(t, key.items)
    ensures key.SeriesKey? ==> r == SelectList(t, key.s.values)
    ensures (key.Label? && !key.v.Str?) || key.Slice? ==> r == Err(TypeError)
  {
    match key
    case Label(v) =>
      if !v.Str? then Err(TypeError)
      else if v.s !in t.data then Err(KeyError)
      else Ok(ColumnOf(Series(t.data[v.s], Range(t.length), Some(v.s))))
    case Items(items) => SelectList(t, items)
    case SeriesKey(s) => SelectList(t, s.values)
    case Slice(_, _, _) => Err(TypeError)
  }

  /** The list branches of `df[item]`: a list starting with a string keeps
      the requested names that exist, first request first, and silently
      drops the rest; a list starting with a bool is a row mask (ValueError
      on a length mismatch) applied to every column; an empty list gives an
      empty table; any other list is a TypeError. */
  function SelectList(t: Table, items: seq<Value>): (r: Result<Picked>)
    requires t.Valid()
    ensures items != [] && items[0].Str? ==>
      && r.Ok? && r.value.FrameOf? && r.value.t.Valid()
      && r.value.t.columns == Uniques(Requested(t, items))
      && (forall c :: c in r.value.t.data <==> c in t.data && Str(c) in items)
      && (forall c :: c in r.value.t.data ==> r.value.t.data[c] == t.data[c])
      && r.value.t.length == (if r.value.t.columns == [] then 0 else t.length)
    ensures IsMask(items) && |items| != t.length ==> r == Err(ValueError)
    ensures IsMask(items) && |items| == t.length ==>
      && r.Ok? && r.value.FrameOf? && r.value.t.Valid() && r.value.t.columns == t.columns
      && (forall c :: c in r.value.t.data <==> c in t.data)
      && (forall c :: c in t.data ==> r.value.t.data[c] == Filter(t.data[c], items))
      && r.value.t.length == (if t.columns == [] then 0 else |TruePositions(items)|)
    ensures items == [] ==> r == Ok(FrameOf(Table([], map[], 0, [])))
    ensures items != [] && !items[0].Str? && !items[0].Bool? ==> r == Err(TypeError)
  {
    if items != [] && items[0].Str? then Ok(FrameOf(SelectNames(t, items)))
    else if IsMask(items) then
      if |items| != t.length then Err(ValueError) else Ok(FrameOf(SelectMask(t, items)))
    else if items == [] then Ok(FrameOf(Table([], map[], 0, [])))
    else Err(TypeError)
  }

  /** The requested names that exist, first request first. */
  function SelectNames(t: Table, items: seq<Value>): (u: Table)
    requires t.Valid()
    ensures u.Valid() && u.columns == Uniques(Requested(t, items))
    ensures forall c :: c in u.data <==> c in t.data && Str(c) in items
    ensures forall c :: c in u.data ==> u.data[c] == t.data[c]
    ensures u.length == (if u.columns == [] then 0 else t.length)
  {
    var req := Requested(t, items);
    var names := Uniques(req);
    assert forall c :: c in names <==> c in req by {
      forall c | c in req ensures c in names {
        var j :| 0 <= j < |req| && req[j] == c;
      }
    }
    Sub(t, names, map c | c in req :: t.data[c])
  }

  /** Every column filtered by a row mask of the table's length. */
  function SelectMask(t: Table, items: seq<Value>): (u: Table)
    requires t.Valid() && IsMask(items) && |items| == t.length
    ensures u.Valid() && u.columns == t.columns
    ensures forall c :: c in u.data <==> c in t.data
    ensures forall c :: c in t.data ==> u.data[c] == Filter(t.data[c], items)
    ensures u.length == (if t.columns == [] then 0 else |TruePositions(items)|)
  {
    Assemble(t.columns, map c | c in t.data :: Filter(t.data[c], items), |TruePositions(items)|)
  }

  /** `df[item]` as written: a Series is not among the accepted keys, so
      `df[df['v'] > 2]` raises TypeError. */
  function SelectAsWritten(t: Table, key: Key): (r: Result<Picked>)
    requires t.Valid()
    ensures key.SeriesKey? ==> r == Err(TypeError)
    ensures !key.SeriesKey? ==> r == Select(t, key)
  {
    if key.SeriesKey? then Err(TypeError) else Select(t, key)
  }

  /** The selected names keep the order of their first request. */
  lemma SelectKeepsRequestOrder(t: Table, items: seq<Value>, a: nat, b: nat)
    requires t.Valid() && items != [] && items[0].Str?
    requires a < b < |Select(t, Items(items)).value.t.columns|
    ensures var cols := Select(t, Items(items)).value.t.columns;
      FirstIndex(Requested(t, items), cols[a]) < FirstIndex(Requested(t, items), cols[b])
  {
    UniquesInFirstSeenOrder(Requested(t, items), a, b);
  }

  /** Filtering by a comparison Series, `df[df[c] > v]`: with the Series
      read as a mask, the result holds exactly the rows whose cell in c is
      not null and compares true, in their original order; as written the
      same call raises TypeError. */
  lemma SelectByComparison(t: Table, c: Name, v: Value, op: (Value, Value) -> Option<bool>)
    requires t.Valid() && c in t.data && t.length > 0
    ensures Select(t, Label(Str(c))).Ok? && Select(t, Label(Str(c))).value.ColumnOf?
    ensures var col := Select(t, Label(Str(c))).value.s;
      var cmp := Compared(col, Scalar(v), op);
      && cmp.Ok?
      && SelectAsWritten(t, SeriesKey(cmp.value)) == Err(TypeError)
      && Select(t, SeriesKey(cmp.value)).Ok?
      && var u := Select(t, SeriesKey(cmp.value)).value.t;
         var kept := TruePositions(cmp.value.values);
         && u.columns == t.columns && u.length == |kept|
         && (forall k :: 0 <= k < |kept| ==> t.data[c][kept[k]] != Null && op(t.data[c][kept[k]], v) == Some(true))
         && (forall i :: 0 <= i < t.length && t.data[c][i] != Null && op(t.data[c][i], v) == Some(true) ==> i in kept)
         && (forall d, k :: d in t.data && 0 <= k < |kept| ==> u.data[d][k] == t.data[d][kept[k]])
  {
    var col := Select(t, Label(Str(c))).value.s;
    var cmp := Compared(col, Scalar(v), op);
    assert IsMask(cmp.value.values);
  }

  // ----- sort_values -----

  /** Positions of the null (`isNull`) or non-null cells, ascending. */
  function Where(col: seq<Value>, isNull: bool): (r: seq<nat>)
    ensures AllBelow(r, |col|) && Increasing(r)
    ensures forall k :: 0 <= k < |r| ==> (col[r[k]] == Null) == isNull
    ensures forall i :: 0 <= i < |col| && (col[i] == Null) == isNull ==> i in r
  {
    if col == [] then []
    else
      var rest := Where(col[..|col| - 1], isNull);
      assert AllBelow(rest, |col| - 1);
      rest + if (col[|col| - 1] == Null) == isNull then [|col| - 1] else []
  }

  /** The non-null and null positions together are every position once. */
  lemma {:induction false} WherePartitions(col: seq<Value>)
    ensures multiset(Where(col, false)) + multiset(Where(col, true)) == multiset(Iota(|col|))
  {
    if col != [] {
      var n := |col| - 1;
      WherePartitions(col[..n]);
      assert Iota(|col|) == Iota(n) + [n];
    }
  }

  /** The comparison `sort(reverse=not ascending)` applies to the keys. */
  function Direction(ascending: bool): (Value, Value) -> bool {
    if ascending then Lt else Gt
  }

  lemma DirectionIsStrictTotalOrder(ascending: bool)
    ensures StrictTotalOrder(Direction(ascending))
  {
    if ascending { LtIsStrictTotalOrder(); } else { GtIsStrictTotalOrder(); }
  }

  /** The row order `sort_values` computes: the non-null positions stably
      sorted by their cell (reversed comparison when descending), then the
      null positions in their original order. */
  function SortOrder(col: seq<Value>, ascending: bool): seq<nat> {
    Sort(col, Direction(ascending), Where(col, false)) + Where(col, true)
  }

  lemma SortOrderIsPermutation(col: seq<Value>, ascending: bool)
    ensures multiset(SortOrder(col, ascending)) == multiset(Iota(|col|))
    ensures AllBelow(SortOrder(col, ascending), |col|) && Distinct(SortOrder(col, ascending))
    ensures |SortOrder(col, ascending)| == |col|
    ensures |Sort(col, Direction(ascending), Where(col, false))| == |Where(col, false)|
  {
    SortPermutes(col, Direction(ascending), Where(col, false));
    WherePartitions(col);
    PermutationOfIota(SortOrder(col, ascending), |col|);
  }

  /** `sort_values(sortKey, ascending)` with the rows taken by the corrected
      `iloc`: KeyError for an unknown column, otherwise every row once, in
      `SortOrder`. */
  function SortValues(t: Table, sortKey: Name, ascending: bool): (r: Result<Table>)
    requires t.Valid()
    ensures r.Err? <==> sortKey !in t.data
    ensures r.Err? ==> r.error == KeyError
    ensures r.Ok? ==> && r.value.Valid() && r.value.columns == t.columns && r.value.length == t.length
                      && (forall c :: c in r.value.data <==> c in t.data)
  {
    if sortKey !in t.data then Err(KeyError)
    else
      SortOrderIsPermutation(t.data[sortKey], ascending);
      Ok(Take(t, SortOrder(t.data[sortKey], ascending)))
  }

  /** The result is a reordering of the rows: each row of the input appears
      exactly once, carried whole (every column and its label). */
  lemma SortValuesPermutes(t: Table, sortKey: Name, ascending: bool, c: Name)
    requires t.Valid() && sortKey in t.data && c in t.data
    ensures var order := SortOrder(t.data[sortKey], ascending);
      && multiset(order) == multiset(Iota(t.length))
      && AllBelow(order, t.length)
      && SortValues(t, sortKey, ascending).value.data[c] == Gather(t.data[c], order)
      && SortValues(t, sortKey, ascending).value.index == Gather(t.index, order)
  {
    SortOrderIsPermutation(t.data[sortKey], ascending);
  }

  /** The sorted non-null positions: each once, each with a non-null cell,
      ordered by (cell, position). */
  lemma SortedValid(col: seq<Value>, ascending: bool)
    ensures var s := Sort(col, Direction(ascending), Where(col, false));
      && |s| == |Where(col, false)| && AllBelow(s, |col|)
      && (forall k :: 0 <= k < |s| ==> col[s[k]] != Null)
      && SortedBy(col, Direction(ascending), s)
  {
    var valid := Where(col, false);
    var s := Sort(col, Direction(ascending), valid);
    SortPermutes(col, Direction(ascending), valid);
    DirectionIsStrictTotalOrder(ascending);
    assert Distinct(valid);
    SortSorted(col, Direction(ascending), valid);
    forall k | 0 <= k < |s| ensures s[k] < |col| && col[s[k]] != Null {
      assert s[k] in multiset(valid);
      var q :| 0 <= q < |valid| && valid[q] == s[k];
    }
  }

  /** The row order is the sorted non-null positions followed by the null
      positions. */
  lemma SortOrderLayout(col: seq<Value>, ascending: bool, s: seq<nat>, nulls: seq<nat>, order: seq<nat>)
    requires s == Sort(col, Direction(ascending), Where(col, false)) && nulls == Where(col, true)
    requires order == SortOrder(col, ascending)
    ensures |order| == |col| && AllBelow(order, |col|) && |s| == |Where(col, false)|
    ensures forall k :: 0 <= k < |s| ==> order[k] == s[k]
    ensures forall k :: |s| <= k < |order| ==> order[k] == nulls[k - |s|]
  {
    assert |order| == |col| && AllBelow(order, |col|) && |s| == |Where(col, false)| by {
      SortOrderIsPermutation(col, ascending);
    }
    SplitLayout(order, s, nulls);
  }

  /** Positions in a concatenation. */
  lemma SplitLayout(order: seq<nat>, s: seq<nat>, t: seq<nat>)
    requires order == s + t
    ensures forall k :: 0 <= k < |s| ==> order[k] == s[k]
    ensures forall k :: |s| <= k < |order| ==> order[k] == t[k - |s|]
  {
  }

  /** On the sort column: the non-null cells come first, in ascending order
      (descending when `ascending` is false), equal cells in their original
      order; the null cells follow in their original order. */
  lemma SortOrderOrdersCells(col: seq<Value>, ascending: bool, a: nat, b: nat)
    requires a < b < |col|
    ensures var order := SortOrder(col, ascending);
      var valid := |Where(col, false)|;
      && |order| == |col| && AllBelow(order, |col|)
      && (col[order[a]] == Null <==> a >= valid)
      && (b < valid ==> !Direction(ascending)(col[order[b]], col[order[a]]))
      && (b < valid && col[order[a]] == col[order[b]] ==> order[a] < order[b])
      && (valid <= a ==> order[a] < order[b])
  {
    var s := Sort(col, Direction(ascending), Where(col, false));
    var nulls := Where(col, true);
    var order := SortOrder(col, ascending);
    SortOrderLayout(col, ascending, s, nulls, order);
    SortedValid(col, ascending);
    if b < |s| {
      DirectionIsStrictTotalOrder(ascending);
      SortedMeansStable(col, Direction(ascending), s, a, b);
      assert order[a] == s[a] && order[b] == s[b];
    } else if a < |s| {
      assert order[a] == s[a] && order[b] == nulls[b - |s|];
    } else {
      assert order[a] == nulls[a - |s|] && order[b] == nulls[b - |s|];
    }
  }

  /** In the sorted table: non-null rows first, ordered by the sort column
      (ascending, or descending when `ascending` is false), rows with equal
      cells in their original order; the null rows follow in their original
      order. */
  lemma SortValuesOrdersRows(t: Table, sortKey: Name, ascending: bool, a: nat, b: nat)
    requires t.Valid() && sortKey in t.data
    requires a < b < t.length
    ensures var order := SortOrder(t.data[sortKey], ascending);
      var sorted := SortValues(t, sortKey, ascending).value.data[sortKey];
      var valid := |Where(t.data[sortKey], false)|;
      && |sorted| == t.length
      && (sorted[a] == Null <==> a >= valid)
      && (b < valid && ascending ==> !Lt(sorted[b], sorted[a]))
      && (b < valid && !ascending ==> !Gt(sorted[b], sorted[a]))
      && (b < valid && sorted[a] == sorted[b] ==> order[a] < order[b])
      && (valid <= a ==> order[a] < order[b])
  {
    SortOrderOrdersCells(t.data[sortKey], ascending, a, b);
  }

  /** As written the rows are taken by the source's `iloc`, which cannot
      build the result: a non-empty table raises AttributeError, and an empty
      one a TypeError. */
  function SortValuesAsWritten(t: Table, sortKey: Name, ascending: bool): (r: Result<Selection>)
    requires t.Valid()
  {
    if sortKey !in t.data then Err(KeyError)
    else ILocAsWritten(t, Items(AsInts(SortOrder(t.data[sortKey], ascending))))
  }

  lemma SortValuesAsWrittenFails(t: Table, sortKey: Name, ascending: bool)
    requires t.Valid() && sortKey in t.data
    ensures SortValues(t, sortKey, ascending).Ok?
    ensures SortValuesAsWritten(t, sortKey, ascending) == Err(if t.length == 0 then TypeError else AttributeError)
  {
    SortOrderIsPermutation(t.data[sortKey], ascending);
    ResolveAsInts(t.length, SortOrder(t.data[sortKey], ascending));
  }

  // ----- to_dict -----

  /** `to_dict("records")`: one dict per row up to `shape[0]`, mapping every
      column to its cell. */
  function Records(t: Table): (r: seq<Row>)
    requires t.Valid()
    ensures |r| == Rows(t)
    ensures forall i :: 0 <= i < |r| ==> r[i] == RowAt(t, i)
  {
    seq(Rows(t), i requires 0 <= i < Rows(t) => RowAt(t, i))
  }

  /** The loops of `to_dict`: ValueError for any orient but "records". */
  method ToDict(t: Table, orient: string) returns (r: Result<seq<Row>>)
    requires t.Valid()
    ensures orient != "records" ==> r == Err(ValueError)
    ensures orient == "records" ==> r == Ok(Records(t))
  {
    if orient != "records" {
      return Err(ValueError);
    }
    var records: seq<Row> := [];
    for i := 0 to Rows(t)
      invariant |records| == i
      invariant forall k :: 0 <= k < i ==> records[k] == RowAt(t, k)
    {
      var row: Row := map[];
      for j := 0 to |t.columns|
        invariant forall c :: c in row <==> c in t.columns[..j]
        invariant forall c :: c in row ==> row[c] == t.data[c][i]
      {
        var c := t.columns[j];
        row := row[c := t.data[c][i]];
      }
      assert t.columns[..|t.columns|] == t.columns;
      assert row == RowAt(t, i);
      records := records + [row];
    }
    assert records == Records(t);
    return Ok(records);
  }

  /** Rows as the records the constructor accepts. */
  function AsRecords(rows: seq<Row>): (r: seq<Frames.RowItem>)
    ensures |r| == |rows| && forall i :: 0 <= i < |rows| ==> r[i] == Frames.Record(rows[i])
  {
    seq(|rows|, i requires 0 <= i < |rows| => Frames.Record(rows[i]))
  }

  /** Exporting records and building a table from them again gives back
      every column and cell, with the default index, whenever the table has
      rows and its keys are read in column order. */
  lemma ToDictRoundTrip(t: Table)
    requires t.Valid() && Rows(t) > 0
    ensures Frames.KeysOf(AsRecords(Records(t)), t.columns)
    ensures Frames.FromRecords(AsRecords(Records(t)), t.columns) == Ok(Table(t.columns, t.data, t.length, Range(t.length)))
  {
    var rows := AsRecords(Records(t));
    forall i | 0 <= i < |rows| ensures rows[i].Record? && rows[i].fields == RowAt(t, i) {
    }
    assert forall i :: 0 <= i < |rows| ==> rows[i].fields.Keys == t.data.Keys;
    FullRecords(rows, t.columns, t.data, t.length);
  }

  /** Records that all carry exactly the columns of `data`, record i holding
      row i, build the table of `data` again. */
  lemma FullRecords(rows: seq<Frames.RowItem>, columns: seq<Name>, data: map<Name, seq<Value>>, n: nat)
    requires Schema(columns, data) && Uniform(data, n) && columns != [] && |rows| == n > 0
    requires forall i :: 0 <= i < n ==> rows[i].Record? && rows[i].fields.Keys == data.Keys
    requires forall i, c :: 0 <= i < n && c in data ==> rows[i].fields[c] == data[c][i]
    ensures Frames.KeysOf(rows, columns)
    ensures Frames.FromRecords(rows, columns) == Ok(Table(columns, data, n, Range(n)))
  {
    FullRecordsKeys(rows, columns, data, n);
    FullRecordsData(rows, columns, data, n);
    assert !exists i :: 0 <= i < |rows| && rows[i].NotARecord?;
  }

  lemma FullRecordsData(rows: seq<Frames.RowItem>, columns: seq<Name>, data: map<Name, seq<Value>>, n: nat)
    requires Schema(columns, data) && Uniform(data, n) && |rows| == n
    requires forall i :: 0 <= i < n ==> rows[i].Record? && rows[i].fields.Keys == data.Keys
    requires forall i, c :: 0 <= i < n && c in data ==> rows[i].fields[c] == data[c][i]
    ensures (map k | k in columns :: Frames.Filled(rows, n, k)) == data
  {
    var filled := map k | k in columns :: Frames.Filled(rows, n, k);
    forall c | c in data ensures filled[c] == data[c] {
      FullRecordsColumn(rows, data, n, c);
    }
  }

  lemma FullRecordsKeys(rows: seq<Frames.RowItem>, columns: seq<Name>, data: map<Name, seq<Value>>, n: nat)
    requires Schema(columns, data) && |rows| == n > 0
    requires forall i :: 0 <= i < n ==> rows[i].Record? && rows[i].fields.Keys == data.Keys
    ensures Frames.KeysOf(rows, columns)
  {
    forall m | 0 <= m < |columns|
      ensures exists i :: 0 <= i < |rows| && rows[i].Record? && columns[m] in rows[i].fields
    {
      assert columns[m] in data;
      assert columns[m] in rows[0].fields.Keys;
    }
    assert forall m :: 0 <= m < |columns| ==>
      exists i :: 0 <= i < |rows| && rows[i].Record? && columns[m] in rows[i].fields;
    forall i, k | 0 <= i < |rows| && rows[i].Record? && k in rows[i].fields ensures k in columns {
      assert k in data;
    }
  }

  lemma FullRecordsColumn(rows: seq<Frames.RowItem>, data: map<Name, seq<Value>>, n: nat, c: Name)
    requires Uniform(data, n) && |rows| == n && c in data
    requires forall i :: 0 <= i < n ==> rows[i].Record? && rows[i].fields.Keys == data.Keys
    requires forall i, c :: 0 <= i < n && c in data ==> rows[i].fields[c] == data[c][i]
    ensures Frames.Filled(rows, n, c) == data[c]
  {
  }

  /** A table without rows exports no records, so its columns cannot be
      rebuilt from them. */
  lemma ToDictDropsColumnsWithoutRows(t: Table)
    requires t.Valid() && Rows(t) == 0
    ensures Records(t) == []
    ensures Frames.FromRecords(AsRecords(Records(t)), []) == Ok(Table([], map[], 0, []))
  {
  }

  // ----- fillna -----

  function FillCell(x: Value, v: Value): Value {
    if x == Null then v else x
  }

  /** `fillna(value)`: the same columns in the same order, each null cell
      replaced by `value` and every other cell kept; a fresh default index. */
  function FillNa(t: Table, v: Value): (r: Table)
    requires t.Valid()
    ensures r.Valid() && r.columns == t.columns && r.length == Rows(t) && r.index == Range(Rows(t))
    ensures forall c :: c in r.data <==> c in t.data
    ensures forall c, i :: c in t.data && 0 <= i < r.length ==>
      r.data[c][i] == (if t.data[c][i] == Null then v else t.data[c][i])
  {
    Assemble(t.columns, map c | c in t.data :: seq(t.length, i requires 0 <= i < t.length => FillCell(t.data[c][i], v)), t.length)
  }

  /** With a non-null value no null cell is left. */
  lemma FillNaLeavesNoNull(t: Table, v: Value, c: Name, i: nat)
    requires t.Valid() && v != Null && c in t.data && i < FillNa(t, v).length
    ensures FillNa(t, v).data[c][i] != Null
  {
  }

  /** Filling twice with the same value is filling once. */
  lemma FillNaIdempotent(t: Table, v: Value)
    requires t.Valid()
    ensures FillNa(FillNa(t, v), v) == FillNa(t, v)
  {
    var u := FillNa(t, v);
    var w := FillNa(u, v);
    assert u.columns == [] ==> u.length == 0;
    forall c | c in t.data ensures w.data[c] == u.data[c] {
    }
  }

  // ----- dropna -----

  /** Row i has no null cell. */
  predicate Complete(t: Table, i: nat)
    requires t.Valid() && i < t.length
  {
    forall c :: c in t.data ==> t.data[c][i] != Null
  }

  /** One flag per row up to `shape[0]`: the row has no null cell. */
  function CompleteMask(t: Table): (m: seq<Value>)
    requires t.Valid()
    ensures |m| == Rows(t)
    ensures forall i :: 0 <= i < Rows(t) ==> (Truthy(m[i]) <==> Complete(t, i))
  {
    seq(Rows(t), i requires 0 <= i < Rows(t) => Bool(Complete(t, i)))
  }

  /** The inner scan of `dropna`: look for a null across the columns of
      row i and stop at the first. */
  method HasNull(t: Table, i: nat) returns (hasNone: bool)
    requires t.Valid() && i < t.length
    ensures hasNone <==> !Complete(t, i)
  {
    hasNone := false;
    for j := 0 to |t.columns|
      invariant forall q :: 0 <= q < j ==> t.data[t.columns[q]][i] != Null
    {
      if t.data[t.columns[j]][i] == Null {
        return true;
      }
    }
    forall c | c in t.data ensures t.data[c][i] != Null {
      var q :| 0 <= q < |t.columns| && t.columns[q] == c;
    }
  }

  /** The row loop of `dropna`: keep each row in which no null was seen. */
  method CompleteRows(t: Table) returns (keep: seq<nat>)
    requires t.Valid()
    ensures keep == TruePositions(CompleteMask(t))
  {
    var mask := CompleteMask(t);
    keep := [];
    for i := 0 to Rows(t)
      invariant keep == TruePositions(mask[..i])
    {
      var hasNone := HasNull(t, i);
      TruePositionsSnoc(mask, i);
      if !hasNone {
        keep := keep + [i];
      }
    }
    assert mask[..Rows(t)] == mask;
  }

  /** One more flag: its position joins the list when it is set. */
  lemma TruePositionsSnoc(mask: seq<Value>, i: nat)
    requires i < |mask|
    ensures TruePositions(mask[..i + 1]) == TruePositions(mask[..i]) + if Truthy(mask[i]) then [i] else []
  {
    assert mask[..i + 1][..i] == mask[..i];
  }

  /** `dropna()` with the rows taken by the corrected `iloc`: exactly the
      rows without a null cell, in order; when none survives, the same
      columns with no rows. */
  function DropNa(t: Table): (r: Table)
    requires t.Valid()
    ensures r.Valid() && r.columns == t.columns
    ensures forall c :: c in r.data <==> c in t.data
    ensures r.length == |TruePositions(CompleteMask(t))|
    ensures forall c :: c in t.data ==> r.data[c] == Gather(t.data[c], TruePositions(CompleteMask(t)))
  {
    var keep := TruePositions(CompleteMask(t));
    if keep == [] then Assemble(t.columns, map c | c in t.data :: [], 0)
    else Take(t, keep)
  }

  /** Every row left has no null, and every row without a null is left. */
  lemma DropNaKeepsExactlyCompleteRows(t: Table, i: nat)
    requires t.Valid() && i < Rows(t)
    ensures Complete(t, i) <==> i in TruePositions(CompleteMask(t))
    ensures forall k, c :: 0 <= k < DropNa(t).length && c in DropNa(t).data ==> DropNa(t).data[c][k] != Null
  {
    var keep := TruePositions(CompleteMask(t));
    forall k, c | 0 <= k < DropNa(t).length && c in DropNa(t).data ensures DropNa(t).data[c][k] != Null {
      assert Complete(t, keep[k]);
    }
  }

  /** As written, surviving rows are taken by the source's `iloc`, which
      raises AttributeError; only a table with no complete row comes back. */
  function DropNaAsWritten(t: Table): (r: Result<Selection>)
    requires t.Valid()
  {
    var keep := TruePositions(CompleteMask(t));
    if keep == [] then Ok(TableOf(Assemble(t.columns, map c | c in t.data :: [], 0)))
    else ILocAsWritten(t, Items(AsInts(keep)))
  }

  lemma DropNaAsWrittenFails(t: Table)
    requires t.Valid() && TruePositions(CompleteMask(t)) != []
    ensures DropNaAsWritten(t) == Err(AttributeError)
  {
    var keep := TruePositions(CompleteMask(t));
    ResolveAsInts(t.length, keep);
  }
}
