/** `concat(objs)`: stacks tables vertically. The result has every column
    that occurs in any input, in first-seen order; each input contributes
    its rows in turn, with null in the columns it lacks, and the result gets
    a fresh default index. */
module Concatenation {
  import opened Values
  import opened Sequences
  import opened Tables
  import opened Counting

  predicate AllValid(objs: seq<Table>) {
    forall i :: 0 <= i < |objs| ==> objs[i].Valid()
  }

  /** The column lists of the first n tables, one after another. */
  function ColumnLists(objs: seq<Table>, n: nat): seq<Name>
    requires n <= |objs|
  {
    if n == 0 then [] else ColumnLists(objs, n - 1) + objs[n - 1].columns
  }

  /** A name occurs in the column lists exactly when one of the tables has
      that column. */
  lemma {:induction false} ColumnListsMembers(objs: seq<Table>, n: nat, c: Name)
    requires n <= |objs|
    ensures c in ColumnLists(objs, n) <==> exists i :: 0 <= i < n && c in objs[i].columns
    decreases n
  {
    if n > 0 {
      ColumnListsMembers(objs, n - 1, c);
    }
  }

  /** The result's columns: the first occurrence of each name. */
  function AllColumns(objs: seq<Table>): seq<Name> {
    Uniques(ColumnLists(objs, |objs|))
  }

  /** The number of rows (`shape[0]`) of the first n tables together. */
  function TotalRows(objs: seq<Table>, n: nat): nat
    requires n <= |objs|
  {
    if n == 0 then 0 else TotalRows(objs, n - 1) + Rows(objs[n - 1])
  }

  /** What one table adds to column c: its own cells, or one null per row
      when it lacks the column. */
  function Segment(t: Table, c: Name): (s: seq<Value>)
    requires t.Valid()
    ensures |s| == Rows(t)
  {
    if c in t.columns then t.data[c] else seq(Rows(t), _ => Null)
  }

  /** Column c after the first n tables. */
  function Stacked(objs: seq<Table>, n: nat, c: Name): (s: seq<Value>)
    requires AllValid(objs) && n <= |objs|
    ensures |s| == TotalRows(objs, n)
  {
    if n == 0 then [] else Stacked(objs, n - 1, c) + Segment(objs[n - 1], c)
  }

  /** `result_data` after the first n tables. */
  function StackedData(objs: seq<Table>, n: nat, cols: seq<Name>): (m: map<Name, seq<Value>>)
    requires AllValid(objs) && n <= |objs|
    ensures Uniform(m, TotalRows(objs, n))
  {
    map c | c in cols :: Stacked(objs, n, c)
  }

  /** `concat(objs)`: ValueError on an empty list; otherwise
      `DataFrame(result_data)`, which cannot fail since every column has
      the same length. */
  function Concat(objs: seq<Table>): (r: Result<Table>)
    requires AllValid(objs)
    ensures r.Err? <==> objs == []
    ensures r.Err? ==> r.error == ValueError
  {
    if objs == [] then Err(ValueError)
    else
      var cols := AllColumns(objs);
      var data := StackedData(objs, |objs|, cols);
      assert Schema(cols, data);
      FromDict(cols, data)
  }

  // ---------------------------------------------------------------------
  // The loops

  /** The first loop: the seen set and the growing list of new names. */
  method CollectColumns(objs: seq<Table>) returns (allColumns: seq<Name>)
    ensures allColumns == AllColumns(objs)
  {
    allColumns := [];
    var seen: set<Name> := {};
    for i := 0 to |objs|
      invariant Seen(ColumnLists(objs, i), seen, allColumns)
    {
      seen, allColumns := CollectNames(ColumnLists(objs, i), objs[i].columns, seen, allColumns);
      assert ColumnLists(objs, i) + objs[i].columns == ColumnLists(objs, i + 1);
    }
  }

  /** The names met so far, as the seen set and as the list of new names. */
  ghost predicate Seen(met: seq<Name>, seen: set<Name>, acc: seq<Name>) {
    acc == Uniques(met) && forall c :: c in seen <==> c in met
  }

  /** The inner loop over one table's columns. */
  method CollectNames(ghost before: seq<Name>, cols: seq<Name>, seen: set<Name>, acc: seq<Name>)
      returns (seen': set<Name>, acc': seq<Name>)
    requires Seen(before, seen, acc)
    ensures Seen(before + cols, seen', acc')
  {
    seen', acc' := seen, acc;
    assert Seen(before + cols[..0], seen', acc') by {
      assert before + cols[..0] == before;
    }
    for k := 0 to |cols|
      invariant Seen(before + cols[..k], seen', acc')
    {
      var col := cols[k];
      SeenStep(before, cols, k, seen', acc');
      if col !in seen' {
        acc' := acc' + [col];
        seen' := seen' + {col};
      }
    }
    assert Seen(before + cols, seen', acc') by {
      assert before + cols[..|cols|] == before + cols;
    }
  }

  /** One more name: it joins the list and the seen set unless already seen. */
  lemma SeenStep(before: seq<Name>, cols: seq<Name>, k: nat, seen: set<Name>, acc: seq<Name>)
    requires k < |cols| && Seen(before + cols[..k], seen, acc)
    ensures cols[k] in seen ==> Seen(before + cols[..k + 1], seen, acc)
    ensures cols[k] !in seen ==> Seen(before + cols[..k + 1], seen + {cols[k]}, acc + [cols[k]])
  {
    var col := cols[k];
    assert before + cols[..k + 1] == (before + cols[..k]) + [col];
    UniquesSnoc(before + cols[..k], col);
  }

  /** Column cols[p] holds the first i + 1 tables for p < k and the first i
      for the others. */
  ghost predicate Partial(objs: seq<Table>, i: nat, cols: seq<Name>, k: nat, data: map<Name, seq<Value>>)
    requires AllValid(objs) && i < |objs| && k <= |cols|
  {
    && (forall c :: c in data <==> c in cols)
    && (forall p :: 0 <= p < k ==> data[cols[p]] == Stacked(objs, i + 1, cols[p]))
    && (forall p :: k <= p < |cols| ==> data[cols[p]] == Stacked(objs, i, cols[p]))
  }

  /** Every column holds the first i tables. */
  ghost predicate Filled(objs: seq<Table>, i: nat, cols: seq<Name>, data: map<Name, seq<Value>>)
    requires AllValid(objs) && i <= |objs|
  {
    && (forall c :: c in data <==> c in cols)
    && (forall c :: c in data ==> data[c] == Stacked(objs, i, c))
  }

  lemma FilledIsPartial(objs: seq<Table>, i: nat, cols: seq<Name>, data: map<Name, seq<Value>>)
    requires AllValid(objs) && i < |objs| && Filled(objs, i, cols, data)
    ensures Partial(objs, i, cols, 0, data)
  {
  }

  lemma PartialIsFilled(objs: seq<Table>, i: nat, cols: seq<Name>, data: map<Name, seq<Value>>)
    requires AllValid(objs) && i < |objs| && Partial(objs, i, cols, |cols|, data)
    ensures Filled(objs, i + 1, cols, data)
  {
    forall c | c in data ensures data[c] == Stacked(objs, i + 1, c) {
      var p :| 0 <= p < |cols| && cols[p] == c;
    }
  }

  lemma PartialStep(objs: seq<Table>, i: nat, cols: seq<Name>, k: nat, data: map<Name, seq<Value>>)
    requires AllValid(objs) && i < |objs| && k < |cols| && Distinct(cols)
    requires Partial(objs, i, cols, k, data)
    ensures var c := cols[k];
      Partial(objs, i, cols, k + 1, data[c := data[c] + Segment(objs[i], c)])
  {
    var c := cols[k];
    var m := data[c := data[c] + Segment(objs[i], c)];
    assert m[c] == Stacked(objs, i + 1, c);
    forall p | 0 <= p < |cols| && p != k ensures m[cols[p]] == data[cols[p]] {
      assert cols[p] != c;
    }
    assert forall d :: d in m <==> d in cols;
  }

  /** The second loop: every table extends every result column, with its own
      cells or with nulls. */
  method Extend(objs: seq<Table>, cols: seq<Name>) returns (data: map<Name, seq<Value>>)
    requires AllValid(objs) && Distinct(cols)
    ensures Filled(objs, |objs|, cols, data)
  {
    data := map c | c in cols :: [];
    for i := 0 to |objs|
      invariant Filled(objs, i, cols, data)
    {
      var df := objs[i];
      var currentLen := Rows(df);
      FilledIsPartial(objs, i, cols, data);
      for k := 0 to |cols|
        invariant Partial(objs, i, cols, k, data)
      {
        var col := cols[k];
        PartialStep(objs, i, cols, k, data);
        if col in df.columns {
          data := data[col := data[col] + df.data[col]];
        } else {
          data := data[col := data[col] + seq(currentLen, _ => Null)];
        }
      }
      PartialIsFilled(objs, i, cols, data);
    }
  }

  /** `concat` as the source writes it. */
  method ConcatLoop(objs: seq<Table>) returns (r: Result<Table>)
    requires AllValid(objs)
    ensures r == Concat(objs)
  {
    if objs == [] {
      return Err(ValueError);
    }
    var allColumns := CollectColumns(objs);
    var data := Extend(objs, allColumns);
    assert data == StackedData(objs, |objs|, allColumns);
    r := FromDict(allColumns, data);
  }

  // ---------------------------------------------------------------------
  // What concat promises

  /** The result's columns are the union of the inputs' columns, each once,
      ordered by first occurrence. */
  lemma ConcatColumns(objs: seq<Table>)
    requires AllValid(objs) && objs != []
    ensures var cols := Concat(objs).value.columns;
      && Distinct(cols)
      && (forall c :: c in cols <==> exists i :: 0 <= i < |objs| && c in objs[i].columns)
      && (forall j, k :: 0 <= j < k < |cols| ==>
            FirstIndex(ColumnLists(objs, |objs|), cols[j]) < FirstIndex(ColumnLists(objs, |objs|), cols[k]))
  {
    var cols := Concat(objs).value.columns;
    forall c ensures c in cols <==> exists i :: 0 <= i < |objs| && c in objs[i].columns {
      ColumnListsMembers(objs, |objs|, c);
      if c in ColumnLists(objs, |objs|) {
        var j :| 0 <= j < |ColumnLists(objs, |objs|)| && ColumnLists(objs, |objs|)[j] == c;
      }
    }
    forall j, k | 0 <= j < k < |cols|
      ensures FirstIndex(ColumnLists(objs, |objs|), cols[j]) < FirstIndex(ColumnLists(objs, |objs|), cols[k])
    {
      UniquesInFirstSeenOrder(ColumnLists(objs, |objs|), j, k);
    }
  }

  /** The result has as many rows as the inputs together (when it has any
      column), and a default index. */
  lemma ConcatLength(objs: seq<Table>)
    requires AllValid(objs) && objs != []
    ensures var t := Concat(objs).value;
      && t.Valid()
      && (t.columns != [] ==> t.length == TotalRows(objs, |objs|))
      && t.index == Range(t.length)
  {
  }

  /** Row `row` of table i lands at its offset past the earlier tables. */
  lemma {:induction false} StackedAt(objs: seq<Table>, n: nat, c: Name, i: nat, row: nat)
    requires AllValid(objs) && i < n <= |objs| && row < Rows(objs[i])
    ensures TotalRows(objs, i) + row < TotalRows(objs, n)
    ensures Stacked(objs, n, c)[TotalRows(objs, i) + row] == Segment(objs[i], c)[row]
    decreases n
  {
    if i < n - 1 {
      StackedAt(objs, n - 1, c, i, row);
      OffsetGrows(objs, i + 1, n - 1);
    }
  }

  /** Offsets grow with the table number. */
  lemma {:induction false} OffsetGrows(objs: seq<Table>, i: nat, n: nat)
    requires i <= n <= |objs|
    ensures TotalRows(objs, i) <= TotalRows(objs, n)
    decreases n
  {
    if i < n {
      OffsetGrows(objs, i, n - 1);
    }
  }

  /** Row `row` of input i is row `offset + row` of the result: the input's
      cell in every column it has, null in the others. */
  lemma ConcatCell(objs: seq<Table>, i: nat, row: nat, c: Name)
    requires AllValid(objs) && i < |objs| && row < Rows(objs[i])
    requires c in Concat(objs).value.columns
    ensures var t := Concat(objs).value;
      && TotalRows(objs, i) + row < |t.data[c]|
      && t.data[c][TotalRows(objs, i) + row] == if c in objs[i].columns then objs[i].data[c][row] else Null
  {
    StackedAt(objs, |objs|, c, i, row);
  }

  /** Concatenating a single table keeps its columns and their contents. */
  lemma ConcatOne(t: Table)
    requires t.Valid()
    ensures Concat([t]).Ok?
    ensures Concat([t]).value.columns == t.columns && Concat([t]).value.data == t.data
  {
    OneColumns(t);
    OneData(t);
  }

  lemma OneColumns(t: Table)
    requires t.Valid()
    ensures AllColumns([t]) == t.columns
  {
    assert ColumnLists([t], 1) == [] + t.columns;
    assert [] + t.columns == t.columns;
    UniquesOfDistinct(t.columns);
  }

  lemma OneData(t: Table)
    requires t.Valid()
    ensures StackedData([t], 1, t.columns) == t.data
  {
    var m := StackedData([t], 1, t.columns);
    forall c | c in t.columns ensures m[c] == t.data[c] {
      assert Stacked([t], 1, c) == [] + Segment(t, c);
    }
    assert forall c :: c in m <==> c in t.data;
  }
}
