/** The mutable DataFrame object: construction from a dict of lists or a list
    of records, and in-place column assignment. Each operation is tied to a
    pure function on table values (`FromDict`, `FromRecords`, `Assign`) whose
    properties are proved separately. */
module Frames {
  import opened Values
  import opened Sequences
  import opened Tables
  import opened SeriesOps

  /** An element of a list of records: a dict, or anything else. */
  datatype RowItem = Record(fields: map<Name, Value>) | NotARecord

  /** What `DataFrame(data)` receives: nothing, a dict of lists (the lists
      are the caller's, mutable), a list of rows, or something else. For a
      list of rows, `keyOrder` is the iteration order of the Python set of
      their keys, which the language leaves unspecified. */
  datatype Source =
    | NoData
    | DictOf(keys: seq<Name>, lists: seq<array<Value>>)
    | RecordsOf(rows: seq<RowItem>, keyOrder: seq<Name>)
    | OtherData

  /** `row.get(k, None)`. */
  function Field(row: RowItem, k: Name): Value {
    if row.Record? && k in row.fields then row.fields[k] else Null
  }

  /** `keyOrder` lists the union of the records' keys, each once. */
  predicate KeysOf(rows: seq<RowItem>, keyOrder: seq<Name>) {
    && Distinct(keyOrder)
    && (forall m :: 0 <= m < |keyOrder| ==>
          exists i :: 0 <= i < |rows| && rows[i].Record? && keyOrder[m] in rows[i].fields)
    && (forall i, k :: 0 <= i < |rows| && rows[i].Record? && k in rows[i].fields ==> k in keyOrder)
  }

  /** Column k after the first n rows have been filled. */
  function Filled(rows: seq<RowItem>, n: nat, k: Name): (col: seq<Value>)
    requires n <= |rows|
    ensures |col| == n && forall i :: 0 <= i < n ==> col[i] == Field(rows[i], k)
  {
    seq(n, i requires 0 <= i < n => Field(rows[i], k))
  }

  /** `DataFrame(rows)` for a list of rows: an empty list gives an empty
      table; a row that is not a dict raises AttributeError as soon as a key
      is looked up in it; otherwise one row per record, the union of keys as
      columns, and None where a record lacks a key. */
  function FromRecords(rows: seq<RowItem>, keyOrder: seq<Name>): (r: Result<Table>)
    requires KeysOf(rows, keyOrder)
    ensures r.Err? <==> keyOrder != [] && exists i :: 0 <= i < |rows| && rows[i].NotARecord?
    ensures r.Err? ==> r.error == AttributeError
    ensures rows == [] ==> r == Ok(Table([], map[], 0, []))
    ensures r.Ok? ==> r.value.Valid() && r.value.length == |rows| && r.value.index == Range(|rows|)
    ensures r.Ok? && rows != [] ==> r.value.columns == keyOrder
    ensures r.Ok? ==> forall k, i :: k in r.value.data && 0 <= i < |rows| ==>
      r.value.data[k][i] == (if k in rows[i].fields then rows[i].fields[k] else Null)
  {
    if rows == [] then Ok(Table([], map[], 0, []))
    else if keyOrder != [] && exists i :: 0 <= i < |rows| && rows[i].NotARecord? then Err(AttributeError)
    else Ok(Table(keyOrder, map k | k in keyOrder :: Filled(rows, |rows|, k), |rows|, Range(|rows|)))
  }

  /** What `df[key] = value` receives. */
  datatype Assigned = SeriesValue(s: Series) | ListValue(items: seq<Value>) | ScalarValue(v: Value)

  /** The length a value brings to a table with neither rows nor columns:
      its own length, or 1 for a scalar. */
  function Need(value: Assigned): nat {
    match value
    case SeriesValue(s) => |s.values|
    case ListValue(items) => |items|
    case ScalarValue(_) => 1
  }

  /** The column that assigning `value` to a table of `n` rows stores. */
  function NewColumn(value: Assigned, n: nat): seq<Value>
    requires !value.ScalarValue? ==> Need(value) == n
  {
    match value
    case SeriesValue(s) => s.values
    case ListValue(items) => items
    case ScalarValue(v) => seq(n, _ => v)
  }

  /** `df[key] = value` on a table value: a table with no rows and no columns
      takes its length from the value (1 for a scalar) and the default index;
      a list or Series of another length is a ValueError; a scalar is
      repeated on every row; a new name is appended to the column order, an
      existing one keeps its place; every other column is untouched. */
  function Assign(t: Table, key: Name, value: Assigned): (r: Result<Table>)
    requires t.Valid()
    ensures var n := if t.length == 0 && t.columns == [] then Need(value) else t.length;
      r.Err? <==> !value.ScalarValue? && Need(value) != n
    ensures r.Err? ==> r.error == ValueError
    ensures r.Ok? ==> r.value.Valid()
    ensures r.Ok? ==> key in r.value.data && forall c :: c in t.data && c != key ==> c in r.value.data && r.value.data[c] == t.data[c]
    ensures r.Ok? ==> forall c :: c in r.value.data ==> c == key || c in t.data
    ensures r.Ok? && value.ScalarValue? ==> forall i :: 0 <= i < r.value.length ==> r.value.data[key][i] == value.v
    ensures r.Ok? && !value.ScalarValue? ==> r.value.data[key] == (if value.SeriesValue? then value.s.values else value.items)
    ensures r.Ok? && (t.length != 0 || t.columns != []) ==> r.value.length == t.length && r.value.index == t.index
    ensures r.Ok? && key in t.data ==> r.value.columns == t.columns
    ensures r.Ok? && key !in t.data ==> r.value.columns == t.columns + [key]
  {
    var empty := t.length == 0 && t.columns == [];
    var n := if empty then Need(value) else t.length;
    if !value.ScalarValue? && Need(value) != n then Err(ValueError)
    else
      var columns := if key in t.data then t.columns else t.columns + [key];
      Ok(Table(columns, t.data[key := NewColumn(value, n)], n, if empty then Range(n) else t.index))
  }

  /** The length check and copy of `DataFrame(dict)`: ValueError when two
      lists differ in length, otherwise `{k: list(v) for k, v in data.items()}`,
      a copy of each caller list. */
  method CopyLists(keys: seq<Name>, lists: seq<array<Value>>) returns (r: Result<map<Name, seq<Value>>>)
    requires |keys| == |lists| && Distinct(keys)
    ensures r.Ok? <==> forall m :: 0 <= m < |lists| ==> lists[m].Length == lists[0].Length
    ensures r.Err? ==> r.error == ValueError
    ensures r.Ok? ==> Schema(keys, r.value)
    ensures r.Ok? ==> forall m :: 0 <= m < |keys| ==> r.value[keys[m]] == lists[m][..]
  {
    var m := 0;
    while m < |lists|
      invariant 0 <= m <= |lists|
      invariant forall q :: 0 <= q < m ==> lists[q].Length == lists[0].Length
    {
      if lists[m].Length != lists[0].Length {
        return Err(ValueError);
      }
      m := m + 1;
    }
    var copied: map<Name, seq<Value>> := map[];
    for q := 0 to |keys|
      invariant forall c :: c in copied ==> c in keys[..q]
      invariant forall p :: 0 <= p < q ==> keys[p] in copied && copied[keys[p]] == lists[p][..]
    {
      copied := copied[keys[q] := lists[q][..]];
    }
    assert keys[..|keys|] == keys;
    return Ok(copied);
  }

  /** The fill loop of `DataFrame(rows)`: for every row, for every key,
      append `row.get(key, None)` to that key's column. */
  method FillRecords(rows: seq<RowItem>, keyOrder: seq<Name>) returns (r: Result<map<Name, seq<Value>>>)
    requires KeysOf(rows, keyOrder)
    ensures r.Err? <==> FromRecords(rows, keyOrder).Err?
    ensures r.Err? ==> r.error == AttributeError
    ensures r.Ok? && rows != [] ==> r.value == FromRecords(rows, keyOrder).value.data
  {
    var filled: map<Name, seq<Value>> := map k | k in keyOrder :: [];
    FilledStart(rows, keyOrder);
    for i := 0 to |rows|
      invariant FilledUpTo(rows, keyOrder, filled, i)
    {
      if keyOrder != [] && rows[i].NotARecord? {
        RecordsFail(rows, keyOrder, i);
        return Err(AttributeError);
      }
      filled := AppendRow(filled, keyOrder, rows, i);
    }
    RecordsFilled(rows, keyOrder, filled);
    return Ok(filled);
  }

  /** The state of the fill loop after `i` rows: every key's column holds
      the first `i` fields, and no row so far failed the lookup. */
  ghost predicate FilledUpTo(rows: seq<RowItem>, keyOrder: seq<Name>, filled: map<Name, seq<Value>>, i: nat) {
    && i <= |rows| && Distinct(keyOrder)
    && filled.Keys == (set k | k in keyOrder)
    && (forall k :: k in filled ==> filled[k] == Filled(rows, i, k))
    && (keyOrder != [] ==> forall q :: 0 <= q < i ==> rows[q].Record?)
  }

  lemma FilledStart(rows: seq<RowItem>, keyOrder: seq<Name>)
    requires KeysOf(rows, keyOrder)
    ensures FilledUpTo(rows, keyOrder, map k | k in keyOrder :: [], 0)
  {
  }

  lemma RecordsFail(rows: seq<RowItem>, keyOrder: seq<Name>, i: nat)
    requires KeysOf(rows, keyOrder) && i < |rows| && keyOrder != [] && rows[i].NotARecord?
    ensures FromRecords(rows, keyOrder).Err? && FromRecords(rows, keyOrder).error == AttributeError
  {
  }

  lemma RecordsFilled(rows: seq<RowItem>, keyOrder: seq<Name>, filled: map<Name, seq<Value>>)
    requires KeysOf(rows, keyOrder) && FilledUpTo(rows, keyOrder, filled, |rows|)
    ensures FromRecords(rows, keyOrder).Ok?
    ensures rows != [] ==> filled == FromRecords(rows, keyOrder).value.data
  {
    FilledAll(rows, keyOrder, filled);
    RecordsOk(rows, keyOrder);
  }

  lemma FilledAll(rows: seq<RowItem>, keyOrder: seq<Name>, filled: map<Name, seq<Value>>)
    requires FilledUpTo(rows, keyOrder, filled, |rows|)
    ensures filled == map k | k in keyOrder :: Filled(rows, |rows|, k)
  {
  }

  lemma RecordsOk(rows: seq<RowItem>, keyOrder: seq<Name>)
    requires KeysOf(rows, keyOrder)
    requires keyOrder != [] ==> forall q :: 0 <= q < |rows| ==> rows[q].Record?
    ensures FromRecords(rows, keyOrder).Ok?
    ensures rows != [] ==> FromRecords(rows, keyOrder).value.data == map k | k in keyOrder :: Filled(rows, |rows|, k)
  {
    assert !(keyOrder != [] && exists q :: 0 <= q < |rows| && rows[q].NotARecord?);
  }

  /** The inner loop: `self._data[k].append(row.get(k, None))` for each key. */
  method AppendRow(filled: map<Name, seq<Value>>, keyOrder: seq<Name>, rows: seq<RowItem>, i: nat)
      returns (next: map<Name, seq<Value>>)
    requires i < |rows| && Distinct(keyOrder)
    requires filled.Keys == set k | k in keyOrder
    requires forall k :: k in filled ==> filled[k] == Filled(rows, i, k)
    ensures next.Keys == filled.Keys
    ensures forall k :: k in next ==> next[k] == Filled(rows, i + 1, k)
  {
    next := filled;
    for j := 0 to |keyOrder|
      invariant next.Keys == filled.Keys
      invariant forall p :: 0 <= p < j ==> next[keyOrder[p]] == Filled(rows, i + 1, keyOrder[p])
      invariant forall p :: j <= p < |keyOrder| ==> next[keyOrder[p]] == Filled(rows, i, keyOrder[p])
    {
      var k := keyOrder[j];
      assert Filled(rows, i + 1, k) == Filled(rows, i, k) + [Field(rows[i], k)];
      next := next[k := next[k] + [Field(rows[i], k)]];
    }
    forall k | k in next ensures next[k] == Filled(rows, i + 1, k) {
      var p :| 0 <= p < |keyOrder| && keyOrder[p] == k;
    }
  }

  /** The DataFrame object: ordered column names (the dict's key order), the
      column lists, `_length`, and the row labels the indexers read. */
  class DataFrame {
    var columns: seq<Name>
    var data: map<Name, seq<Value>>
    var length: nat
    var index: seq<Value>

    /** Every column has `length` entries, as does the index. */
    predicate Valid()
      reads this
    {
      Schema(columns, data) && Uniform(data, length) && |index| == length
    }

    /** The table this object currently holds. */
    function Snapshot(): (t: Table)
      reads this
      requires Valid()
      ensures t.Valid()
    {
      Table(columns, data, length, index)
    }

    /** `DataFrame()`: no columns, no rows. */
    constructor Empty()
      ensures Valid() && Snapshot() == Table([], map[], 0, [])
    {
      columns := [];
      data := map[];
      length := 0;
      index := [];
    }

    /** `DataFrame(data)`. A dict of lists is checked for equal lengths
        (ValueError) and each list is copied, so the table holds values and
        later writes to the caller's lists do not reach it. A list of rows is
        filled row by row, key by key. Any other argument is a TypeError. */
    static method New(src: Source) returns (r: Result<DataFrame>)
      requires src.DictOf? ==> |src.keys| == |src.lists| && Distinct(src.keys)
      requires src.RecordsOf? ==> KeysOf(src.rows, src.keyOrder)
      ensures src.NoData? ==> r.Ok? && r.value.Valid() && r.value.Snapshot() == Table([], map[], 0, [])
      ensures src.OtherData? ==> r == Err(TypeError)
      ensures src.DictOf? ==>
        (r.Ok? <==> forall m :: 0 <= m < |src.lists| ==> src.lists[m].Length == src.lists[0].Length)
      ensures src.DictOf? && r.Err? ==> r.error == ValueError
      ensures src.DictOf? && r.Ok? ==>
        && r.value.Valid() && r.value.columns == src.keys
        && (forall m :: 0 <= m < |src.keys| ==> r.value.data[src.keys[m]] == src.lists[m][..])
        && r.value.length == (if src.keys == [] then 0 else src.lists[0].Length)
        && r.value.index == Range(r.value.length)
      ensures src.RecordsOf? ==> (r.Ok? <==> FromRecords(src.rows, src.keyOrder).Ok?)
      ensures src.RecordsOf? && r.Err? ==> r.error == FromRecords(src.rows, src.keyOrder).error
      ensures src.RecordsOf? && r.Ok? ==> r.value.Valid() && r.value.Snapshot() == FromRecords(src.rows, src.keyOrder).value
      ensures r.Ok? ==> fresh(r.value)
    {
      if src.OtherData? {
        return Err(TypeError);
      }
      var df := new DataFrame.Empty();
      if src.NoData? {
        return Ok(df);
      }
      if src.DictOf? {
        var copied := CopyLists(src.keys, src.lists);
        if copied.Err? {
          return Err(ValueError);
        }
        df.columns := src.keys;
        df.data := copied.value;
        df.length := if src.keys == [] then 0 else src.lists[0].Length;
        df.index := Range(df.length);
        return Ok(df);
      }
      var filled := FillRecords(src.rows, src.keyOrder);
      if filled.Err? {
        return Err(filled.error);
      }
      if src.rows != [] {
        df.columns := src.keyOrder;
        df.data := filled.value;
        df.length := |src.rows|;
        df.index := Range(|src.rows|);
      }
      return Ok(df);
    }

    /** `df[key] = value`, in place: exactly the change `Assign` describes,
        and nothing at all on a ValueError. */
    method SetItem(key: Name, value: Assigned) returns (err: Option<Error>)
      requires Valid()
      modifies this
      ensures Valid()
      ensures err.Some? <==> Assign(old(Snapshot()), key, value).Err?
      ensures err.Some? ==> err.value == ValueError && Snapshot() == old(Snapshot())
      ensures err.None? ==> Snapshot() == Assign(old(Snapshot()), key, value).value
    {
      err := None;
      var targetLen := length;
      if length == 0 && columns == [] {
        targetLen := Need(value);
        length := targetLen;
        index := Range(targetLen);
      }
      var newColumn: seq<Value>;
      if value.SeriesValue? {
        if |value.s.values| != targetLen {
          return Some(ValueError);
        }
        newColumn := value.s.values;
      } else if value.ListValue? {
        if |value.items| != targetLen {
          return Some(ValueError);
        }
        newColumn := value.items;
      } else {
        newColumn := seq(targetLen, _ => value.v);
      }
      if key !in data {
        columns := columns + [key];
      }
      data := data[key := newColumn];
    }
  }

  /** Assignment keeps every column at the table's length, whatever the
      value: the invariant `__setitem__` preserves. */
  lemma AssignKeepsColumnsAligned(t: Table, key: Name, value: Assigned)
    requires t.Valid()
    ensures Assign(t, key, value).Ok? ==> Uniform(Assign(t, key, value).value.data, Assign(t, key, value).value.length)
    ensures Assign(t, key, value).Ok? ==> |Assign(t, key, value).value.columns| == |t.columns| + (if key in t.data then 0 else 1)
  {
  }

  /** Assigning the same column twice is the same as assigning it once. */
  lemma AssignIdempotent(t: Table, key: Name, value: Assigned)
    requires t.Valid() && Assign(t, key, value).Ok?
    ensures Assign(Assign(t, key, value).value, key, value) == Assign(t, key, value)
  {
    var u := Assign(t, key, value).value;
    assert u.data[key := u.data[key]] == u.data;
  }
}
