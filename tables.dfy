/** The data model: a named column (Series) and a columnar table (DataFrame
    contents), the keys `[]` accepts, and the dict-of-lists construction every
    operation ends with. */
module Tables {
  import opened Values
  import opened Sequences

  /** The default index `list(range(n))`. */
  function Range(n: nat): (r: seq<Value>)
    ensures |r| == n
    ensures forall i :: 0 <= i < n ==> r[i] == Int(i)
  {
    seq(n, i => Int(i))
  }

  /** A named column: values, one index label per value, an optional name. */
  datatype Series = Series(values: seq<Value>, index: seq<Value>, name: Option<Name>) {
    predicate Valid() {
      |values| == |index|
    }
  }

  /** A Python dict from column name to list: its keys in insertion order,
      and the mapping itself. */
  predicate Schema(columns: seq<Name>, data: map<Name, seq<Value>>) {
    && Distinct(columns)
    && (forall c :: c in data ==> c in columns)
    && (forall c :: c in columns ==> c in data)
  }

  predicate Uniform(data: map<Name, seq<Value>>, n: nat) {
    forall c :: c in data ==> |data[c]| == n
  }

  /** A table: ordered columns, `length` rows (the source's `_length`) and
      one index label per row. */
  datatype Table = Table(columns: seq<Name>, data: map<Name, seq<Value>>, length: nat, index: seq<Value>) {
    /** Every column, and the index, has `length` entries. */
    predicate Valid() {
      Schema(columns, data) && Uniform(data, length) && |index| == length
    }
  }

  /** One row as a dict from column name to value. */
  type Row = map<Name, Value>

  /** What `[]` is given: a scalar (a label or a position), a Python list, a
      slice, or a Series. */
  datatype Key =
    | Label(v: Value)
    | Items(items: seq<Value>)
    | Slice(start: Value, stop: Value, step: Value)
    | SeriesKey(s: Series)

  /** `shape`: (0, 0) for a table without columns, whatever its `_length`. */
  function Shape(t: Table): (nat, nat) {
    if t.columns == [] then (0, 0) else (t.length, |t.columns|)
  }

  /** `shape[0]`, the row count every row loop of the source runs to. */
  function Rows(t: Table): (n: nat)
    ensures t.columns != [] ==> n == t.length
    ensures t.columns == [] ==> n == 0
  {
    Shape(t).0
  }

  /** `DataFrame(d)` for a dict `d` of lists: ValueError when two lists differ
      in length; otherwise the length is the common length (0 without
      columns) and the index is the default one. */
  function FromDict(columns: seq<Name>, data: map<Name, seq<Value>>): (r: Result<Table>)
    requires Schema(columns, data)
    ensures r.Ok? <==> columns == [] || Uniform(data, |data[columns[0]]|)
    ensures r.Err? ==> r.error == ValueError
    ensures r.Ok? ==> && r.value.Valid()
                      && r.value.columns == columns && r.value.data == data
                      && r.value.index == Range(r.value.length)
    ensures r.Ok? && columns == [] ==> r.value.length == 0
    ensures forall n :: Uniform(data, n) && columns != [] ==> r.Ok? && r.value.length == n
  {
    if columns == [] then
      Ok(Table(columns, data, 0, []))
    else
      var n := |data[columns[0]]|;
      if Uniform(data, n) then Ok(Table(columns, data, n, Range(n))) else Err(ValueError)
  }

  /** A table the engine assembles itself, whose columns all have length n. */
  function Assemble(columns: seq<Name>, data: map<Name, seq<Value>>, n: nat): (t: Table)
    requires Schema(columns, data) && Uniform(data, n)
    ensures t.Valid() && t.columns == columns && t.data == data
    ensures t.length == (if columns == [] then 0 else n) && t.index == Range(t.length)
    ensures FromDict(columns, data) == Ok(t)
  {
    FromDict(columns, data).value
  }
}
