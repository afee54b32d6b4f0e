/** Row selection by position (`iloc`) and by index label (`loc`). Both
    indexers treat the table as carrying an index: one label per row,
    `0..n-1` unless a selection carried labels over. */
module Indexing {
  import opened Values
  import opened Sequences
  import opened Tables
  import opened Counting

  /** What an indexer returns: one row as a dict, or a table. */
  datatype Selection = RowOf(row: Row) | TableOf(table: Table)

  /** Row i as a dict from column name to value. */
  function RowAt(t: Table, i: nat): (r: Row)
    requires t.Valid() && i < t.length
    ensures forall c :: c in r <==> c in t.data
    ensures forall c :: c in t.data ==> r[c] == t.data[c][i]
  {
    map c | c in t.data :: t.data[c][i]
  }

  /** The rows at `positions`, in that order, with their labels: what the
      indexers build as `__class__(new_data, index=new_index)`. */
  function Take(t: Table, positions: seq<nat>): (r: Table)
    requires t.Valid() && AllBelow(positions, t.length)
    ensures r.Valid() && r.columns == t.columns && r.length == |positions|
    ensures forall c :: c in r.data <==> c in t.data
    ensures forall c :: c in t.data ==> r.data[c] == Gather(t.data[c], positions)
    ensures r.index == Gather(t.index, positions)
  {
    Table(t.columns, map c | c in t.data :: Gather(t.data[c], positions), |positions|, Gather(t.index, positions))
  }

  /** `iloc[i]`: a negative i counts from the end; IndexError outside the row
      count `shape[0]`; otherwise the row at that position. */
  function ILocInt(t: Table, item: int): (r: Result<Row>)
    requires t.Valid()
    ensures r.Ok? <==> PyIndex(Rows(t), item).Some?
    ensures r.Err? ==> r.error == IndexError
    ensures r.Ok? ==> forall c :: c in r.value <==> c in t.data
    ensures r.Ok? ==> forall c :: c in t.data ==> r.value[c] == t.data[c][PyIndex(Rows(t), item).value]
  {
    var n := Rows(t);
    var idx := if item < 0 then item + n else item;
    if idx < 0 || idx >= n then Err(IndexError) else Ok(RowAt(t, idx))
  }

  /** `iloc[start:stop:step]`: the same Python slice cut from every column
      and from the index. */
  function ILocSlice(t: Table, start: Value, stop: Value, step: Value): (r: Result<Table>)
    requires t.Valid()
    ensures r.Err? <==> SlicePositions(t.length, start, stop, step).Err?
    ensures r.Err? ==> r.error == SlicePositions(t.length, start, stop, step).error
    ensures r.Ok? ==> r.value == Take(t, SlicePositions(t.length, start, stop, step).value)
  {
    match SlicePositions(t.length, start, stop, step)
    case Err(e) => Err(e)
    case Ok(p) => Ok(Take(t, p))
  }

  /** With the default step, `iloc[a:b]` keeps the contiguous run of rows
      between the clamped bounds. */
  lemma ILocUnitSliceIsContiguous(t: Table, a: int, b: int, c: Name)
    requires t.Valid() && c in t.data
    requires Adjust(t.length, a, false) <= Adjust(t.length, b, false)
    ensures ILocSlice(t, Int(a), Int(b), Null).Ok?
    ensures ILocSlice(t, Int(a), Int(b), Null).value.data[c]
      == t.data[c][Adjust(t.length, a, false)..Adjust(t.length, b, false)]
  {
    UnitSliceIsSubsequence(t.data[c], a, b);
  }

  /** Every entry of a position list is an int (a bool read as 1 or 0)
      addressing one of n rows. */
  predicate InRange(n: nat, items: seq<Value>) {
    forall j :: 0 <= j < |items| ==> IsInt(items[j]) && PyIndex(n, AsInt(items[j])).Some?
  }

  /** The rows a position list addresses, negative entries counted from the
      end. */
  function Resolve(n: nat, items: seq<Value>): (p: seq<nat>)
    requires InRange(n, items)
    ensures |p| == |items| && AllBelow(p, n)
    ensures forall j :: 0 <= j < |items| ==> p[j] == PyIndex(n, AsInt(items[j])).value
  {
    seq(|items|, j requires 0 <= j < |items| => PyIndex(n, AsInt(items[j])).value)
  }

  /** Positions written as a Python list of ints. */
  function AsInts(p: seq<nat>): (r: seq<Value>)
    ensures |r| == |p| && forall j :: 0 <= j < |p| ==> r[j] == Int(p[j])
  {
    seq(|p|, j requires 0 <= j < |p| => Int(p[j]))
  }

  lemma ResolveAsInts(n: nat, p: seq<nat>)
    requires AllBelow(p, n)
    ensures InRange(n, AsInts(p)) && Resolve(n, AsInts(p)) == p
  {
  }

  /** `iloc[[i, j, ...]]`: TypeError unless every entry is an int (a bool
      counts as 1 or 0), IndexError
      when one addresses no row; otherwise row k of the result is the row
      that entry k addresses, in every column and in the index. */
  function ILocList(t: Table, items: seq<Value>): (r: Result<Table>)
    requires t.Valid()
    ensures (exists j :: 0 <= j < |items| && !IsInt(items[j])) ==> r == Err(TypeError)
    ensures (forall j :: 0 <= j < |items| ==> IsInt(items[j])) && !InRange(t.length, items) ==> r == Err(IndexError)
    ensures InRange(t.length, items) ==> r == Ok(Take(t, Resolve(t.length, items)))
  {
    if exists j :: 0 <= j < |items| && !IsInt(items[j]) then Err(TypeError)
    else if !InRange(t.length, items) then Err(IndexError)
    else Ok(Take(t, Resolve(t.length, items)))
  }

  /** All entries are ints: `all(isinstance(x, int) for x in item)`. */
  predicate AllInts(items: seq<Value>) {
    forall j :: 0 <= j < |items| ==> IsInt(items[j])
  }

  /** `df.iloc[item]`: an int, a slice or a list of ints, where a bool is the
      int 1 or 0; anything else is a TypeError. */
  function ILoc(t: Table, key: Key): (r: Result<Selection>)
    requires t.Valid()
    ensures key.Label? && IsInt(key.v) ==>
      r == (match ILocInt(t, AsInt(key.v)) case Ok(row) => Ok(RowOf(row)) case Err(e) => Err(e))
    ensures key.Slice? ==>
      r == (match ILocSlice(t, key.start, key.stop, key.step) case Ok(u) => Ok(TableOf(u)) case Err(e) => Err(e))
    ensures key.Items? && AllInts(key.items) ==>
      r == (match ILocList(t, key.items) case Ok(u) => Ok(TableOf(u)) case Err(e) => Err(e))
    ensures (key.Label? && !IsInt(key.v)) || (key.Items? && !AllInts(key.items)) || key.SeriesKey? ==>
      r == Err(TypeError)
  {
    match key
    case Label(v) =>
      if !IsInt(v) then Err(TypeError)
      else (match ILocInt(t, AsInt(v)) case Ok(row) => Ok(RowOf(row)) case Err(e) => Err(e))
    case Slice(start, stop, step) =>
      (match ILocSlice(t, start, stop, step) case Ok(u) => Ok(TableOf(u)) case Err(e) => Err(e))
    case Items(items) =>
      if !AllInts(items) then Err(TypeError)
      else (match ILocList(t, items) case Ok(u) => Ok(TableOf(u)) case Err(e) => Err(e))
    case SeriesKey(_) => Err(TypeError)
  }

  /** `isinstance(True, int)` holds, so `iloc[True]` is `iloc[1]` and a list
      of bools is a list of positions 1 and 0. */
  lemma ILocReadsBoolAsInt(t: Table, b: bool)
    requires t.Valid()
    ensures ILoc(t, Label(Bool(b))) == ILoc(t, Label(Int(if b then 1 else 0)))
    ensures ILoc(t, Items([Bool(b)])) == ILoc(t, Items([Int(if b then 1 else 0)]))
  {
    var bs, ns := [Bool(b)], [Int(if b then 1 else 0)];
    assert AsInt(bs[0]) == AsInt(ns[0]);
    assert InRange(t.length, bs) <==> InRange(t.length, ns);
    if InRange(t.length, bs) {
      assert Resolve(t.length, bs) == Resolve(t.length, ns);
    }
  }

  /** `iloc` as the source runs it on its own DataFrame, which has neither an
      `index` attribute nor an `index=` constructor argument. A slice raises
      AttributeError once the columns are cut; a list does so for its first
      label, and an empty list makes the constructor raise TypeError. */
  function ILocAsWritten(t: Table, key: Key): (r: Result<Selection>)
    requires t.Valid()
  {
    match key
    case Label(v) =>
      if !IsInt(v) then Err(TypeError)
      else (match ILocInt(t, AsInt(v)) case Ok(row) => Ok(RowOf(row)) case Err(e) => Err(e))
    case Slice(start, stop, step) =>
      if t.columns != [] && SlicePositions(t.length, start, stop, step).Err? then
        Err(SlicePositions(t.length, start, stop, step).error)
      else Err(AttributeError)
    case Items(items) =>
      if !AllInts(items) then Err(TypeError)
      else if t.columns != [] && !InRange(t.length, items) then Err(IndexError)
      else if items != [] then Err(AttributeError)
      else Err(TypeError)
    case SeriesKey(_) => Err(TypeError)
  }

  /** As written, only `iloc[int]` can succeed: every slice and every list
      selection raises, where the corrected indexer returns the rows. */
  lemma ILocAsWrittenOnlyRows(t: Table, key: Key)
    requires t.Valid()
    ensures ILocAsWritten(t, key).Ok? ==> key.Label? && ILocAsWritten(t, key) == ILoc(t, key)
    ensures key.Slice? || key.Items? ==> ILocAsWritten(t, key).Err?
    ensures key.Items? && AllInts(key.items) && InRange(t.length, key.items) ==>
      ILocAsWritten(t, key).Err? && ILoc(t, key).Ok?
  {
  }

  /** Positions whose label equals `label`, ascending. */
  function Matches(index: seq<Value>, lbl: Value): (r: seq<nat>)
    ensures AllBelow(r, |index|) && Increasing(r)
    ensures forall k :: 0 <= k < |r| ==> index[r[k]] == lbl
    ensures forall i :: 0 <= i < |index| && index[i] == lbl ==> i in r
  {
    var hits := seq(|index|, i requires 0 <= i < |index| => Bool(index[i] == lbl));
    TruePositions(hits)
  }

  /** `loc[label]`: KeyError when no row carries the label; the row (through
      `iloc[int]`) when exactly one does; the sub-table of all of them, in
      order, when several do. A bool is not a label (TypeError). */
  function LocLabel(t: Table, lbl: Value): (r: Result<Selection>)
    requires t.Valid()
    ensures lbl.Bool? ==> r == Err(TypeError)
    ensures !lbl.Bool? && lbl !in t.index ==> r == Err(KeyError)
    ensures !lbl.Bool? && |Matches(t.index, lbl)| == 1 ==>
      r == (match ILocInt(t, Matches(t.index, lbl)[0]) case Ok(row) => Ok(RowOf(row)) case Err(e) => Err(e))
    ensures !lbl.Bool? && |Matches(t.index, lbl)| > 1 ==> r == Ok(TableOf(Take(t, Matches(t.index, lbl))))
  {
    if lbl.Bool? then Err(TypeError)
    else
      var m := Matches(t.index, lbl);
      if m == [] then Err(KeyError)
      else if |m| == 1 then
        (match ILocInt(t, m[0]) case Ok(row) => Ok(RowOf(row)) case Err(e) => Err(e))
      else
        ResolveAsInts(t.length, m);
        (match ILocList(t, AsInts(m)) case Ok(u) => Ok(TableOf(u)) case Err(e) => Err(e))
  }

  /** A label carried by several rows selects exactly those rows: every row
      of the result carries the label, and no row carrying it is missed. */
  lemma LocLabelFansOut(t: Table, lbl: Value)
    requires t.Valid() && !lbl.Bool? && |Matches(t.index, lbl)| > 1
    ensures LocLabel(t, lbl).Ok? && LocLabel(t, lbl).value.TableOf?
    ensures var u := LocLabel(t, lbl).value.table;
      (forall k :: 0 <= k < |u.index| ==> u.index[k] == lbl) && |u.index| == multiset(t.index)[lbl]
  {
    var m := Matches(t.index, lbl);
    MatchesCount(t.index, lbl);
  }

  lemma {:induction false} MatchesCount(index: seq<Value>, lbl: Value)
    ensures |Matches(index, lbl)| == multiset(index)[lbl]
  {
    if index != [] {
      var init := index[..|index| - 1];
      assert index == init + [index[|index| - 1]];
      MatchesCount(init, lbl);
      var hits := seq(|index|, i requires 0 <= i < |index| => Bool(index[i] == lbl));
      assert hits[..|hits| - 1] == seq(|init|, i requires 0 <= i < |init| => Bool(init[i] == lbl));
    }
  }

  /** First positions of the labels, in request order; KeyError when one is
      absent. */
  function FirstPositions(index: seq<Value>, wanted: seq<Value>): (r: Result<seq<nat>>)
    ensures r.Err? <==> exists j :: 0 <= j < |wanted| && wanted[j] !in index
    ensures r.Err? ==> r.error == KeyError
    ensures r.Ok? ==> |r.value| == |wanted| && AllBelow(r.value, |index|)
    ensures r.Ok? ==> forall j :: 0 <= j < |wanted| ==>
      index[r.value[j]] == wanted[j] && forall q :: 0 <= q < r.value[j] ==> index[q] != wanted[j]
  {
    if exists j :: 0 <= j < |wanted| && wanted[j] !in index then Err(KeyError)
    else Ok(seq(|wanted|, j requires 0 <= j < |wanted| => FirstIndex(index, wanted[j])))
  }

  /** The search loop of `loc[[a, b, ...]]`: for each label, scan the index
      and take the first match, or stop with KeyError. */
  method LookupLabels(index: seq<Value>, wanted: seq<Value>) returns (r: Result<seq<nat>>)
    ensures r == FirstPositions(index, wanted)
  {
    var indices: seq<nat> := [];
    for j := 0 to |wanted|
      invariant |indices| == j
      invariant forall k :: 0 <= k < j ==> wanted[k] in index && indices[k] == FirstIndex(index, wanted[k])
    {
      var found := false;
      var i := 0;
      while i < |index|
        invariant 0 <= i <= |index|
        invariant !found && |indices| == j
        invariant forall q :: 0 <= q < i ==> index[q] != wanted[j]
      {
        if index[i] == wanted[j] {
          assert FirstIndex(index, wanted[j]) == i;
          indices := indices + [i];
          found := true;
          break;
        }
        i := i + 1;
      }
      if !found {
        assert wanted[j] !in index;
        return Err(KeyError);
      }
    }
    assert !exists j :: 0 <= j < |wanted| && wanted[j] !in index;
    assert indices == seq(|wanted|, j requires 0 <= j < |wanted| => FirstIndex(index, wanted[j]));
    return Ok(indices);
  }

  /** `loc[[a, b, ...]]`: IndexError for an empty list, KeyError when a label
      is absent, else the first row carrying each label, in request order. */
  function LocLabels(t: Table, wanted: seq<Value>): (r: Result<Selection>)
    requires t.Valid()
    ensures wanted == [] ==> r == Err(IndexError)
    ensures wanted != [] && FirstPositions(t.index, wanted).Err? ==> r == Err(KeyError)
    ensures wanted != [] && FirstPositions(t.index, wanted).Ok? ==>
      r == Ok(TableOf(Take(t, FirstPositions(t.index, wanted).value)))
  {
    if wanted == [] then Err(IndexError)
    else match FirstPositions(t.index, wanted)
      case Err(e) => Err(e)
      case Ok(p) =>
        ResolveAsInts(t.length, p);
        (match ILocList(t, AsInts(p)) case Ok(u) => Ok(TableOf(u)) case Err(e) => Err(e))
  }

  /** `loc[[True, False, ...]]`: ValueError unless there is one entry per row;
      otherwise the rows with a truthy entry, in order. */
  function LocMask(t: Table, mask: seq<Value>): (r: Result<Selection>)
    requires t.Valid()
    ensures |mask| != t.length ==> r == Err(ValueError)
    ensures |mask| == t.length ==> r == Ok(TableOf(Take(t, TruePositions(mask))))
  {
    if |mask| != t.length then Err(ValueError)
    else
      ResolveAsInts(t.length, TruePositions(mask));
      match ILocList(t, AsInts(TruePositions(mask))) case Ok(u) => Ok(TableOf(u)) case Err(e) => Err(e)
  }

  /** Where a slice endpoint label sits: its first position, KeyError when
      absent. */
  function Locate(index: seq<Value>, lbl: Value): (r: Result<nat>)
    ensures r.Err? <==> lbl !in index
    ensures r.Ok? ==> r.value < |index| && index[r.value] == lbl
  {
    if lbl in index then Ok(FirstIndex(index, lbl)) else Err(KeyError)
  }

  /** `loc[a:b:step]` as written: a null endpoint defaults to 0 or to the
      row count, a label resolves to its first position, the stop position
      is moved one forward to include it, and the step goes through
      unchanged to `iloc`. */
  function LocSlice(t: Table, a: Value, b: Value, step: Value): (r: Result<Selection>)
    requires t.Valid()
    ensures a != Null && a !in t.index ==> r == Err(KeyError)
    ensures (a == Null || a in t.index) && b != Null && b !in t.index ==> r == Err(KeyError)
    ensures (a == Null || a in t.index) && (b == Null || b in t.index) ==>
      var first := if a == Null then 0 else FirstIndex(t.index, a);
      var last := if b == Null then t.length else FirstIndex(t.index, b) + 1;
      r == (match ILocSlice(t, Int(first), Int(last), step) case Ok(u) => Ok(TableOf(u)) case Err(e) => Err(e))
  {
    var startIdx := if a == Null then Ok(0) else Locate(t.index, a);
    var stopIdx := if b == Null then Ok(t.length) else
      (match Locate(t.index, b) case Ok(p) => Ok(p + 1) case Err(e) => Err(e));
    if startIdx.Err? then Err(startIdx.error)
    else if stopIdx.Err? then Err(stopIdx.error)
    else match ILocSlice(t, Int(startIdx.value), Int(stopIdx.value), step)
      case Ok(u) => Ok(TableOf(u))
      case Err(e) => Err(e)
  }

  /** Forward label slicing includes both endpoints: `loc[a:b]` keeps the rows
      from the first `a` through the first `b`. */
  lemma LocSliceIncludesStop(t: Table, a: Value, b: Value, c: Name)
    requires t.Valid() && c in t.data && a in t.index && b in t.index && a != Null && b != Null
    requires FirstIndex(t.index, a) <= FirstIndex(t.index, b)
    ensures LocSlice(t, a, b, Null).Ok?
    ensures LocSlice(t, a, b, Null).value.table.data[c]
      == t.data[c][FirstIndex(t.index, a)..FirstIndex(t.index, b) + 1]
    ensures LocSlice(t, a, b, Null).value.table.index
      == t.index[FirstIndex(t.index, a)..FirstIndex(t.index, b) + 1]
  {
    var pa, pb := FirstIndex(t.index, a), FirstIndex(t.index, b);
    UnitSliceIsSubsequence(t.data[c], pa, pb + 1);
    UnitSliceIsSubsequence(t.index, pa, pb + 1);
  }

  /** Walking backwards as written: `loc[a:b:-1]` with `b` before `a` stops two
      rows short of `b`, so the row labelled `b` is never selected. */
  lemma LocSliceBackwardsDropsStop(t: Table, a: Value, b: Value)
    requires t.Valid() && a in t.index && b in t.index && a != Null && b != Null
    requires FirstIndex(t.index, b) < FirstIndex(t.index, a)
    ensures LocSlice(t, a, b, Int(-1)).Ok?
    ensures |LocSlice(t, a, b, Int(-1)).value.table.index| == FirstIndex(t.index, a) - FirstIndex(t.index, b) - 1
    ensures forall k :: 0 <= k < |LocSlice(t, a, b, Int(-1)).value.table.index| ==>
      LocSlice(t, a, b, Int(-1)).value.table.index[k] == t.index[FirstIndex(t.index, a) - k]
    ensures FirstIndex(t.index, b) !in SlicePositions(t.length, Int(FirstIndex(t.index, a)), Int(FirstIndex(t.index, b) + 1), Int(-1)).value
  {
    var pa, pb := FirstIndex(t.index, a), FirstIndex(t.index, b);
    WalkBack(t, pa, pb + 1, Int(pb + 1));
    var u := ILocSlice(t, Int(pa), Int(pb + 1), Int(-1)).value;
    assert LocSlice(t, a, b, Int(-1)) == Ok(TableOf(u));
    assert pb !in Walk(t.length, pa, pb + 1, -1) by {
      var w := Walk(t.length, pa, pb + 1, -1);
      assert forall k :: 0 <= k < |w| ==> w[k] > pb;
    }
  }

  /** `iloc[first:stop:-1]` with a stop at or before `first`: the rows from
      `first` down to just above the stop, where a missing stop means past
      the first row. */
  lemma WalkBack(t: Table, first: nat, bound: int, stop: Value)
    requires t.Valid() && first < t.length && -1 <= bound <= first
    requires (bound == -1 && stop == Null) || (0 <= bound && stop == Int(bound))
    ensures ILocSlice(t, Int(first), stop, Int(-1)).Ok?
    ensures SlicePositions(t.length, Int(first), stop, Int(-1)) == Ok(Walk(t.length, first, bound, -1))
    ensures |ILocSlice(t, Int(first), stop, Int(-1)).value.index| == first - bound
    ensures forall k :: 0 <= k < first - bound ==> ILocSlice(t, Int(first), stop, Int(-1)).value.index[k] == t.index[first - k]
  {
    assert Adjust(t.length, first, true) == first;
    assert SlicePositions(t.length, Int(first), stop, Int(-1)) == Ok(Walk(t.length, first, bound, -1));
    WalkDownLength(t.length, first, bound);
  }

  /** The stop position the corrected label slice hands to `iloc`: one past
      `b` walking forwards; one before `b` walking backwards, or none when
      `b` is the first row, so that the walk runs down to it. */
  function InclusiveStop(p: nat, step: Value): (r: Value)
    ensures step.Int? && step.i < 0 && p > 0 ==> r == Int(p - 1)
    ensures step.Int? && step.i < 0 && p == 0 ==> r == Null
    ensures !(step.Int? && step.i < 0) ==> r == Int(p + 1)
  {
    if !(step.Int? && step.i < 0) then Int(p + 1) else if p == 0 then Null else Int(p - 1)
  }

  /** `loc[a:b:step]` with both endpoints included in either direction. Only
      the stop label's offset changes: a missing endpoint still defaults to
      0 or to the row count, as the source has it. */
  function LocSliceInclusive(t: Table, a: Value, b: Value, step: Value): (r: Result<Selection>)
    requires t.Valid()
    ensures a != Null && a !in t.index ==> r == Err(KeyError)
    ensures (a == Null || a in t.index) && b != Null && b !in t.index ==> r == Err(KeyError)
    ensures (a == Null || a in t.index) && (b == Null || b in t.index) ==>
      var first := if a == Null then 0 else FirstIndex(t.index, a);
      var last := if b == Null then Int(t.length) else InclusiveStop(FirstIndex(t.index, b), step);
      r == (match ILocSlice(t, Int(first), last, step) case Ok(u) => Ok(TableOf(u)) case Err(e) => Err(e))
  {
    var startIdx := if a == Null then Ok(0) else Locate(t.index, a);
    var stopIdx := if b == Null then Ok(Int(t.length)) else
      (match Locate(t.index, b) case Ok(p) => Ok(InclusiveStop(p, step)) case Err(e) => Err(e));
    if startIdx.Err? then Err(startIdx.error)
    else if stopIdx.Err? then Err(stopIdx.error)
    else match ILocSlice(t, Int(startIdx.value), stopIdx.value, step)
      case Ok(u) => Ok(TableOf(u))
      case Err(e) => Err(e)
  }

  /** Corrected backwards label slicing keeps every row from the first `a`
      down to the first `b`, both included. */
  lemma LocSliceInclusiveBackwards(t: Table, a: Value, b: Value)
    requires t.Valid() && a in t.index && b in t.index && a != Null && b != Null
    requires FirstIndex(t.index, b) <= FirstIndex(t.index, a)
    ensures LocSliceInclusive(t, a, b, Int(-1)).Ok?
    ensures |LocSliceInclusive(t, a, b, Int(-1)).value.table.index| == FirstIndex(t.index, a) - FirstIndex(t.index, b) + 1
    ensures forall k :: 0 <= k < |LocSliceInclusive(t, a, b, Int(-1)).value.table.index| ==>
      LocSliceInclusive(t, a, b, Int(-1)).value.table.index[k] == t.index[FirstIndex(t.index, a) - k]
  {
    var pa, pb := FirstIndex(t.index, a), FirstIndex(t.index, b);
    var stop := if pb == 0 then Null else Int(pb - 1);
    WalkBack(t, pa, pb as int - 1, stop);
    assert LocSliceInclusive(t, a, b, Int(-1)) == Ok(TableOf(ILocSlice(t, Int(pa), stop, Int(-1)).value));
  }

  /** The correction touches only a backwards walk to a stop label: with any
      other step, or with no stop label, the corrected slice is the slice as
      written. */
  lemma LocSliceInclusiveAgrees(t: Table, a: Value, b: Value, step: Value)
    requires t.Valid()
    requires !(step.Int? && step.i < 0) || b == Null
    ensures LocSliceInclusive(t, a, b, step) == LocSlice(t, a, b, step)
  {
  }

  /** `df.loc[item]` on a table with an index: a label, a list of labels, a
      boolean mask, or a label slice; a bool alone is a TypeError. A Series
      key is not covered. */
  function Loc(t: Table, key: Key): (r: Result<Selection>)
    requires t.Valid() && !key.SeriesKey?
    ensures key.Label? ==> r == LocLabel(t, key.v)
    ensures key.Items? && (key.items == [] || !key.items[0].Bool?) ==> r == LocLabels(t, key.items)
    ensures key.Items? && key.items != [] && key.items[0].Bool? ==> r == LocMask(t, key.items)
    ensures key.Slice? ==> r == LocSliceInclusive(t, key.start, key.stop, key.step)
  {
    match key
    case Label(v) => LocLabel(t, v)
    case Items(items) =>
      if items == [] || !items[0].Bool? then LocLabels(t, items) else LocMask(t, items)
    case Slice(start, stop, step) => LocSliceInclusive(t, start, stop, step)
  }
}
