/** The named column (`Series`): construction, positional access, element-wise
    comparison and arithmetic that contain nulls and failures, membership,
    `apply`, `astype`, `value_counts` and the string accessor. Host-language
    callables (comparison and arithmetic operators, the `apply` function, the
    `astype` dtype, the string operation) are parameters: partial functions
    returning None where the Python call raises. */
module SeriesOps {
  import opened Values
  import opened Sequences
  import opened Tables
  import opened StableSort
  import opened Counting

  /** What `Series(data, ...)` receives as data. */
  datatype Data = ListData(items: seq<Value>) | NotAList

  /** The right-hand operand of an element-wise operation. */
  datatype Rhs = Column(other: Series) | Scalar(v: Value)

  /** What `s[item]` returns: one element or a new Series. */
  datatype Selected = Element(v: Value) | Part(s: Series)

  /** `Series(data, index, name)`: TypeError for a non-list, ValueError when
      the index length differs from the data length, the default index
      `0..n-1` when none is given. */
  function NewSeries(data: Data, index: Option<seq<Value>>, name: Option<Name>): (r: Result<Series>)
    ensures r.Ok? <==> data.ListData? && (index.Some? ==> |index.value| == |data.items|)
    ensures data.NotAList? ==> r == Err(TypeError)
    ensures data.ListData? && index.Some? && |index.value| != |data.items| ==> r == Err(ValueError)
    ensures r.Ok? ==> r.value.Valid() && r.value.values == data.items && r.value.name == name
    ensures r.Ok? && index.None? ==> r.value.index == Range(|data.items|)
    ensures r.Ok? && index.Some? ==> r.value.index == index.value
  {
    match data
    case NotAList => Err(TypeError)
    case ListData(items) =>
      if index.None? then Ok(Series(items, Range(|items|), name))
      else if |index.value| != |items| then Err(ValueError)
      else Ok(Series(items, index.value, name))
  }

  /** A list whose first element is a bool is a boolean mask. */
  predicate IsMask(items: seq<Value>) {
    items != [] && items[0].Bool?
  }

  /** `s[item]`: a slice cuts data and index alike; a boolean mask of the
      same length keeps the truthy positions of both (ValueError on a length
      mismatch); an int (a bool is 1 or 0) reads one element, counting from
      the end when negative (IndexError out of range); anything else is a
      TypeError. */
  function GetItem(s: Series, key: Key): (r: Result<Selected>)
    requires s.Valid()
    ensures key.Slice? ==>
      match SlicePositions(|s.values|, key.start, key.stop, key.step)
      case Err(e) => r == Err(e)
      case Ok(p) => r.Ok? && r.value == Part(Series(Gather(s.values, p), Gather(s.index, p), s.name))
    ensures key.Items? && IsMask(key.items) && |key.items| != |s.values| ==> r == Err(ValueError)
    ensures key.Items? && IsMask(key.items) && |key.items| == |s.values| ==>
      r.Ok? && r.value == Part(Series(Filter(s.values, key.items), Filter(s.index, key.items), s.name))
    ensures key.Label? && IsInt(key.v) ==>
      match PyIndex(|s.values|, AsInt(key.v))
      case None => r == Err(IndexError)
      case Some(p) => r == Ok(Element(s.values[p]))
    ensures (key.Label? && !IsInt(key.v)) || (key.Items? && !IsMask(key.items)) || key.SeriesKey? ==>
      r == Err(TypeError)
    ensures r.Ok? && r.value.Part? ==> r.value.s.Valid()
  {
    match key
    case Slice(start, stop, step) =>
      (match SlicePositions(|s.values|, start, stop, step)
       case Err(e) => Err(e)
       case Ok(p) => Ok(Part(Series(Gather(s.values, p), Gather(s.index, p), s.name))))
    case Items(items) =>
      if !IsMask(items) then Err(TypeError)
      else if |items| != |s.values| then Err(ValueError)
      else Ok(Part(Series(Filter(s.values, items), Filter(s.index, items), s.name)))
    case Label(v) =>
      if !IsInt(v) then Err(TypeError)
      else
        (match PyIndex(|s.values|, AsInt(v))
         case None => Err(IndexError)
         case Some(p) => Ok(Element(s.values[p])))
    case SeriesKey(_) => Err(TypeError)
  }

  /** Masking keeps each kept value together with its own label. */
  lemma MaskKeepsLabels(s: Series, mask: seq<Value>, k: nat)
    requires s.Valid() && IsMask(mask) && |mask| == |s.values|
    requires k < |Filter(s.values, mask)|
    ensures GetItem(s, Items(mask)).Ok?
    ensures var p := TruePositions(mask)[k];
      && Truthy(mask[p])
      && GetItem(s, Items(mask)).value.s.values[k] == s.values[p]
      && GetItem(s, Items(mask)).value.s.index[k] == s.index[p]
  {
  }

  /** The other operand at position i: the i-th element of a Series, or the
      scalar itself. */
  function OperandAt(rhs: Rhs, i: nat): Value
    requires rhs.Column? ==> i < |rhs.other.values|
  {
    if rhs.Column? then rhs.other.values[i] else rhs.v
  }

  /** A Series operand of another length is refused. */
  predicate Aligned(s: Series, rhs: Rhs) {
    rhs.Column? ==> |rhs.other.values| == |s.values|
  }

  /** One cell of a comparison: False for a null left element or an operator
      that raises, the operator's answer otherwise. */
  function CompareCell(x: Value, y: Value, op: (Value, Value) -> Option<bool>): Value {
    if x == Null then Bool(false)
    else match op(x, y)
      case None => Bool(false)
      case Some(b) => Bool(b)
  }

  /** `s == other`, `s < other`, ...: a boolean Series with the index and
      name of `s`, true exactly where the left element is not null and the
      operator answers true; ValueError for a Series operand of another
      length. */
  function Compared(s: Series, rhs: Rhs, op: (Value, Value) -> Option<bool>): (r: Result<Series>)
    ensures r.Err? <==> !Aligned(s, rhs)
    ensures r.Err? ==> r.error == ValueError
    ensures r.Ok? ==> |r.value.values| == |s.values| && r.value.index == s.index && r.value.name == s.name
    ensures r.Ok? ==> forall i :: 0 <= i < |s.values| ==> r.value.values[i].Bool?
    ensures r.Ok? ==> forall i :: 0 <= i < |s.values| ==>
      (Truthy(r.value.values[i]) <==> s.values[i] != Null && op(s.values[i], OperandAt(rhs, i)) == Some(true))
  {
    if !Aligned(s, rhs) then Err(ValueError)
    else Ok(Series(seq(|s.values|, i requires 0 <= i < |s.values| => CompareCell(s.values[i], OperandAt(rhs, i), op)),
                   s.index, s.name))
  }

  /** The comparison loop of `_compare`. */
  method Compare(s: Series, rhs: Rhs, op: (Value, Value) -> Option<bool>) returns (r: Result<Series>)
    ensures r == Compared(s, rhs, op)
  {
    if !Aligned(s, rhs) {
      return Err(ValueError);
    }
    var result: seq<Value> := [];
    var i := 0;
    while i < |s.values|
      invariant 0 <= i <= |s.values|
      invariant |result| == i
      invariant forall k :: 0 <= k < i ==> result[k] == CompareCell(s.values[k], OperandAt(rhs, k), op)
    {
      var x := s.values[i];
      if x == Null {
        result := result + [Bool(false)];
      } else {
        var res := op(x, OperandAt(rhs, i));
        if res.None? {
          result := result + [Bool(false)];
        } else {
          result := result + [Bool(res.value)];
        }
      }
      i := i + 1;
    }
    assert result == seq(|s.values|, i requires 0 <= i < |s.values| => CompareCell(s.values[i], OperandAt(rhs, i), op));
    return Ok(Series(result, s.index, s.name));
  }

  /** Python's `==`, which never raises. */
  function Equals(x: Value, y: Value): Option<bool> {
    Some(x == y)
  }

  /** Comparing against a scalar yields the mask of the positions holding
      that scalar, and nulls are never selected. */
  lemma EqualityMask(s: Series, v: Value, i: nat)
    requires i < |s.values|
    ensures Compared(s, Scalar(v), Equals).Ok?
    ensures Truthy(Compared(s, Scalar(v), Equals).value.values[i]) <==> s.values[i] == v && v != Null
  {
  }

  /** One cell of an arithmetic operation: null when either operand is null
      or the operator raises TypeError or ZeroDivisionError. */
  function ArithmeticCell(x: Value, y: Value, op: (Value, Value) -> Option<Value>): Value {
    if x == Null || y == Null then Null
    else match op(x, y)
      case None => Null
      case Some(v) => v
  }

  /** `s + other`, `s - other`, `s * other`, `s / other`: a Series with the
      index and name of `s` whose element i is the operator's result, or null
      where an operand is null or the operator fails; ValueError for a Series
      operand of another length. */
  function Combined(s: Series, rhs: Rhs, op: (Value, Value) -> Option<Value>): (r: Result<Series>)
    ensures r.Err? <==> !Aligned(s, rhs)
    ensures r.Err? ==> r.error == ValueError
    ensures r.Ok? ==> |r.value.values| == |s.values| && r.value.index == s.index && r.value.name == s.name
    ensures r.Ok? ==> forall i :: 0 <= i < |s.values| ==>
      var x, y := s.values[i], OperandAt(rhs, i);
      if x == Null || y == Null || op(x, y).None? then r.value.values[i] == Null
      else r.value.values[i] == op(x, y).value
  {
    if !Aligned(s, rhs) then Err(ValueError)
    else Ok(Series(seq(|s.values|, i requires 0 <= i < |s.values| => ArithmeticCell(s.values[i], OperandAt(rhs, i), op)),
                   s.index, s.name))
  }

  /** The loop of `_arithmetic_op`. */
  method Arithmetic(s: Series, rhs: Rhs, op: (Value, Value) -> Option<Value>) returns (r: Result<Series>)
    ensures r == Combined(s, rhs, op)
  {
    if !Aligned(s, rhs) {
      return Err(ValueError);
    }
    var result: seq<Value> := [];
    var i := 0;
    while i < |s.values|
      invariant 0 <= i <= |s.values|
      invariant |result| == i
      invariant forall k :: 0 <= k < i ==> result[k] == ArithmeticCell(s.values[k], OperandAt(rhs, k), op)
    {
      var val1 := s.values[i];
      var val2 := OperandAt(rhs, i);
      if val1 == Null || val2 == Null {
        result := result + [Null];
      } else {
        var res := op(val1, val2);
        if res.None? {
          result := result + [Null];
        } else {
          result := result + [res.value];
        }
      }
      i := i + 1;
    }
    assert result == seq(|s.values|, i requires 0 <= i < |s.values| => ArithmeticCell(s.values[i], OperandAt(rhs, i), op));
    return Ok(Series(result, s.index, s.name));
  }

  /** Python's `/` on numbers, where a bool is 1 or 0: ZeroDivisionError
      (None) for a zero divisor, TypeError (None) for a non-number. */
  function TrueDivide(x: Value, y: Value): (r: Option<Value>)
    ensures r.Some? <==> IsNumeric(x) && IsNumeric(y) && AsReal(y) != 0.0
    ensures r.Some? ==> r.value == Float(AsReal(x) / AsReal(y))
  {
    if IsNumeric(x) && IsNumeric(y) && AsReal(y) != 0.0 then Some(Float(AsReal(x) / AsReal(y))) else None
  }

  /** A bool divides as the int it is: `True / 2` is 0.5, and dividing by
      `False` is a division by zero. */
  lemma TrueDivideReadsBoolAsInt(x: Value)
    ensures TrueDivide(Bool(true), Int(2)) == Some(Float(0.5))
    ensures TrueDivide(x, Bool(false)) == None
  {
  }

  /** Dividing by a zero element gives null at that position alone; the
      division error does not escape. */
  lemma DivisionByZeroIsContained(s: Series, d: Series, i: nat)
    requires |d.values| == |s.values| && i < |s.values|
    requires IsNumeric(d.values[i]) && AsReal(d.values[i]) == 0.0
    ensures Combined(s, Column(d), TrueDivide).Ok?
    ensures Combined(s, Column(d), TrueDivide).value.values[i] == Null
  {
  }

  /** `s.isin(values)`: for each element, whether it is among `values` (a
      null only when null is among them); the result has the default index. */
  function IsIn(s: Series, values: seq<Value>): (r: Series)
    ensures r.Valid() && |r.values| == |s.values| && r.index == Range(|s.values|) && r.name == s.name
    ensures forall i :: 0 <= i < |s.values| ==> (r.values[i] == Bool(true) <==> s.values[i] in values)
    ensures forall i :: 0 <= i < |s.values| ==> r.values[i].Bool?
  {
    Series(seq(|s.values|, i requires 0 <= i < |s.values| => Bool(s.values[i] in values)), Range(|s.values|), s.name)
  }

  /** One cell of `apply`: the function's result, or null where it raises. */
  function ApplyCell(x: Value, f: Value -> Option<Value>): Value {
    if f(x).Some? then f(x).value else Null
  }

  /** `s.apply(f)`: element i is `f(s[i])`, or null where that call raises;
      a failure affects only its own position. The result has the default
      index. */
  function Applied(s: Series, f: Value -> Option<Value>): (r: Series)
    ensures r.Valid() && |r.values| == |s.values| && r.index == Range(|s.values|) && r.name == s.name
    ensures forall i :: 0 <= i < |s.values| && f(s.values[i]).Some? ==> r.values[i] == f(s.values[i]).value
    ensures forall i :: 0 <= i < |s.values| && f(s.values[i]).None? ==> r.values[i] == Null
  {
    Series(seq(|s.values|, i requires 0 <= i < |s.values| => ApplyCell(s.values[i], f)), Range(|s.values|), s.name)
  }

  /** The loop of `apply`. */
  method Apply(s: Series, f: Value -> Option<Value>) returns (r: Series)
    ensures r == Applied(s, f)
  {
    var result: seq<Value> := [];
    for i := 0 to |s.values|
      invariant |result| == i
      invariant forall k :: 0 <= k < i ==> result[k] == ApplyCell(s.values[k], f)
    {
      var res := f(s.values[i]);
      if res.Some? {
        result := result + [res.value];
      } else {
        result := result + [Null];
      }
    }
    assert result == seq(|s.values|, i requires 0 <= i < |s.values| => ApplyCell(s.values[i], f));
    return Series(result, Range(|s.values|), s.name);
  }

  /** Some non-null element that the dtype cannot convert. */
  predicate CastFails(values: seq<Value>, dtype: Value -> Option<Value>) {
    exists i :: 0 <= i < |values| && values[i] != Null && dtype(values[i]).None?
  }

  function CastCell(x: Value, dtype: Value -> Option<Value>): Value
    requires x == Null || dtype(x).Some?
  {
    if x == Null then Null else dtype(x).value
  }

  /** `s.astype(dtype)`: ValueError for the whole call when any non-null
      element fails to convert, with no partial result; otherwise nulls stay
      null, every other element is converted, and index and name are kept. */
  function Cast(s: Series, dtype: Value -> Option<Value>): (r: Result<Series>)
    ensures r.Err? <==> CastFails(s.values, dtype)
    ensures r.Err? ==> r.error == ValueError
    ensures r.Ok? ==> |r.value.values| == |s.values| && r.value.index == s.index && r.value.name == s.name
    ensures r.Ok? ==> forall i :: 0 <= i < |s.values| && s.values[i] == Null ==> r.value.values[i] == Null
    ensures r.Ok? ==> forall i :: 0 <= i < |s.values| && s.values[i] != Null ==>
      dtype(s.values[i]).Some? && r.value.values[i] == dtype(s.values[i]).value
  {
    if CastFails(s.values, dtype) then Err(ValueError)
    else Ok(Series(seq(|s.values|, i requires 0 <= i < |s.values| => CastCell(s.values[i], dtype)), s.index, s.name))
  }

  /** The loop of `astype`, which stops at the first failure. */
  method AsType(s: Series, dtype: Value -> Option<Value>) returns (r: Result<Series>)
    ensures r == Cast(s, dtype)
  {
    var result: seq<Value> := [];
    for i := 0 to |s.values|
      invariant forall k :: 0 <= k < i ==> s.values[k] == Null || dtype(s.values[k]).Some?
      invariant |result| == i
      invariant forall k :: 0 <= k < i ==> result[k] == CastCell(s.values[k], dtype)
    {
      var x := s.values[i];
      if x == Null {
        result := result + [Null];
      } else {
        var res := dtype(x);
        if res.None? {
          return Err(ValueError);
        }
        result := result + [res.value];
      }
    }
    assert result == seq(|s.values|, i requires 0 <= i < |s.values| => CastCell(s.values[i], dtype));
    return Ok(Series(result, s.index, s.name));
  }

  /** One cell of `lower`/`upper`/`replace`: null for null or non-text
      elements and where the operation raises. */
  function StrCell(x: Value, op: string -> Option<string>): Value {
    if !x.Str? then Null
    else match op(x.s)
      case None => Null
      case Some(t) => Str(t)
  }

  /** `s.str.lower()` and its siblings: the operation applied to each text
      element, null elsewhere; default index. */
  function StrMapped(s: Series, op: string -> Option<string>): (r: Series)
    ensures r.Valid() && |r.values| == |s.values| && r.index == Range(|s.values|) && r.name == s.name
    ensures forall i :: 0 <= i < |s.values| && !s.values[i].Str? ==> r.values[i] == Null
    ensures forall i :: 0 <= i < |s.values| && s.values[i].Str? ==>
      r.values[i] == (if op(s.values[i].s).Some? then Str(op(s.values[i].s).value) else Null)
  {
    Series(seq(|s.values|, i requires 0 <= i < |s.values| => StrCell(s.values[i], op)), Range(|s.values|), s.name)
  }

  /** The loop of `_str_op`. */
  method StrOp(s: Series, op: string -> Option<string>) returns (r: Series)
    ensures r == StrMapped(s, op)
  {
    var result: seq<Value> := [];
    for i := 0 to |s.values|
      invariant |result| == i
      invariant forall k :: 0 <= k < i ==> result[k] == StrCell(s.values[k], op)
    {
      var x := s.values[i];
      if x == Null {
        result := result + [Null];
      } else if !x.Str? {
        result := result + [Null];
      } else {
        var res := op(x.s);
        result := result + (if res.Some? then [Str(res.value)] else [Null]);
      }
    }
    assert result == seq(|s.values|, i requires 0 <= i < |s.values| => StrCell(s.values[i], op));
    return Series(result, Range(|s.values|), s.name);
  }

  /** pat occurs in text starting at position k. */
  predicate OccursAt(pat: string, text: string, k: int) {
    0 <= k <= |text| - |pat| && text[k..k + |pat|] == pat
  }

  /** `pat in text` for strings: pat occurs as a contiguous run. */
  predicate Occurs(pat: string, text: string) {
    exists k :: 0 <= k <= |text| - |pat| && OccursAt(pat, text, k)
  }

  function ContainsCell(x: Value, pat: string): Value {
    if x == Null then Null
    else if !x.Str? then Bool(false)
    else Bool(Occurs(pat, x.s))
  }

  /** `s.str.contains(pat)`: null for null, False for non-text, whether
      `pat` occurs otherwise; default index. */
  function Contained(s: Series, pat: string): (r: Series)
    ensures r.Valid() && |r.values| == |s.values| && r.index == Range(|s.values|) && r.name == s.name
    ensures forall i :: 0 <= i < |s.values| ==> (r.values[i] == Null <==> s.values[i] == Null)
    ensures forall i :: 0 <= i < |s.values| ==> (r.values[i] == Bool(true) <==> s.values[i].Str? && Occurs(pat, s.values[i].s))
  {
    Series(seq(|s.values|, i requires 0 <= i < |s.values| => ContainsCell(s.values[i], pat)), Range(|s.values|), s.name)
  }

  /** The loop of `contains`. */
  method Contains(s: Series, pat: string) returns (r: Series)
    ensures r == Contained(s, pat)
  {
    var result: seq<Value> := [];
    for i := 0 to |s.values|
      invariant |result| == i
      invariant forall k :: 0 <= k < i ==> result[k] == ContainsCell(s.values[k], pat)
    {
      var x := s.values[i];
      if x == Null {
        result := result + [Null];
      } else if !x.Str? {
        result := result + [Bool(false)];
      } else {
        result := result + [Bool(Occurs(pat, x.s))];
      }
    }
    assert result == seq(|s.values|, i requires 0 <= i < |s.values| => ContainsCell(s.values[i], pat));
    return Series(result, Range(|s.values|), s.name);
  }

  /** The empty pattern occurs in every text. */
  lemma EmptyPatternAlwaysContained(s: Series, i: nat)
    requires i < |s.values| && s.values[i].Str?
    ensures Contained(s, "").values[i] == Bool(true)
  {
    assert OccursAt("", s.values[i].s, 0);
  }

  /** Count ordering for `value_counts`: larger first. */
  predicate MoreFrequent(a: int, b: int) {
    a > b
  }

  /** The counts of the distinct values, in first-seen order. */
  function Tally(values: seq<Value>): (c: seq<int>)
    ensures |c| == |Uniques(values)|
  {
    var u := Uniques(values);
    seq(|u|, j requires 0 <= j < |u| => multiset(values)[u[j]])
  }

  /** The order `sorted(counts.items(), key=count, reverse=True)` visits the
      distinct values in, as positions into the first-seen list. */
  function CountOrder(values: seq<Value>): seq<nat> {
    var c := Tally(values);
    Sort(c, MoreFrequent, Iota(|c|))
  }

  lemma CountOrderIsPermutation(values: seq<Value>)
    ensures multiset(CountOrder(values)) == multiset(Iota(|Uniques(values)|))
    ensures AllBelow(CountOrder(values), |Uniques(values)|) && Distinct(CountOrder(values))
    ensures |CountOrder(values)| == |Uniques(values)|
  {
    var c := Tally(values);
    SortPermutes(c, MoreFrequent, Iota(|c|));
    PermutationOfIota(CountOrder(values), |c|);
  }

  /** `s.value_counts()`: the distinct values as the index and their counts
      as the data, by descending count. */
  function ValueCounted(s: Series): (r: Series)
    ensures r.Valid() && r.name == s.name
    ensures |r.values| == |Uniques(s.values)|
  {
    var u := Uniques(s.values);
    var c := Tally(s.values);
    var p := CountOrder(s.values);
    CountOrderIsPermutation(s.values);
    Series(seq(|p|, j requires 0 <= j < |p| => Int(c[p[j]])), Gather(u, p), s.name)
  }

  /** The counting loop of `value_counts`: a dict of counters filled in
      data order, as its keys (insertion order) and their counts. */
  method CountValues(values: seq<Value>) returns (keys: seq<Value>, tally: seq<int>)
    ensures keys == Uniques(values) && tally == Tally(values)
  {
    keys := [];
    var counts: map<Value, nat> := map[];
    CountedStart(values);
    for i := 0 to |values|
      invariant Counted(values, i, keys, counts)
    {
      keys, counts := CountOne(values, i, keys, counts);
    }
    CountersDone(values, keys, counts);
    tally := seq(|keys|, j requires 0 <= j < |keys| => counts[keys[j]] as int);
    TallyFromCounters(values, keys, counts, tally);
  }

  /** The loop state of the counting loop after `i` values. */
  ghost predicate Counted(values: seq<Value>, i: nat, keys: seq<Value>, counts: map<Value, nat>) {
    i <= |values| && keys == Uniques(values[..i]) && Counters(values[..i], keys, counts)
  }

  lemma CountedStart(values: seq<Value>)
    ensures Counted(values, 0, [], map[])
  {
    assert values[..0] == [];
  }

  /** One pass of the counting loop: `counts[x] = counts.get(x, 0) + 1`. */
  method CountOne(values: seq<Value>, i: nat, keys: seq<Value>, counts: map<Value, nat>)
    returns (keys': seq<Value>, counts': map<Value, nat>)
    requires i < |values| && Counted(values, i, keys, counts)
    ensures Counted(values, i + 1, keys', counts')
  {
    var x := values[i];
    CountStep(values, i, keys, counts);
    if x in counts {
      keys', counts' := keys, counts[x := counts[x] + 1];
    } else {
      keys', counts' := keys + [x], counts[x := 1];
    }
  }

  /** One pass of the counting loop keeps the counters and the key list in
      step with the prefix seen. */
  lemma CountStep(values: seq<Value>, i: nat, keys: seq<Value>, counts: map<Value, nat>)
    requires i < |values| && keys == Uniques(values[..i]) && Counters(values[..i], keys, counts)
    ensures values[i] in counts ==> Counted(values, i + 1, keys, counts[values[i] := counts[values[i]] + 1])
    ensures values[i] !in counts ==> Counted(values, i + 1, keys + [values[i]], counts[values[i] := 1])
  {
    var x := values[i];
    assert values[..i + 1] == values[..i] + [x];
    UniquesSnoc(values[..i], x);
    MembersOfUniques(values[..i], x);
    CountsSnoc(values[..i], x, keys, counts, if x in counts then keys else keys + [x]);
  }

  /** After the whole column, the counter of each key is its entry in
      `Tally`. */
  lemma CountersDone(values: seq<Value>, keys: seq<Value>, counts: map<Value, nat>)
    requires Counted(values, |values|, keys, counts)
    ensures keys == Uniques(values) && |Tally(values)| == |keys|
    ensures forall j :: 0 <= j < |keys| ==> keys[j] in counts && counts[keys[j]] as int == Tally(values)[j]
  {
    assert values[..|values|] == values;
  }

  lemma TallyFromCounters(values: seq<Value>, keys: seq<Value>, counts: map<Value, nat>, tally: seq<int>)
    requires keys == Uniques(values) && |tally| == |keys|
    requires forall j :: 0 <= j < |keys| ==> keys[j] in counts && counts[keys[j]] as int == Tally(values)[j]
    requires forall j :: 0 <= j < |keys| ==> tally[j] == counts[keys[j]] as int
    ensures tally == Tally(values)
  {
  }

  /** The counters after the values `seen`: one per key, holding the
      number of occurrences so far. */
  predicate Counters(seen: seq<Value>, keys: seq<Value>, counts: map<Value, nat>) {
    && (forall x :: x in counts ==> x in keys)
    && (forall k :: 0 <= k < |keys| ==> keys[k] in counts)
    && (forall x :: x in counts ==> counts[x] == multiset(seen)[x])
  }

  /** A value is a key of the first-seen list exactly when it was seen. */
  lemma MembersOfUniques(seen: seq<Value>, x: Value)
    ensures x in Uniques(seen) <==> x in seen
  {
    if x in seen {
      var i :| 0 <= i < |seen| && seen[i] == x;
    }
  }

  /** `counts[x] = counts.get(x, 0) + 1` keeps the counters right when x is
      appended, the keys growing by x when it is new. */
  lemma CountsSnoc(seen: seq<Value>, x: Value, keys: seq<Value>, counts: map<Value, nat>, next: seq<Value>)
    requires Counters(seen, keys, counts)
    requires x in counts <==> x in seen
    requires next == if x in counts then keys else keys + [x]
    ensures Counters(seen + [x], next, counts[x := if x in counts then counts[x] + 1 else 1])
  {
    assert multiset(seen + [x]) == multiset(seen) + multiset{x};
  }

  /** `value_counts`: count, then stably sort the (value, count) pairs by
      count, descending, and split them into index and data. */
  method ValueCounts(s: Series) returns (r: Series)
    ensures r == ValueCounted(s)
  {
    var keys, tally := CountValues(s.values);
    var order := Sort(tally, MoreFrequent, Iota(|keys|));
    SortedCountsBelow(s.values, keys, tally);
    var data: seq<Value> := [];
    var index: seq<Value> := [];
    for j := 0 to |order|
      invariant |data| == j && Spread(keys, tally, order, data, index)
    {
      SpreadSnoc(keys, tally, order, data, index);
      data := data + [Int(tally[order[j]])];
      index := index + [keys[order[j]]];
    }
    ValueCountsFrom(s, keys, tally, order, data, index);
    return Series(data, index, s.name);
  }

  /** The first entries of the value_counts result: position k holds the
      count and the value of the k-th entry of `order`. */
  ghost predicate Spread(keys: seq<Value>, tally: seq<int>, order: seq<nat>, data: seq<Value>, index: seq<Value>) {
    && |tally| == |keys| && AllBelow(order, |keys|)
    && |data| == |index| <= |order|
    && forall k :: 0 <= k < |data| ==> data[k] == Int(tally[order[k]]) && index[k] == keys[order[k]]
  }

  lemma SpreadSnoc(keys: seq<Value>, tally: seq<int>, order: seq<nat>, data: seq<Value>, index: seq<Value>)
    requires Spread(keys, tally, order, data, index) && |data| < |order|
    ensures order[|data|] < |keys| == |tally|
    ensures Spread(keys, tally, order, data + [Int(tally[order[|data|]])], index + [keys[order[|data|]]])
  {
  }

  lemma SortedCountsBelow(values: seq<Value>, keys: seq<Value>, tally: seq<int>)
    requires keys == Uniques(values) && tally == Tally(values)
    ensures AllBelow(Sort(tally, MoreFrequent, Iota(|keys|)), |keys|)
  {
    CountOrderIsPermutation(values);
  }

  /** The entries the loop of `value_counts` builds from the counts and the
      sorted order are those of `ValueCounted`. */
  lemma ValueCountsFrom(s: Series, keys: seq<Value>, tally: seq<int>, order: seq<nat>, data: seq<Value>, index: seq<Value>)
    requires keys == Uniques(s.values) && tally == Tally(s.values)
    requires order == Sort(tally, MoreFrequent, Iota(|keys|))
    requires AllBelow(order, |keys|) && |data| == |order| && Spread(keys, tally, order, data, index)
    ensures Series(data, index, s.name) == ValueCounted(s)
  {
    ValueCountedLayout(s);
    assert order == CountOrder(s.values);
    assert data == ValueCounted(s).values;
    assert index == ValueCounted(s).index;
  }

  lemma MoreFrequentIsStrictTotalOrder()
    ensures StrictTotalOrder(MoreFrequent)
  {
    forall a: int ensures !MoreFrequent(a, a) {}
    forall a: int, b: int, c: int | MoreFrequent(a, b) && MoreFrequent(b, c) ensures MoreFrequent(a, c) {}
    forall a: int, b: int | a != b ensures MoreFrequent(a, b) || MoreFrequent(b, a) {}
  }

  /** How the value_counts result is laid out: entry j is the j-th distinct
      value in count order, and its count. */
  lemma ValueCountedLayout(s: Series)
    ensures CountOrder(s.values) == Sort(Tally(s.values), MoreFrequent, Iota(|Uniques(s.values)|))
    ensures AllBelow(CountOrder(s.values), |Uniques(s.values)|) && Distinct(CountOrder(s.values))
    ensures multiset(CountOrder(s.values)) == multiset(Iota(|Uniques(s.values)|))
    ensures ValueCounted(s).index == Gather(Uniques(s.values), CountOrder(s.values))
    ensures |ValueCounted(s).values| == |CountOrder(s.values)|
    ensures forall j :: 0 <= j < |CountOrder(s.values)| ==>
      ValueCounted(s).values[j] == Int(Tally(s.values)[CountOrder(s.values)[j]])
  {
    CountOrderIsPermutation(s.values);
  }

  /** Each distinct value appears exactly once in the index. */
  lemma ValueCountsIndexDistinct(s: Series)
    ensures Distinct(ValueCounted(s).index)
  {
    var u := Uniques(s.values);
    var p := CountOrder(s.values);
    ValueCountedLayout(s);
    var index := ValueCounted(s).index;
    forall a, b | 0 <= a < b < |index| ensures index[a] != index[b] {
      assert index[a] == u[p[a]] && index[b] == u[p[b]];
    }
  }

  /** Every value of the Series appears in the index. */
  lemma ValueCountsCoversValues(s: Series, x: Value)
    requires x in s.values
    ensures x in ValueCounted(s).index
  {
    var u := Uniques(s.values);
    var p := CountOrder(s.values);
    ValueCountedLayout(s);
    var index := ValueCounted(s).index;
    assert x in u;
    var j :| 0 <= j < |u| && u[j] == x;
    assert j in multiset(Iota(|u|)) by {
      assert Iota(|u|)[j] == j;
    }
    assert j in p;
    var k :| 0 <= k < |p| && p[k] == j;
    assert index[k] == x;
  }

  /** The entry of each value is its number of occurrences. */
  lemma ValueCountsEntryIsCount(s: Series, j: nat)
    requires j < |ValueCounted(s).values|
    ensures ValueCounted(s).values[j] == Int(multiset(s.values)[ValueCounted(s).index[j]])
  {
    ValueCountedLayout(s);
  }

  /** The counts add up to the length of the Series. */
  lemma ValueCountsSumToLength(s: Series)
    ensures AllBelow(CountOrder(s.values), |Tally(s.values)|)
    ensures SumAt(Tally(s.values), CountOrder(s.values)) == |s.values|
    ensures forall j :: 0 <= j < |ValueCounted(s).values| ==>
      ValueCounted(s).values[j] == Int(Tally(s.values)[CountOrder(s.values)[j]])
  {
    var u := Uniques(s.values);
    var c := Tally(s.values);
    var p := CountOrder(s.values);
    ValueCountedLayout(s);
    SumAtPermutation(c, p, Iota(|u|));
    SumAtIota(u, multiset(s.values), |u|);
    assert u[..|u|] == u;
    CountsSumToLength(s.values);
  }

  /** Counts never increase along the result, and values with equal counts
      appear in the order of their first occurrence in the data. */
  lemma ValueCountsDescendingAndStable(s: Series, a: nat, b: nat)
    requires a < b < |ValueCounted(s).values|
    ensures ValueCounted(s).values[a].i >= ValueCounted(s).values[b].i
    ensures ValueCounted(s).index[a] in s.values && ValueCounted(s).index[b] in s.values
    ensures ValueCounted(s).values[a] == ValueCounted(s).values[b] ==>
      FirstIndex(s.values, ValueCounted(s).index[a]) < FirstIndex(s.values, ValueCounted(s).index[b])
  {
    var u := Uniques(s.values);
    var c := Tally(s.values);
    var p := CountOrder(s.values);
    ValueCountedLayout(s);
    MoreFrequentIsStrictTotalOrder();
    SortSorted(c, MoreFrequent, Iota(|c|));
    SortedMeansStable(c, MoreFrequent, p, a, b);
    if c[p[a]] == c[p[b]] {
      UniquesInFirstSeenOrder(s.values, p[a], p[b]);
    }
  }
}
