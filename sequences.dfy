/** Python list addressing as the engine uses it: positional indexing with
    negative offsets, slicing, gathering by a position list and filtering by a
    truthy mask. */
module Sequences {
  import opened Values

  /** Position that `s[i]` reads in a list of length `n`, or None where
      Python raises IndexError. */
  function PyIndex(n: nat, i: int): (r: Option<nat>)
    ensures r.Some? <==> 0 <= i + n && i < n
    ensures r.Some? ==> r.value < n && (if i < 0 then r.value == i + n else r.value == i)
  {
    if 0 <= i + n && i < n then Some(if i < 0 then (i + n) as nat else i as nat) else None
  }

  predicate AllBelow(idx: seq<nat>, n: nat) {
    forall k :: 0 <= k < |idx| ==> idx[k] < n
  }

  predicate Distinct<T(==)>(s: seq<T>) {
    forall i, j :: 0 <= i < j < |s| ==> s[i] != s[j]
  }

  predicate Increasing(idx: seq<nat>) {
    forall k, l :: 0 <= k < l < |idx| ==> idx[k] < idx[l]
  }

  /** `[s[i] for i in idx]`. */
  function Gather<T>(s: seq<T>, idx: seq<nat>): (r: seq<T>)
    requires AllBelow(idx, |s|)
    ensures |r| == |idx|
    ensures forall k :: 0 <= k < |idx| ==> r[k] == s[idx[k]]
  {
    seq(|idx|, k requires 0 <= k < |idx| => s[idx[k]])
  }

  /** Positions whose mask entry is truthy, ascending:
      `[i for i, keep in enumerate(mask) if keep]`. */
  function TruePositions(mask: seq<Value>): (r: seq<nat>)
    ensures |r| <= |mask| && AllBelow(r, |mask|) && Increasing(r)
    ensures forall k :: 0 <= k < |r| ==> Truthy(mask[r[k]])
    ensures forall i :: 0 <= i < |mask| && Truthy(mask[i]) ==> i in r
  {
    if mask == [] then []
    else
      var rest := TruePositions(mask[..|mask| - 1]);
      assert forall k :: 0 <= k < |rest| ==> rest[k] < |mask| - 1;
      rest + if Truthy(mask[|mask| - 1]) then [|mask| - 1] else []
  }

  /** `[val for val, keep in zip(values, mask) if keep]` for equal lengths. */
  function Filter<T>(values: seq<T>, mask: seq<Value>): (r: seq<T>)
    requires |values| == |mask|
    ensures |r| == |TruePositions(mask)| <= |values|
    ensures forall k :: 0 <= k < |r| ==> r[k] == values[TruePositions(mask)[k]]
  {
    Gather(values, TruePositions(mask))
  }

  /** A slice bound or step: an int (a bool read as 1 or 0), or None for
      the default. */
  function SliceArg(v: Value): (r: Result<Option<int>>)
    ensures r.Err? <==> !IsInt(v) && v != Null
    ensures r.Ok? ==> r.value == if v == Null then None else Some(AsInt(v))
  {
    if v == Null then Ok(None)
    else if IsInt(v) then Ok(Some(AsInt(v)))
    else Err(TypeError)
  }

  /** CPython's clamping of a slice start or stop to a list of length n. */
  function Adjust(n: nat, v: int, backwards: bool): (r: int)
    ensures if backwards then -1 <= r <= n - 1 else 0 <= r <= n
  {
    if v < 0 then (if v + n < 0 then (if backwards then -1 else 0) else v + n)
    else if v >= n then (if backwards then n - 1 else n)
    else v
  }

  /** The positions first, first + step, ... strictly before `bound`. */
  function Walk(n: nat, first: int, bound: int, step: int): (r: seq<nat>)
    requires step != 0
    requires if step > 0 then 0 <= first && bound <= n else first <= n - 1 && -1 <= bound
    ensures AllBelow(r, n)
    ensures forall k :: 0 <= k < |r| ==> r[k] == first + k * step
    decreases if step > 0 then bound - first else first - bound
  {
    if (step > 0 && first < bound) || (step < 0 && first > bound) then
      var rest := Walk(n, first + step, bound, step);
      assert forall k :: 1 <= k < |rest| + 1 ==> rest[k - 1] == first + k * step;
      [first as nat] + rest
    else []
  }

  /** Positions a Python slice `[start:stop:step]` selects from a list of
      length n; ValueError for a zero step (`0` or `False`), TypeError for a
      part that is neither an int nor None. */
  function SlicePositions(n: nat, start: Value, stop: Value, step: Value): (r: Result<seq<nat>>)
    ensures r.Ok? ==> AllBelow(r.value, n)
    ensures r.Err? <==> SliceArg(step) == Ok(Some(0)) || SliceArg(step).Err? || SliceArg(start).Err? || SliceArg(stop).Err?
    ensures r.Err? ==> (r.error == ValueError <==> SliceArg(step) == Ok(Some(0)))
  {
    match SliceArg(step)
    case Err(e) => Err(e)
    case Ok(st) =>
      var s := if st.Some? then st.value else 1;
      if s == 0 then Err(ValueError)
      else
        match (SliceArg(start), SliceArg(stop))
        case (Err(e), _) => Err(e)
        case (_, Err(e)) => Err(e)
        case (Ok(a), Ok(b)) =>
          var back := s < 0;
          var first := if a.Some? then Adjust(n, a.value, back) else if back then n - 1 else 0;
          var bound := if b.Some? then Adjust(n, b.value, back) else if back then -1 else n;
          Ok(Walk(n, first, bound, s))
  }

  /** With the default step, a slice is the contiguous run between the
      clamped bounds: Python slicing agrees with Dafny's `s[lo..hi]`. */
  lemma UnitSliceIsSubsequence<T>(s: seq<T>, start: int, stop: int)
    ensures SlicePositions(|s|, Int(start), Int(stop), Null).Ok?
    ensures Adjust(|s|, start, false) <= Adjust(|s|, stop, false) ==>
      Gather(s, SlicePositions(|s|, Int(start), Int(stop), Null).value)
        == s[Adjust(|s|, start, false)..Adjust(|s|, stop, false)]
    ensures Adjust(|s|, start, false) > Adjust(|s|, stop, false) ==>
      SlicePositions(|s|, Int(start), Int(stop), Null).value == []
  {
    WalkLength(|s|, Adjust(|s|, start, false), Adjust(|s|, stop, false));
  }

  lemma {:induction false} WalkLength(n: nat, first: int, bound: int)
    requires 0 <= first && bound <= n
    ensures |Walk(n, first, bound, 1)| == (if first <= bound then bound - first else 0)
    decreases bound - first
  {
    if first < bound {
      WalkLength(n, first + 1, bound);
    }
  }

  lemma {:induction false} WalkDownLength(n: nat, first: int, bound: int)
    requires first <= n - 1 && -1 <= bound
    ensures |Walk(n, first, bound, -1)| == (if bound <= first then first - bound else 0)
    decreases first - bound
  {
    if first > bound {
      WalkDownLength(n, first - 1, bound);
    }
  }
}
