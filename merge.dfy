/** `merge(left, right, on, how)`: a hash join. The right table's rows are
    bucketed by their key tuple; every left row probes the buckets in left
    order; for a right or outer join the right rows no left row matched
    follow, in ascending order. Result columns are laid out in a dict from
    output name to (side, source column), so that a later entry with the
    same output name replaces the origin but keeps the first position. */
module Merge {
  import opened Values
  import opened Sequences
  import opened Tables
  import opened Counting
  import opened Buckets

  /** The `on` argument: one column name, a list of names, or anything else. */
  datatype On = OnName(name: Name) | OnList(names: seq<Name>) | OnOther

  datatype Side = FromLeft | FromRight

  /** Where an output column takes its values from. */
  datatype Origin = Origin(side: Side, column: Name)

  /** One assignment `new_columns[name] = origin`. */
  datatype Entry = Entry(name: Name, origin: Origin)

  /** The dict `new_columns`: its keys in insertion order and the mapping. */
  datatype Layout = Layout(names: seq<Name>, origin: map<Name, Origin>)

  /** One output row: a matched pair, a left row padded on the right, or a
      right row padded on the left. */
  datatype RowSrc = Both(l: nat, r: nat) | LeftOnly(l: nat) | RightOnly(r: nat)

  function OnColumns(on: On): Result<seq<Name>> {
    match on
    case OnName(name) => Ok([name])
    case OnList(names) => Ok(names)
    case OnOther => Err(TypeError)
  }

  predicate ValidHow(how: string) {
    how == "inner" || how == "left" || how == "right" || how == "outer"
  }

  /** Left rows without a match are kept. */
  predicate KeepsLeft(how: string) {
    how == "left" || how == "outer"
  }

  /** Right rows without a match are kept. */
  predicate KeepsRight(how: string) {
    how == "right" || how == "outer"
  }

  // ---------------------------------------------------------------------
  // The output layout

  /** The left-hand entries: key columns and left-only columns under their
      own name, columns both tables have under `name_x`. */
  function LeftEntries(leftCols: seq<Name>, rightCols: seq<Name>, on: seq<Name>): (es: seq<Entry>)
    ensures |es| == |leftCols|
  {
    seq(|leftCols|, i requires 0 <= i < |leftCols| =>
      var c := leftCols[i];
      Entry(if c !in on && c in rightCols then c + "_x" else c, Origin(FromLeft, c)))
  }

  /** The right-hand entries: key columns are skipped, columns both tables
      have are named `name_y`. */
  function RightEntries(leftCols: seq<Name>, rightCols: seq<Name>, on: seq<Name>): seq<Entry> {
    if rightCols == [] then []
    else
      var c := rightCols[|rightCols| - 1];
      RightEntries(leftCols, rightCols[..|rightCols| - 1], on)
        + if c in on then [] else [Entry(if c in leftCols then c + "_y" else c, Origin(FromRight, c))]
  }

  function Entries(leftCols: seq<Name>, rightCols: seq<Name>, on: seq<Name>): seq<Entry> {
    LeftEntries(leftCols, rightCols, on) + RightEntries(leftCols, rightCols, on)
  }

  function NamesOf(es: seq<Entry>): (ns: seq<Name>)
    ensures |ns| == |es| && forall i :: 0 <= i < |es| ==> ns[i] == es[i].name
  {
    seq(|es|, i requires 0 <= i < |es| => es[i].name)
  }

  /** `d[e.name] = e.origin` on a dict. */
  function Put(layout: Layout, e: Entry): Layout {
    if e.name in layout.origin then Layout(layout.names, layout.origin[e.name := e.origin])
    else Layout(layout.names + [e.name], layout.origin[e.name := e.origin])
  }

  /** The dict after a sequence of assignments. */
  function Fold(es: seq<Entry>): Layout {
    if es == [] then Layout([], map[]) else Put(Fold(es[..|es| - 1]), es[|es| - 1])
  }

  function LayoutOf(leftCols: seq<Name>, rightCols: seq<Name>, on: seq<Name>): Layout {
    Fold(Entries(leftCols, rightCols, on))
  }

  predicate WellFormed(layout: Layout) {
    && Distinct(layout.names)
    && (forall n :: n in layout.origin ==> n in layout.names)
    && (forall n :: n in layout.names ==> n in layout.origin)
  }

  lemma {:induction false} FoldSnoc(es: seq<Entry>, e: Entry)
    ensures Fold(es + [e]) == Put(Fold(es), e)
  {
    assert (es + [e])[..|es|] == es;
  }

  /** The layout is a dict: its names are the entry names in first-seen
      order, once each. */
  lemma {:induction false} FoldIsDict(es: seq<Entry>)
    ensures WellFormed(Fold(es))
    ensures Fold(es).names == Uniques(NamesOf(es))
  {
    if es != [] {
      var init := es[..|es| - 1];
      var e := es[|es| - 1];
      FoldIsDict(init);
      assert NamesOf(es)[..|es| - 1] == NamesOf(init);
      var u := Fold(init);
      assert e.name in u.origin <==> e.name in u.names;
    }
  }

  /** Every entry's name is a column of the layout. */
  lemma {:induction false} FoldCovers(es: seq<Entry>)
    ensures forall i :: 0 <= i < |es| ==> es[i].name in Fold(es).origin
  {
    if es != [] {
      var init := es[..|es| - 1];
      FoldCovers(init);
      forall i | 0 <= i < |es| ensures es[i].name in Fold(es).origin {
        if i < |init| {
          assert es[i] == init[i];
        }
      }
    }
  }

  /** Every name maps to the origin of some entry carrying it. */
  lemma {:induction false} FoldOrigins(es: seq<Entry>)
    ensures forall n :: n in Fold(es).origin ==> Entry(n, Fold(es).origin[n]) in es
  {
    if es != [] {
      var init := es[..|es| - 1];
      FoldOrigins(init);
      assert es == init + [es[|es| - 1]];
    }
  }

  /** Every name maps to the origin of the LAST entry that carries it. */
  lemma {:induction false} FoldLastWins(es: seq<Entry>, i: nat)
    requires i < |es|
    requires forall j :: i < j < |es| ==> es[j].name != es[i].name
    ensures es[i].name in Fold(es).origin && Fold(es).origin[es[i].name] == es[i].origin
  {
    var init := es[..|es| - 1];
    if i < |init| {
      FoldLastWins(init, i);
    }
  }

  /** Without suffix collisions every entry is a column of its own: the
      names are the entry names in order, each with its own origin. */
  lemma LayoutWithoutClashes(leftCols: seq<Name>, rightCols: seq<Name>, on: seq<Name>)
    requires Distinct(NamesOf(Entries(leftCols, rightCols, on)))
    ensures LayoutOf(leftCols, rightCols, on).names == NamesOf(Entries(leftCols, rightCols, on))
    ensures forall i :: 0 <= i < |Entries(leftCols, rightCols, on)| ==>
              Entries(leftCols, rightCols, on)[i].name in LayoutOf(leftCols, rightCols, on).origin &&
              LayoutOf(leftCols, rightCols, on).origin[Entries(leftCols, rightCols, on)[i].name] ==
                Entries(leftCols, rightCols, on)[i].origin
  {
    DistinctFold(Entries(leftCols, rightCols, on));
  }

  /** Assignments under distinct names: one column per entry, in order,
      each with its own origin. */
  lemma {:induction false} DistinctFold(es: seq<Entry>)
    requires Distinct(NamesOf(es))
    ensures Fold(es).names == NamesOf(es)
    ensures forall i :: 0 <= i < |es| ==> es[i].name in Fold(es).origin && Fold(es).origin[es[i].name] == es[i].origin
  {
    FoldIsDict(es);
    FoldCovers(es);
    UniquesOfDistinct(NamesOf(es));
    forall i | 0 <= i < |es|
      ensures Fold(es).origin[es[i].name] == es[i].origin
    {
      forall j | i < j < |es| ensures es[j].name != es[i].name {
        assert NamesOf(es)[j] != NamesOf(es)[i];
      }
      FoldLastWins(es, i);
    }
  }

  /** The right entries name right columns that are not keys. */
  lemma {:induction false} RightEntriesFrom(leftCols: seq<Name>, rightCols: seq<Name>, on: seq<Name>)
    ensures forall e :: e in RightEntries(leftCols, rightCols, on) ==>
              e.origin.side == FromRight && e.origin.column in rightCols && e.origin.column !in on
              && e.name == (if e.origin.column in leftCols then e.origin.column + "_y" else e.origin.column)
    decreases rightCols
  {
    if rightCols != [] {
      RightEntriesFrom(leftCols, rightCols[..|rightCols| - 1], on);
      assert rightCols == rightCols[..|rightCols| - 1] + [rightCols[|rightCols| - 1]];
    }
  }

  lemma {:induction false} RightEntriesSnoc(leftCols: seq<Name>, rightCols: seq<Name>, c: Name, on: seq<Name>)
    ensures RightEntries(leftCols, rightCols + [c], on) == RightEntries(leftCols, rightCols, on)
              + if c in on then [] else [Entry(if c in leftCols then c + "_y" else c, Origin(FromRight, c))]
  {
    assert (rightCols + [c])[..|rightCols|] == rightCols;
  }

  /** A right column that is not a key has its entry. */
  lemma {:induction false} RightEntryPresent(leftCols: seq<Name>, rightCols: seq<Name>, on: seq<Name>, c: Name)
    requires c in rightCols && c !in on
    ensures Entry(if c in leftCols then c + "_y" else c, Origin(FromRight, c)) in RightEntries(leftCols, rightCols, on)
    decreases rightCols
  {
    var init := rightCols[..|rightCols| - 1];
    assert rightCols == init + [rightCols[|rightCols| - 1]];
    if c != rightCols[|rightCols| - 1] {
      RightEntryPresent(leftCols, init, on, c);
    }
  }

  /** Suffixes: without collisions, a non-key column c both tables have
      becomes `c_x` (left values) and `c_y` (right values); a key column
      keeps its name and takes the left values. */
  lemma {:induction false} Suffixes(leftCols: seq<Name>, rightCols: seq<Name>, on: seq<Name>, c: Name)
    requires Distinct(NamesOf(Entries(leftCols, rightCols, on)))
    ensures c in leftCols && c in rightCols && c !in on ==>
              && c + "_x" in LayoutOf(leftCols, rightCols, on).origin
              && LayoutOf(leftCols, rightCols, on).origin[c + "_x"] == Origin(FromLeft, c)
              && c + "_y" in LayoutOf(leftCols, rightCols, on).origin
              && LayoutOf(leftCols, rightCols, on).origin[c + "_y"] == Origin(FromRight, c)
    ensures c in leftCols && c in on ==>
              c in LayoutOf(leftCols, rightCols, on).origin && LayoutOf(leftCols, rightCols, on).origin[c] == Origin(FromLeft, c)
  {
    if c in leftCols {
      var i :| 0 <= i < |leftCols| && leftCols[i] == c;
      EntryInLayout(leftCols, rightCols, on, i);
    }
    if c in leftCols && c in rightCols && c !in on {
      var e := Entry(c + "_y", Origin(FromRight, c));
      var re := RightEntries(leftCols, rightCols, on);
      RightEntryPresent(leftCols, rightCols, on, c);
      var j :| 0 <= j < |re| && re[j] == e;
      EntryInLayout(leftCols, rightCols, on, |leftCols| + j);
    }
  }

  /** Entry i of the assignments is a column of the layout with its own
      origin, when no names collide. */
  lemma EntryInLayout(leftCols: seq<Name>, rightCols: seq<Name>, on: seq<Name>, i: nat)
    requires Distinct(NamesOf(Entries(leftCols, rightCols, on))) && i < |Entries(leftCols, rightCols, on)|
    ensures i < |leftCols| ==> Entries(leftCols, rightCols, on)[i] == LeftEntries(leftCols, rightCols, on)[i]
    ensures i >= |leftCols| ==> Entries(leftCols, rightCols, on)[i] == RightEntries(leftCols, rightCols, on)[i - |leftCols|]
    ensures Entries(leftCols, rightCols, on)[i].name in LayoutOf(leftCols, rightCols, on).origin
    ensures LayoutOf(leftCols, rightCols, on).origin[Entries(leftCols, rightCols, on)[i].name] == Entries(leftCols, rightCols, on)[i].origin
  {
    LayoutWithoutClashes(leftCols, rightCols, on);
  }

  /** Step 2 of the source: fill `new_columns` from the left columns, then
      from the right columns. */
  method BuildLayout(leftCols: seq<Name>, rightCols: seq<Name>, on: seq<Name>) returns (layout: Layout)
    ensures layout == LayoutOf(leftCols, rightCols, on)
  {
    layout := AddLeftColumns(leftCols, rightCols, on);
    layout := AddRightColumns(layout, leftCols, rightCols, on);
  }

  /** `for col in left.columns`: the key columns and the left-only columns
      under their own name, the overlapping ones as `col_x`. */
  method AddLeftColumns(leftCols: seq<Name>, rightCols: seq<Name>, on: seq<Name>) returns (layout: Layout)
    ensures layout == Fold(LeftEntries(leftCols, rightCols, on))
  {
    ghost var le := LeftEntries(leftCols, rightCols, on);
    layout := Layout([], map[]);
    for i := 0 to |leftCols|
      invariant layout == Fold(le[..i])
    {
      var c := leftCols[i];
      var e: Entry;
      if c in on {
        e := Entry(c, Origin(FromLeft, c));
      } else if c in rightCols {
        e := Entry(c + "_x", Origin(FromLeft, c));
      } else {
        e := Entry(c, Origin(FromLeft, c));
      }
      FoldSnoc(le[..i], e);
      assert le[..i + 1] == le[..i] + [e];
      layout := Put(layout, e);
    }
    assert le[..|leftCols|] == le;
  }

  /** `for col in right.columns`: key columns are skipped, the overlapping
      ones become `col_y`. */
  method AddRightColumns(start: Layout, leftCols: seq<Name>, rightCols: seq<Name>, on: seq<Name>) returns (layout: Layout)
    requires start == Fold(LeftEntries(leftCols, rightCols, on))
    ensures layout == LayoutOf(leftCols, rightCols, on)
  {
    ghost var es := LeftEntries(leftCols, rightCols, on);
    layout := start;
    assert rightCols[..0] == [];
    for j := 0 to |rightCols|
      invariant RightFolded(leftCols, rightCols, on, j, es, layout)
    {
      es, layout := AddRightColumn(leftCols, rightCols, on, j, es, layout);
    }
    assert rightCols[..|rightCols|] == rightCols;
  }

  /** The state of the right-column loop after j columns. */
  ghost predicate RightFolded(leftCols: seq<Name>, rightCols: seq<Name>, on: seq<Name>, j: nat, es: seq<Entry>, layout: Layout) {
    && j <= |rightCols|
    && es == LeftEntries(leftCols, rightCols, on) + RightEntries(leftCols, rightCols[..j], on)
    && layout == Fold(es)
  }

  /** One right column: skipped when it is a key, otherwise assigned. */
  method AddRightColumn(leftCols: seq<Name>, rightCols: seq<Name>, on: seq<Name>, j: nat,
                        ghost es: seq<Entry>, layout: Layout) returns (ghost es': seq<Entry>, layout': Layout)
    requires j < |rightCols| && RightFolded(leftCols, rightCols, on, j, es, layout)
    ensures RightFolded(leftCols, rightCols, on, j + 1, es', layout')
  {
    var c := rightCols[j];
    RightEntriesSnoc(leftCols, rightCols[..j], c, on);
    assert rightCols[..j + 1] == rightCols[..j] + [c];
    es', layout' := es, layout;
    if c !in on {
      var e := if c in leftCols then Entry(c + "_y", Origin(FromRight, c)) else Entry(c, Origin(FromRight, c));
      FoldSnoc(es, e);
      layout' := Put(layout, e);
      es' := es + [e];
    }
  }

  // ---------------------------------------------------------------------
  // The emitted rows

  /** The rows one left row contributes: one per right row of its bucket,
      in bucket order; with an empty bucket, a padded row for a left or
      outer join and nothing otherwise. */
  function ProbeRow<K(==)>(lk: seq<K>, rk: seq<K>, keepLeft: bool, l: nat): seq<RowSrc>
    requires l < |lk|
  {
    var b := Bucket(rk, lk[l], |rk|);
    if b == [] then (if keepLeft then [LeftOnly(l)] else []) else Pairs(l, b)
  }

  /** Left row l paired with each of the right rows `rs`, in order. */
  function Pairs(l: nat, rs: seq<nat>): (p: seq<RowSrc>)
    ensures |p| == |rs| && forall j :: 0 <= j < |rs| ==> p[j] == Both(l, rs[j])
  {
    seq(|rs|, j requires 0 <= j < |rs| => Both(l, rs[j]))
  }

  /** The rows of the probe loop after the first n left rows. */
  function Probe<K(==)>(lk: seq<K>, rk: seq<K>, keepLeft: bool, n: nat): seq<RowSrc>
    requires n <= |lk|
  {
    if n == 0 then [] else Probe(lk, rk, keepLeft, n - 1) + ProbeRow(lk, rk, keepLeft, n - 1)
  }

  /** The right rows below n whose key no left row has, ascending. */
  function Unmatched<K(==)>(lk: seq<K>, rk: seq<K>, n: nat): seq<nat>
    requires n <= |rk|
  {
    if n == 0 then [] else Unmatched(lk, rk, n - 1) + if rk[n - 1] in lk then [] else [n - 1]
  }

  function Padded(u: seq<nat>): (p: seq<RowSrc>)
    ensures |p| == |u| && forall j :: 0 <= j < |u| ==> p[j] == RightOnly(u[j])
  {
    seq(|u|, j requires 0 <= j < |u| => RightOnly(u[j]))
  }

  /** Every output row, in output order. */
  function Emitted<K(==)>(lk: seq<K>, rk: seq<K>, how: string): seq<RowSrc> {
    Probe(lk, rk, KeepsLeft(how), |lk|) + if KeepsRight(how) then Padded(Unmatched(lk, rk, |rk|)) else []
  }

  predicate Fits(e: RowSrc, nl: nat, nr: nat) {
    match e
    case Both(l, r) => l < nl && r < nr
    case LeftOnly(l) => l < nl
    case RightOnly(r) => r < nr
  }

  predicate AllFit(rows: seq<RowSrc>, nl: nat, nr: nat) {
    forall k :: 0 <= k < |rows| ==> Fits(rows[k], nl, nr)
  }

  /** The rows of one left row all carry it; its pairs are in ascending
      right-row order and name right rows with the same key. */
  lemma {:induction false} ProbeRowShape<K>(lk: seq<K>, rk: seq<K>, keepLeft: bool, l: nat)
    requires l < |lk|
    ensures forall k :: 0 <= k < |ProbeRow(lk, rk, keepLeft, l)| ==>
              var e := ProbeRow(lk, rk, keepLeft, l)[k];
              !e.RightOnly? && e.l == l && (e.Both? ==> e.r < |rk| && rk[e.r] == lk[l])
    ensures forall j, k :: 0 <= j < k < |ProbeRow(lk, rk, keepLeft, l)| ==>
              var p := ProbeRow(lk, rk, keepLeft, l); p[j].Both? && p[k].Both? && p[j].r < p[k].r
  {
    var b := Bucket(rk, lk[l], |rk|);
    var p := ProbeRow(lk, rk, keepLeft, l);
    BucketSound(rk, lk[l], |rk|);
    if b != [] {
      assert p == Pairs(l, b);
      forall k | 0 <= k < |p| ensures p[k] == Both(l, b[k]) && b[k] < |rk| && rk[b[k]] == lk[l] {
      }
      forall j, k | 0 <= j < k < |p| ensures p[j].Both? && p[k].Both? && p[j].r < p[k].r {
        assert p[j] == Both(l, b[j]) && p[k] == Both(l, b[k]);
      }
    }
  }

  /** Left row l is paired with right row r exactly when their keys are equal. */
  lemma {:induction false} RowHasPair<K>(lk: seq<K>, rk: seq<K>, keepLeft: bool, l: nat, r: nat)
    requires l < |lk|
    ensures Both(l, r) in ProbeRow(lk, rk, keepLeft, l) <==> r < |rk| && rk[r] == lk[l]
  {
    var b := Bucket(rk, lk[l], |rk|);
    var p := ProbeRow(lk, rk, keepLeft, l);
    ProbeRowShape(lk, rk, keepLeft, l);
    if Both(l, r) in p {
      var k :| 0 <= k < |p| && p[k] == Both(l, r);
    }
    if r < |rk| && rk[r] == lk[l] {
      BucketComplete(rk, lk[l], |rk|, r);
      var k :| 0 <= k < |b| && b[k] == r;
      assert p[k] == Both(l, r);
    }
  }

  /** Left row l is emitted alone exactly when no right row has its key and
      unmatched left rows are kept. */
  lemma {:induction false} RowHasLeft<K>(lk: seq<K>, rk: seq<K>, keepLeft: bool, l: nat)
    requires l < |lk|
    ensures LeftOnly(l) in ProbeRow(lk, rk, keepLeft, l) <==> keepLeft && lk[l] !in rk
  {
    var b := Bucket(rk, lk[l], |rk|);
    var p := ProbeRow(lk, rk, keepLeft, l);
    BucketEmpty(rk, lk[l], |rk|);
    assert rk[..|rk|] == rk;
    if b != [] {
      assert p == Pairs(l, b);
    }
  }

  /** Rows that name left rows below n, and right rows below nr. */
  predicate LeftRooted(p: seq<RowSrc>, n: nat, nr: nat) {
    forall k :: 0 <= k < |p| ==> !p[k].RightOnly? && p[k].l < n && (p[k].Both? ==> p[k].r < nr)
  }

  lemma LeftRootedConcat(a: seq<RowSrc>, b: seq<RowSrc>, n: nat, nr: nat)
    requires LeftRooted(a, n, nr) && LeftRooted(b, n, nr)
    ensures LeftRooted(a + b, n, nr)
  {
    forall k | 0 <= k < |a + b| ensures !(a + b)[k].RightOnly? && (a + b)[k].l < n && ((a + b)[k].Both? ==> (a + b)[k].r < nr) {
      if k < |a| {
        assert (a + b)[k] == a[k];
      } else {
        assert (a + b)[k] == b[k - |a|];
      }
    }
  }

  lemma LeftRootedWiden(p: seq<RowSrc>, m: nat, n: nat, nr: nat)
    requires LeftRooted(p, m, nr) && m <= n
    ensures LeftRooted(p, n, nr)
  {
  }

  /** The probe rows after n left rows all come from those rows. */
  lemma {:induction false} ProbeShape<K>(lk: seq<K>, rk: seq<K>, keepLeft: bool, n: nat)
    requires n <= |lk|
    ensures LeftRooted(Probe(lk, rk, keepLeft, n), n, |rk|)
    decreases n
  {
    if n > 0 {
      var m := n - 1;
      var a := Probe(lk, rk, keepLeft, m);
      var b := ProbeRow(lk, rk, keepLeft, m);
      assert LeftRooted(a, n, |rk|) by {
        ProbeShape(lk, rk, keepLeft, m);
        LeftRootedWiden(a, m, n, |rk|);
      }
      assert LeftRooted(b, n, |rk|) by {
        ProbeRowShape(lk, rk, keepLeft, m);
      }
      LeftRootedConcat(a, b, n, |rk|);
      assert Probe(lk, rk, keepLeft, n) == a + b;
    }
  }

  /** After n left rows the probe loop has emitted the pair (l, r) exactly
      when l is one of those rows and the two keys are equal. */
  lemma {:induction false} ProbeHasPair<K>(lk: seq<K>, rk: seq<K>, keepLeft: bool, n: nat, l: nat, r: nat)
    requires n <= |lk|
    ensures Both(l, r) in Probe(lk, rk, keepLeft, n) <==> l < n && r < |rk| && lk[l] == rk[r]
    decreases n
  {
    if n > 0 {
      ProbeHasPair(lk, rk, keepLeft, n - 1, l, r);
      PairStep(lk, rk, keepLeft, n, l, r);
    }
  }

  /** The inductive step of `ProbeHasPair`: left row n - 1's own rows add
      its pairs with the right rows of equal key, and no other pair. */
  lemma PairStep<K>(lk: seq<K>, rk: seq<K>, keepLeft: bool, n: nat, l: nat, r: nat)
    requires 0 < n <= |lk|
    requires Both(l, r) in Probe(lk, rk, keepLeft, n - 1) <==> l < n - 1 && r < |rk| && lk[l] == rk[r]
    ensures Both(l, r) in Probe(lk, rk, keepLeft, n) <==> l < n && r < |rk| && lk[l] == rk[r]
  {
    var m := n - 1;
    var row := ProbeRow(lk, rk, keepLeft, m);
    var inRow := Both(l, r) in row;
    assert Both(l, r) in Probe(lk, rk, keepLeft, n) <==> Both(l, r) in Probe(lk, rk, keepLeft, m) || inRow by {
      assert Probe(lk, rk, keepLeft, n) == Probe(lk, rk, keepLeft, m) + row;
      InConcat(Probe(lk, rk, keepLeft, m), row, Probe(lk, rk, keepLeft, n), Both(l, r));
    }
    assert inRow <==> l == m && r < |rk| && lk[l] == rk[r] by {
      if l == m {
        RowHasPair(lk, rk, keepLeft, m, r);
      } else {
        ProbeRowShape(lk, rk, keepLeft, m);
        forall k | 0 <= k < |row| ensures row[k] != Both(l, r) {
          assert row[k].l == m;
        }
      }
    }
  }

  /** After n left rows the probe loop has emitted left row l alone exactly
      when unmatched left rows are kept, l is one of those rows and no right
      row has its key. */
  lemma {:induction false} ProbeHasLeft<K>(lk: seq<K>, rk: seq<K>, keepLeft: bool, n: nat, l: nat)
    requires n <= |lk|
    ensures LeftOnly(l) in Probe(lk, rk, keepLeft, n) <==> keepLeft && l < n && lk[l] !in rk
    decreases n
  {
    if n > 0 {
      ProbeHasLeft(lk, rk, keepLeft, n - 1, l);
      LeftStep(lk, rk, keepLeft, n, l);
    }
  }

  /** The inductive step of `ProbeHasLeft`: left row n - 1's own rows add
      it alone exactly when it is unmatched and kept. */
  lemma LeftStep<K>(lk: seq<K>, rk: seq<K>, keepLeft: bool, n: nat, l: nat)
    requires 0 < n <= |lk|
    requires LeftOnly(l) in Probe(lk, rk, keepLeft, n - 1) <==> keepLeft && l < n - 1 && lk[l] !in rk
    ensures LeftOnly(l) in Probe(lk, rk, keepLeft, n) <==> keepLeft && l < n && lk[l] !in rk
  {
    var m := n - 1;
    var row := ProbeRow(lk, rk, keepLeft, m);
    var inRow := LeftOnly(l) in row;
    assert LeftOnly(l) in Probe(lk, rk, keepLeft, n) <==> LeftOnly(l) in Probe(lk, rk, keepLeft, m) || inRow by {
      assert Probe(lk, rk, keepLeft, n) == Probe(lk, rk, keepLeft, m) + row;
      InConcat(Probe(lk, rk, keepLeft, m), row, Probe(lk, rk, keepLeft, n), LeftOnly(l));
    }
    assert inRow <==> l == m && keepLeft && lk[l] !in rk by {
      if l == m {
        RowHasLeft(lk, rk, keepLeft, m);
      } else {
        LeftAbsentInRow(lk, rk, keepLeft, m, l);
      }
    }
  }

  /** Left row l alone is among the first l + 1 probe rows exactly when
      its own row emitted it. */
  lemma LeftHere<K>(lk: seq<K>, rk: seq<K>, keepLeft: bool, l: nat)
    requires l < |lk|
    ensures LeftOnly(l) in Probe(lk, rk, keepLeft, l + 1) <==> keepLeft && lk[l] !in rk
  {
    ProbeSplit(lk, rk, keepLeft, l + 1, LeftOnly(l));
    RowHasLeft(lk, rk, keepLeft, l);
    LeftAbsentBefore(lk, rk, keepLeft, l);
  }

  /** Left row l alone is among the first n probe rows exactly when it is
      among the first n - 1, for any other l. */
  lemma LeftElsewhere<K>(lk: seq<K>, rk: seq<K>, keepLeft: bool, n: nat, l: nat)
    requires 0 < n <= |lk| && l != n - 1
    ensures LeftOnly(l) in Probe(lk, rk, keepLeft, n) <==> LeftOnly(l) in Probe(lk, rk, keepLeft, n - 1)
  {
    ProbeSplit(lk, rk, keepLeft, n, LeftOnly(l));
    LeftAbsentInRow(lk, rk, keepLeft, n - 1, l);
  }


  /** A row is among the first n probe rows exactly when it is among the
      first n - 1 or among those of left row n - 1. */
  lemma ProbeSplit<K>(lk: seq<K>, rk: seq<K>, keepLeft: bool, n: nat, e: RowSrc)
    requires 0 < n <= |lk|
    ensures e in Probe(lk, rk, keepLeft, n) <==>
              e in Probe(lk, rk, keepLeft, n - 1) || e in ProbeRow(lk, rk, keepLeft, n - 1)
  {
  }

  lemma InConcat<T>(a: seq<T>, b: seq<T>, c: seq<T>, x: T)
    requires c == a + b
    ensures x in c <==> x in a || x in b
  {
  }

  /** The probe rows of the first m left rows never hold left row m alone. */
  lemma LeftAbsentBefore<K>(lk: seq<K>, rk: seq<K>, keepLeft: bool, m: nat)
    requires m <= |lk|
    ensures LeftOnly(m) !in Probe(lk, rk, keepLeft, m)
  {
    var a := Probe(lk, rk, keepLeft, m);
    ProbeShape(lk, rk, keepLeft, m);
    forall k | 0 <= k < |a| ensures a[k] != LeftOnly(m) {
      assert a[k].l < m;
    }
  }

  /** The probe rows of left row m never hold another left row alone. */
  lemma LeftAbsentInRow<K>(lk: seq<K>, rk: seq<K>, keepLeft: bool, m: nat, l: nat)
    requires m < |lk| && l != m
    ensures LeftOnly(l) !in ProbeRow(lk, rk, keepLeft, m)
  {
    var b := ProbeRow(lk, rk, keepLeft, m);
    ProbeRowShape(lk, rk, keepLeft, m);
    forall k | 0 <= k < |b| ensures b[k] != LeftOnly(l) {
      assert b[k].l == m;
    }
  }



  /** Row x comes before row y in probe order: by left row, and by right
      row among the pairs of one left row. */
  predicate Before(x: RowSrc, y: RowSrc) {
    && !x.RightOnly? && !y.RightOnly?
    && (x.l < y.l || (x.l == y.l && x.Both? && y.Both? && x.r < y.r))
  }

  predicate InProbeOrder(p: seq<RowSrc>) {
    forall j, k :: 0 <= j < k < |p| ==> Before(p[j], p[k])
  }

  /** Two runs in probe order, every row of the first before every row of
      the second, make one run in probe order. */
  lemma OrderConcat(a: seq<RowSrc>, b: seq<RowSrc>)
    requires InProbeOrder(a) && InProbeOrder(b)
    requires forall j, k :: 0 <= j < |a| && 0 <= k < |b| ==> Before(a[j], b[k])
    ensures InProbeOrder(a + b)
  {
    var p := a + b;
    forall j, k | 0 <= j < k < |p| ensures Before(p[j], p[k]) {
      if k < |a| {
        assert p[j] == a[j] && p[k] == a[k];
      } else if j < |a| {
        assert p[j] == a[j] && p[k] == b[k - |a|];
      } else {
        assert p[j] == b[j - |a|] && p[k] == b[k - |a|];
      }
    }
  }

  /** The probe rows are ordered by left row and then by right row. */
  lemma {:induction false} ProbeOrder<K>(lk: seq<K>, rk: seq<K>, keepLeft: bool, n: nat)
    requires n <= |lk|
    ensures InProbeOrder(Probe(lk, rk, keepLeft, n))
    decreases n
  {
    if n > 0 {
      var m := n - 1;
      var a := Probe(lk, rk, keepLeft, m);
      var b := ProbeRow(lk, rk, keepLeft, m);
      assert InProbeOrder(a) && LeftRooted(a, m, |rk|) by {
        ProbeOrder(lk, rk, keepLeft, m);
        ProbeShape(lk, rk, keepLeft, m);
      }
      assert OneLeftRow(b, m) by {
        ProbeRowShape(lk, rk, keepLeft, m);
      }
      OrderStep(a, b, m, |rk|);
      assert Probe(lk, rk, keepLeft, n) == a + b;
    }
  }

  /** Rows that all carry left row m, with their pairs in ascending
      right-row order. */
  predicate OneLeftRow(b: seq<RowSrc>, m: nat) {
    && (forall k :: 0 <= k < |b| ==> !b[k].RightOnly? && b[k].l == m)
    && (forall j, k :: 0 <= j < k < |b| ==> b[j].Both? && b[k].Both? && b[j].r < b[k].r)
  }

  lemma OrderStep(a: seq<RowSrc>, b: seq<RowSrc>, m: nat, nr: nat)
    requires InProbeOrder(a) && LeftRooted(a, m, nr) && OneLeftRow(b, m)
    ensures InProbeOrder(a + b)
  {
    forall j, k | 0 <= j < k < |b| ensures Before(b[j], b[k]) {
      assert b[j].l == m && b[k].l == m;
    }
    forall j, k | 0 <= j < |a| && 0 <= k < |b| ensures Before(a[j], b[k]) {
      assert a[j].l < m && b[k].l == m;
    }
    OrderConcat(a, b);
  }

  lemma {:induction false} UnmatchedFacts<K>(lk: seq<K>, rk: seq<K>, n: nat)
    requires n <= |rk|
    ensures forall r: nat :: r in Unmatched(lk, rk, n) <==> r < n && rk[r] !in lk
    ensures AllBelow(Unmatched(lk, rk, n), n) && Increasing(Unmatched(lk, rk, n))
    decreases n
  {
    if n > 0 {
      UnmatchedFacts(lk, rk, n - 1);
    }
  }

  /** The rows of every join kind: a pair (l, r) is emitted exactly when the
      keys are equal; a left row alone exactly when it has no match and
      unmatched left rows are kept; a right row alone exactly when it has no
      match and unmatched right rows are kept. */
  lemma {:induction false} MergeRows<K>(lk: seq<K>, rk: seq<K>, how: string)
    ensures forall l: nat, r: nat :: Both(l, r) in Emitted(lk, rk, how) <==> l < |lk| && r < |rk| && lk[l] == rk[r]
    ensures forall l: nat :: LeftOnly(l) in Emitted(lk, rk, how) <==> KeepsLeft(how) && l < |lk| && lk[l] !in rk
    ensures forall r: nat :: RightOnly(r) in Emitted(lk, rk, how) <==> KeepsRight(how) && r < |rk| && rk[r] !in lk
  {
    forall l: nat, r: nat ensures Both(l, r) in Emitted(lk, rk, how) <==> l < |lk| && r < |rk| && lk[l] == rk[r] {
      EmittedSplit(lk, rk, how, Both(l, r));
      ProbeHasPair(lk, rk, KeepsLeft(how), |lk|, l, r);
      PaddedOnlyRight(Unmatched(lk, rk, |rk|), Both(l, r));
    }
    forall l: nat ensures LeftOnly(l) in Emitted(lk, rk, how) <==> KeepsLeft(how) && l < |lk| && lk[l] !in rk {
      EmittedSplit(lk, rk, how, LeftOnly(l));
      ProbeHasLeft(lk, rk, KeepsLeft(how), |lk|, l);
      PaddedOnlyRight(Unmatched(lk, rk, |rk|), LeftOnly(l));
    }
    forall r: nat ensures RightOnly(r) in Emitted(lk, rk, how) <==> KeepsRight(how) && r < |rk| && rk[r] !in lk {
      EmittedSplit(lk, rk, how, RightOnly(r));
      ProbeHasNoRight(lk, rk, KeepsLeft(how), |lk|, r);
      UnmatchedFacts(lk, rk, |rk|);
      PaddedHasRight(Unmatched(lk, rk, |rk|), r);
    }
  }

  /** A row is emitted exactly when the probe loop emits it or it is a padded
      unmatched right row of a join that keeps those. */
  lemma EmittedSplit<K>(lk: seq<K>, rk: seq<K>, how: string, x: RowSrc)
    ensures x in Emitted(lk, rk, how) <==>
              x in Probe(lk, rk, KeepsLeft(how), |lk|) || (KeepsRight(how) && x in Padded(Unmatched(lk, rk, |rk|)))
  {
  }

  /** Padding holds right rows alone only. */
  lemma PaddedOnlyRight(u: seq<nat>, x: RowSrc)
    requires !x.RightOnly?
    ensures x !in Padded(u)
  {
    var q := Padded(u);
    forall k | 0 <= k < |q| ensures q[k] != x {
      assert q[k].RightOnly?;
    }
  }

  /** Padding holds right row r exactly when r is among the padded rows. */
  lemma PaddedHasRight(u: seq<nat>, r: nat)
    ensures RightOnly(r) in Padded(u) <==> r in u
  {
    var q := Padded(u);
    if RightOnly(r) in q {
      var k :| 0 <= k < |q| && q[k] == RightOnly(r);
      assert u[k] == r;
    }
    if r in u {
      var k :| 0 <= k < |u| && u[k] == r;
      assert q[k] == RightOnly(r);
    }
  }

  /** The probe loop never emits a right row alone. */
  lemma ProbeHasNoRight<K>(lk: seq<K>, rk: seq<K>, keepLeft: bool, n: nat, r: nat)
    requires n <= |lk|
    ensures RightOnly(r) !in Probe(lk, rk, keepLeft, n)
  {
    var p := Probe(lk, rk, keepLeft, n);
    ProbeShape(lk, rk, keepLeft, n);
    forall k | 0 <= k < |p| ensures p[k] != RightOnly(r) {
      assert !p[k].RightOnly?;
    }
  }

  /** The order of the rows: probe rows come in (left row, right row)
      order, and the padded right rows follow them, ascending. */
  lemma {:induction false} MergeOrder<K>(lk: seq<K>, rk: seq<K>, how: string)
    ensures forall j, k :: 0 <= j < k < |Emitted(lk, rk, how)| && Emitted(lk, rk, how)[j].RightOnly? ==>
              Emitted(lk, rk, how)[k].RightOnly? && Emitted(lk, rk, how)[j].r < Emitted(lk, rk, how)[k].r
    ensures forall j, k :: 0 <= j < k < |Emitted(lk, rk, how)| ==>
              var e := Emitted(lk, rk, how);
              !e[j].RightOnly? && !e[k].RightOnly? ==> Before(e[j], e[k])
  {
    var p := Probe(lk, rk, KeepsLeft(how), |lk|);
    var u := Unmatched(lk, rk, |rk|);
    assert InProbeOrder(p) && LeftRooted(p, |lk|, |rk|) by {
      ProbeOrder(lk, rk, KeepsLeft(how), |lk|);
      ProbeShape(lk, rk, KeepsLeft(how), |lk|);
    }
    assert Increasing(u) by {
      UnmatchedFacts(lk, rk, |rk|);
    }
    EmittedOrder(p, u, KeepsRight(how), |lk|, |rk|);
    assert Emitted(lk, rk, how) == p + if KeepsRight(how) then Padded(u) else [];
  }

  /** Probe rows in probe order followed by padded right rows in ascending
      order: the padded rows come last, ascending, and the others keep probe
      order. */
  lemma EmittedOrder(p: seq<RowSrc>, u: seq<nat>, keepRight: bool, nl: nat, nr: nat)
    requires InProbeOrder(p) && LeftRooted(p, nl, nr) && Increasing(u)
    ensures var e := p + if keepRight then Padded(u) else [];
      && (forall j, k :: 0 <= j < k < |e| && e[j].RightOnly? ==> e[k].RightOnly? && e[j].r < e[k].r)
      && (forall j, k :: 0 <= j < k < |e| ==> !e[j].RightOnly? && !e[k].RightOnly? ==> Before(e[j], e[k]))
  {
    var q := if keepRight then Padded(u) else [];
    var e := p + q;
    forall j, k | 0 <= j < k < |e| && e[j].RightOnly? ensures e[k].RightOnly? && e[j].r < e[k].r {
      assert j >= |p| && e[j] == q[j - |p|] && e[k] == q[k - |p|];
    }
    forall j, k | 0 <= j < k < |e| && !e[j].RightOnly? && !e[k].RightOnly? ensures Before(e[j], e[k]) {
      assert k < |p| && e[j] == p[j] && e[k] == p[k];
    }
  }

  /** Every emitted row names existing rows. */
  lemma {:induction false} EmittedFits<K>(lk: seq<K>, rk: seq<K>, how: string)
    ensures AllFit(Emitted(lk, rk, how), |lk|, |rk|)
  {
    var p := Probe(lk, rk, KeepsLeft(how), |lk|);
    var u := Unmatched(lk, rk, |rk|);
    var q := if KeepsRight(how) then Padded(u) else [];
    var e := p + q;
    ProbeShape(lk, rk, KeepsLeft(how), |lk|);
    UnmatchedFacts(lk, rk, |rk|);
    forall k | 0 <= k < |e| ensures Fits(e[k], |lk|, |rk|) {
      if k >= |p| { assert e[k] == q[k - |p|]; }
    }
  }

  /** An inner join emits matched pairs only. */
  lemma {:induction false} InnerJoinPairsOnly<K>(lk: seq<K>, rk: seq<K>)
    ensures forall k :: 0 <= k < |Emitted(lk, rk, "inner")| ==> Emitted(lk, rk, "inner")[k].Both?
  {
    MergeRows(lk, rk, "inner");
  }

  /** The rows the probe loop emits for the first n left rows, counted from
      the keys alone: each left row contributes one row per right row with
      its key, or one padded row when it has none and the join keeps it. */
  function ProbeCount<K(==)>(lk: seq<K>, rk: seq<K>, keepLeft: bool, n: nat): nat
    requires n <= |lk|
  {
    if n == 0 then 0
    else
      var c := multiset(rk)[lk[n - 1]];
      ProbeCount(lk, rk, keepLeft, n - 1) + (if c == 0 then (if keepLeft then 1 else 0) else c)
  }

  lemma {:induction false} ProbeLength<K>(lk: seq<K>, rk: seq<K>, keepLeft: bool, n: nat)
    requires n <= |lk|
    ensures |Probe(lk, rk, keepLeft, n)| == ProbeCount(lk, rk, keepLeft, n)
    decreases n
  {
    if n > 0 {
      var m := n - 1;
      var prev := Probe(lk, rk, keepLeft, m);
      var row := ProbeRow(lk, rk, keepLeft, m);
      var c := multiset(rk)[lk[m]];
      assert |prev| == ProbeCount(lk, rk, keepLeft, m) by {
        ProbeLength(lk, rk, keepLeft, m);
      }
      assert |row| == if c == 0 then (if keepLeft then 1 else 0) else c by {
        ProbeRowLength(lk, rk, keepLeft, m);
      }
      assert Probe(lk, rk, keepLeft, n) == prev + row;
    }
  }

  lemma ProbeRowLength<K>(lk: seq<K>, rk: seq<K>, keepLeft: bool, l: nat)
    requires l < |lk|
    ensures var c := multiset(rk)[lk[l]];
      |ProbeRow(lk, rk, keepLeft, l)| == if c == 0 then (if keepLeft then 1 else 0) else c
  {
    BucketSize(rk, lk[l], |rk|);
    assert rk[..|rk|] == rk;
  }

  /** Join cardinality: an inner join emits, for every left row, one row per
      right row with an equal key; a left join adds one row per left row
      without a match; right and outer joins add one row per right row whose
      key no left row has. */
  lemma MergeCardinality<K>(lk: seq<K>, rk: seq<K>, how: string)
    ensures |Emitted(lk, rk, how)| == ProbeCount(lk, rk, KeepsLeft(how), |lk|)
              + (if KeepsRight(how) then |Unmatched(lk, rk, |rk|)| else 0)
    ensures |Unmatched(lk, rk, |rk|)| == |set r | 0 <= r < |rk| && rk[r] !in lk|
  {
    ProbeLength(lk, rk, KeepsLeft(how), |lk|);
    UnmatchedSize(lk, rk, |rk|);
  }

  lemma {:induction false} UnmatchedSize<K>(lk: seq<K>, rk: seq<K>, n: nat)
    requires n <= |rk|
    ensures |Unmatched(lk, rk, n)| == |set r | 0 <= r < n && rk[r] !in lk|
    decreases n
  {
    if n > 0 {
      UnmatchedSize(lk, rk, n - 1);
      UnmatchedSetStep(lk, rk, n);
    }
  }

  /** One more right row joins the set of unmatched rows when its key is
      not among the left keys. */
  lemma UnmatchedSetStep<K>(lk: seq<K>, rk: seq<K>, n: nat)
    requires 0 < n <= |rk|
    ensures |set r | 0 <= r < n && rk[r] !in lk| ==
      |set r | 0 <= r < n - 1 && rk[r] !in lk| + if rk[n - 1] in lk then 0 else 1
  {
    var before := set r | 0 <= r < n - 1 && rk[r] !in lk;
    var now := set r | 0 <= r < n && rk[r] !in lk;
    if rk[n - 1] in lk {
      assert now == before;
    } else {
      assert now == before + {n - 1};
    }
  }

  /** With every left row matching exactly one right row, an inner join
      keeps the left row count. */
  lemma {:induction false} InnerJoinOneToOne<K>(lk: seq<K>, rk: seq<K>, n: nat)
    requires n <= |lk|
    requires forall l :: 0 <= l < n ==> multiset(rk)[lk[l]] == 1
    ensures ProbeCount(lk, rk, false, n) == n
    decreases n
  {
    if n > 0 {
      InnerJoinOneToOne(lk, rk, n - 1);
    }
  }

  // ---------------------------------------------------------------------
  // Cells and the result table

  /** The merge can be built: valid tables, keys in both, a dict layout
      whose origins name existing columns. */
  predicate Ready(left: Table, right: Table, on: seq<Name>, layout: Layout) {
    && left.Valid() && right.Valid()
    && (forall c :: c in on ==> c in left.data && c in right.data)
    && WellFormed(layout)
    && (forall n :: n in layout.origin ==>
          if layout.origin[n].side == FromLeft then layout.origin[n].column in left.data
          else layout.origin[n].column in right.data)
  }

  /** The value column `name` (from `origin`) gets for one output row. A
      padded side gives None, except that a key column of a padded right row
      is filled from the right row. */
  function Cell(left: Table, right: Table, on: seq<Name>, layout: Layout, name: Name, e: RowSrc): Value
    requires Ready(left, right, on, layout) && name in layout.origin && Fits(e, Rows(left), Rows(right))
  {
    var o := layout.origin[name];
    match e
    case Both(l, r) => if o.side == FromLeft then left.data[o.column][l] else right.data[o.column][r]
    case LeftOnly(l) => if o.side == FromLeft then left.data[o.column][l] else Null
    case RightOnly(r) =>
      if o.side == FromRight then right.data[o.column][r]
      else if name in on then right.data[name][r]
      else Null
  }

  function Column(left: Table, right: Table, on: seq<Name>, layout: Layout, name: Name, rows: seq<RowSrc>): (col: seq<Value>)
    requires Ready(left, right, on, layout) && name in layout.origin && AllFit(rows, Rows(left), Rows(right))
    ensures |col| == |rows|
  {
    seq(|rows|, k requires 0 <= k < |rows| => Cell(left, right, on, layout, name, rows[k]))
  }

  lemma {:induction false} LayoutReady(left: Table, right: Table, on: seq<Name>)
    requires left.Valid() && right.Valid()
    requires forall c :: c in on ==> c in left.data && c in right.data
    ensures Ready(left, right, on, LayoutOf(left.columns, right.columns, on))
  {
    var es := Entries(left.columns, right.columns, on);
    var le := LeftEntries(left.columns, right.columns, on);
    FoldIsDict(es);
    FoldOrigins(es);
    RightEntriesFrom(left.columns, right.columns, on);
    forall e | e in es
      ensures if e.origin.side == FromLeft then e.origin.column in left.data else e.origin.column in right.data
    {
      var i :| 0 <= i < |es| && es[i] == e;
      if i >= |le| {
        assert e in RightEntries(left.columns, right.columns, on);
      }
    }
  }

  /** The joined table, once the arguments are checked. */
  function Joined(left: Table, right: Table, on: seq<Name>, how: string): Table
    requires left.Valid() && right.Valid()
    requires forall c :: c in on ==> c in left.data && c in right.data
  {
    var lk := KeysOf(left, on);
    var rk := KeysOf(right, on);
    var layout := LayoutOf(left.columns, right.columns, on);
    var rows := Emitted(lk, rk, how);
    LayoutReady(left, right, on);
    EmittedFits(lk, rk, how);
    Assemble(layout.names, map n | n in layout.names :: Column(left, right, on, layout, n, rows), |rows|)
  }

  /** `merge(left, right, on, how)`: TypeError unless `on` is a name or a
      list; KeyError when a key column is missing from either table;
      ValueError for an unknown join kind; otherwise the joined table. */
  function MergeSpec(left: Table, right: Table, on: On, how: string): Result<Table>
    requires left.Valid() && right.Valid()
  {
    match OnColumns(on)
    case Err(e) => Err(e)
    case Ok(cols) =>
      if !(forall c :: c in cols ==> c in left.columns && c in right.columns) then Err(KeyError)
      else if !ValidHow(how) then Err(ValueError)
      else Ok(Joined(left, right, cols, how))
  }

  /** A layout column of the joined table holds the cells of the emitted rows. */
  lemma JoinedColumn(left: Table, right: Table, on: seq<Name>, how: string, name: Name)
    requires left.Valid() && right.Valid()
    requires forall c :: c in on ==> c in left.data && c in right.data
    requires name in LayoutOf(left.columns, right.columns, on).origin
    ensures Ready(left, right, on, LayoutOf(left.columns, right.columns, on))
    ensures AllFit(Emitted(KeysOf(left, on), KeysOf(right, on), how), Rows(left), Rows(right))
    ensures name in Joined(left, right, on, how).data
    ensures Joined(left, right, on, how).data[name]
         == Column(left, right, on, LayoutOf(left.columns, right.columns, on), name,
                   Emitted(KeysOf(left, on), KeysOf(right, on), how))
  {
    LayoutReady(left, right, on);
    EmittedFits(KeysOf(left, on), KeysOf(right, on), how);
  }

  /** An emitted pair joins rows with equal keys. */
  lemma EmittedPairMatches<K>(lk: seq<K>, rk: seq<K>, how: string, k: nat)
    requires k < |Emitted(lk, rk, how)| && Emitted(lk, rk, how)[k].Both?
    ensures var e := Emitted(lk, rk, how)[k]; e.l < |lk| && e.r < |rk| && lk[e.l] == rk[e.r]
  {
    var e := Emitted(lk, rk, how)[k];
    EmittedSplit(lk, rk, how, e);
    ProbeHasPair(lk, rk, KeepsLeft(how), |lk|, e.l, e.r);
    PaddedOnlyRight(Unmatched(lk, rk, |rk|), e);
  }

  /** The key columns of every output row hold that row's key: the left key
      for a matched or left-padded row (equal to the right key when
      matched), the right key for a right-padded row. */
  lemma KeyColumnsHoldKey(left: Table, right: Table, on: seq<Name>, how: string, k: nat, j: nat)
    requires left.Valid() && right.Valid()
    requires forall c :: c in on ==> c in left.data && c in right.data
    requires Distinct(NamesOf(Entries(left.columns, right.columns, on)))
    requires k < |Emitted(KeysOf(left, on), KeysOf(right, on), how)| && j < |on|
    ensures AllFit(Emitted(KeysOf(left, on), KeysOf(right, on), how), |KeysOf(left, on)|, |KeysOf(right, on)|)
    ensures on[j] in Joined(left, right, on, how).data
    ensures |Joined(left, right, on, how).data[on[j]]| > k
    ensures var e := Emitted(KeysOf(left, on), KeysOf(right, on), how)[k];
            var v := Joined(left, right, on, how).data[on[j]][k];
            match e
            case Both(l, r) => v == KeysOf(left, on)[l][j] && v == KeysOf(right, on)[r][j]
            case LeftOnly(l) => v == KeysOf(left, on)[l][j]
            case RightOnly(r) => v == KeysOf(right, on)[r][j]
  {
    var lk := KeysOf(left, on);
    var rk := KeysOf(right, on);
    var rows := Emitted(lk, rk, how);
    var layout := LayoutOf(left.columns, right.columns, on);
    var c := on[j];
    assert c in left.columns;
    Suffixes(left.columns, right.columns, on, c);
    JoinedColumn(left, right, on, how, c);
    var e := rows[k];
    if e.Both? {
      EmittedPairMatches(lk, rk, how, k);
    }
    KeyCell(left, right, on, layout, j, rows, k);
    if e.Both? || e.LeftOnly? {
      assert lk[e.l] == KeyOf(left, on, e.l);
    }
    if e.Both? || e.RightOnly? {
      assert rk[e.r] == KeyOf(right, on, e.r);
    }
  }

  /** Row k of a key column holds the key of the row it comes from. */
  lemma KeyCell(left: Table, right: Table, on: seq<Name>, layout: Layout, j: nat, rows: seq<RowSrc>, k: nat)
    requires Ready(left, right, on, layout) && j < |on| && AllFit(rows, Rows(left), Rows(right)) && k < |rows|
    requires on[j] in layout.origin && layout.origin[on[j]] == Origin(FromLeft, on[j])
    requires rows[k].Both? ==> KeyOf(left, on, rows[k].l) == KeyOf(right, on, rows[k].r)
    ensures var v := Column(left, right, on, layout, on[j], rows)[k];
            match rows[k]
            case Both(l, r) => v == KeyOf(left, on, l)[j] && v == KeyOf(right, on, r)[j]
            case LeftOnly(l) => v == KeyOf(left, on, l)[j]
            case RightOnly(r) => v == KeyOf(right, on, r)[j]
  {
  }

  /** Padding: without suffix collisions, a left-padded row is None in every
      column taken from the right table, and a right-padded row is None in
      every non-key column taken from the left table. */
  lemma PaddingIsNone(left: Table, right: Table, on: seq<Name>, how: string, k: nat, i: nat)
    requires left.Valid() && right.Valid()
    requires forall c :: c in on ==> c in left.data && c in right.data
    requires Distinct(NamesOf(Entries(left.columns, right.columns, on)))
    requires k < |Emitted(KeysOf(left, on), KeysOf(right, on), how)|
    requires i < |Entries(left.columns, right.columns, on)|
    ensures Entries(left.columns, right.columns, on)[i].name in Joined(left, right, on, how).data
    ensures var e := Emitted(KeysOf(left, on), KeysOf(right, on), how)[k];
            var entry := Entries(left.columns, right.columns, on)[i];
            var col := Joined(left, right, on, how).data[entry.name];
            && (e.LeftOnly? && entry.origin.side == FromRight ==> |col| > k && col[k] == Null)
            && (e.RightOnly? && entry.origin.side == FromLeft && entry.name !in on ==> |col| > k && col[k] == Null)
  {
    var entry := Entries(left.columns, right.columns, on)[i];
    var layout := LayoutOf(left.columns, right.columns, on);
    var rows := Emitted(KeysOf(left, on), KeysOf(right, on), how);
    EntryInLayout(left.columns, right.columns, on, i);
    JoinedColumn(left, right, on, how, entry.name);
    var col := Joined(left, right, on, how).data[entry.name];
    assert |col| > k && col[k] == Cell(left, right, on, layout, entry.name, rows[k]);
    assert layout.origin[entry.name] == entry.origin;
  }

  // ---------------------------------------------------------------------
  // The join itself

  /** Appending a fitting row keeps every row fitting. */
  lemma AllFitSnoc(rows: seq<RowSrc>, e: RowSrc, nl: nat, nr: nat)
    requires AllFit(rows, nl, nr) && Fits(e, nl, nr)
    ensures AllFit(rows + [e], nl, nr)
  {
    var after := rows + [e];
    forall k | 0 <= k < |after| ensures Fits(after[k], nl, nr) {
      if k < |rows| { assert after[k] == rows[k]; }
    }
  }

  /** Appending a row appends its cell to every column. */
  lemma ColumnSnoc(left: Table, right: Table, on: seq<Name>, layout: Layout, name: Name, rows: seq<RowSrc>, e: RowSrc)
    requires Ready(left, right, on, layout) && name in layout.origin
    requires AllFit(rows, Rows(left), Rows(right)) && Fits(e, Rows(left), Rows(right))
    ensures AllFit(rows + [e], Rows(left), Rows(right))
    ensures Column(left, right, on, layout, name, rows + [e])
         == Column(left, right, on, layout, name, rows) + [Cell(left, right, on, layout, name, e)]
  {
    AllFitSnoc(rows, e, Rows(left), Rows(right));
  }

  /** `result_data` holds, column by column, the cells of `rows`. */
  ghost predicate Built(left: Table, right: Table, on: seq<Name>, layout: Layout,
                        m: map<Name, seq<Value>>, rows: seq<RowSrc>)
    requires Ready(left, right, on, layout)
  {
    && AllFit(rows, Rows(left), Rows(right))
    && m.Keys == layout.origin.Keys
    && forall n :: n in layout.origin ==> m[n] == Column(left, right, on, layout, n, rows)
  }

  /** Appends one output row: `result_data[new_col].append(...)` for every
      output column, in layout order. */
  method EmitRow(left: Table, right: Table, on: seq<Name>, layout: Layout,
                 result: map<Name, seq<Value>>, e: RowSrc, ghost rows: seq<RowSrc>)
      returns (next: map<Name, seq<Value>>)
    requires Ready(left, right, on, layout) && Fits(e, Rows(left), Rows(right))
    requires Built(left, right, on, layout, result, rows)
    ensures Built(left, right, on, layout, next, rows + [e])
  {
    AllFitSnoc(rows, e, Rows(left), Rows(right));
    next := result;
    for i := 0 to |layout.names|
      invariant next.Keys == layout.origin.Keys
      invariant HalfEmitted(left, right, on, layout, next, rows, e, i)
    {
      var n := layout.names[i];
      var v := CellOf(left, right, on, layout, n, e);
      EmitStep(left, right, on, layout, next, rows, e, i);
      next := next[n := next[n] + [v]];
    }
    assert layout.names[..|layout.names|] == layout.names;
  }

  /** The columns of the first i layout names hold row e as well. */
  ghost predicate HalfEmitted(left: Table, right: Table, on: seq<Name>, layout: Layout,
                              m: map<Name, seq<Value>>, rows: seq<RowSrc>, e: RowSrc, i: nat)
    requires Ready(left, right, on, layout) && i <= |layout.names| && m.Keys == layout.origin.Keys
    requires AllFit(rows, Rows(left), Rows(right)) && Fits(e, Rows(left), Rows(right))
  {
    AllFitSnoc(rows, e, Rows(left), Rows(right));
    forall n :: n in layout.origin ==>
      m[n] == if n in layout.names[..i] then Column(left, right, on, layout, n, rows + [e])
              else Column(left, right, on, layout, n, rows)
  }

  lemma EmitStep(left: Table, right: Table, on: seq<Name>, layout: Layout,
                 m: map<Name, seq<Value>>, rows: seq<RowSrc>, e: RowSrc, i: nat)
    requires Ready(left, right, on, layout) && i < |layout.names| && m.Keys == layout.origin.Keys
    requires AllFit(rows, Rows(left), Rows(right)) && Fits(e, Rows(left), Rows(right))
    requires HalfEmitted(left, right, on, layout, m, rows, e, i)
    ensures HalfEmitted(left, right, on, layout,
      m[layout.names[i] := m[layout.names[i]] + [Cell(left, right, on, layout, layout.names[i], e)]], rows, e, i + 1)
  {
    var n := layout.names[i];
    var m' := m[n := m[n] + [Cell(left, right, on, layout, n, e)]];
    ColumnSnoc(left, right, on, layout, n, rows, e);
    assert layout.names[..i + 1] == layout.names[..i] + [n];
    assert n !in layout.names[..i];
    forall x | x in layout.origin
      ensures m'[x] == if x in layout.names[..i + 1] then Column(left, right, on, layout, x, rows + [e])
                       else Column(left, right, on, layout, x, rows)
    {
      if x != n {
        assert x in layout.names[..i + 1] <==> x in layout.names[..i];
      }
    }
  }

  /** The value one output column gets for one output row: the branches
      on the column's source table, and for a padded right row on whether
      the column is a key column. */
  method CellOf(left: Table, right: Table, on: seq<Name>, layout: Layout, n: Name, e: RowSrc) returns (v: Value)
    requires Ready(left, right, on, layout) && n in layout.origin && Fits(e, Rows(left), Rows(right))
    ensures v == Cell(left, right, on, layout, n, e)
  {
    var o := layout.origin[n];
    if e.Both? {
      if o.side == FromLeft {
        v := left.data[o.column][e.l];
      } else {
        v := right.data[o.column][e.r];
      }
    } else if e.LeftOnly? {
      if o.side == FromLeft {
        v := left.data[o.column][e.l];
      } else {
        v := Null;
      }
    } else if o.side == FromRight {
      v := right.data[o.column][e.r];
    } else if n in on {
      v := right.data[n][e.r];
    } else {
      v := Null;
    }
  }

  /** One left row's matches: each right row is marked visited and paired
      with the left row, in bucket order. */
  method EmitMatches(left: Table, right: Table, on: seq<Name>, layout: Layout, result: map<Name, seq<Value>>,
                     visited: set<nat>, l: nat, matches: seq<nat>, ghost rows: seq<RowSrc>)
      returns (next: map<Name, seq<Value>>, seen: set<nat>)
    requires Ready(left, right, on, layout) && l < Rows(left) && AllBelow(matches, Rows(right))
    requires Built(left, right, on, layout, result, rows)
    ensures Built(left, right, on, layout, next, rows + Pairs(l, matches))
    ensures forall r :: r in seen <==> r in visited || r in matches
  {
    next := result;
    seen := visited;
    ghost var out := rows;
    for j := 0 to |matches|
      invariant out == rows + Pairs(l, matches[..j])
      invariant Built(left, right, on, layout, next, out)
      invariant forall r :: r in seen <==> r in visited || r in matches[..j]
    {
      var r := matches[j];
      seen := seen + {r};
      next := EmitRow(left, right, on, layout, next, Both(l, r), out);
      out := out + [Both(l, r)];
      assert matches[..j + 1] == matches[..j] + [r];
      assert Pairs(l, matches[..j + 1]) == Pairs(l, matches[..j]) + [Both(l, r)];
    }
    assert matches[..|matches|] == matches;
  }

  /** The rows of left row l, as the loop body emits them. */
  lemma ProbeStep<K>(lk: seq<K>, rk: seq<K>, keepLeft: bool, l: nat)
    requires l < |lk|
    ensures var b := Bucket(rk, lk[l], |rk|);
            Probe(lk, rk, keepLeft, l + 1) ==
              Probe(lk, rk, keepLeft, l) + (if b == [] then (if keepLeft then [LeftOnly(l)] else []) else Pairs(l, b))
  {
  }

  /** After left row l the visited right rows are those whose key some left
      row up to l has. */
  lemma VisitedStep<K>(lk: seq<K>, rk: seq<K>, l: nat, visited: set<nat>, seen: set<nat>)
    requires l < |lk|
    requires forall r: nat :: r in visited <==> r < |rk| && rk[r] in lk[..l]
    requires forall r :: r in seen <==> r in visited || r in Bucket(rk, lk[l], |rk|)
    ensures forall r: nat :: r in seen <==> r < |rk| && rk[r] in lk[..l + 1]
  {
    assert lk[..l + 1] == lk[..l] + [lk[l]];
    forall r: nat ensures r in seen <==> r < |rk| && rk[r] in lk[..l + 1] {
      BucketHas(rk, lk[l], |rk|, r);
    }
  }

  /** Step 3: every left row probes the right map; the matched right rows
      are recorded in `visited`. */
  method ProbeLeft(left: Table, right: Table, on: seq<Name>, how: string, layout: Layout,
                   rightMap: map<Tuple, seq<nat>>, start: map<Name, seq<Value>>)
      returns (result: map<Name, seq<Value>>, visited: set<nat>)
    requires Ready(left, right, on, layout) && ValidHow(how)
    requires rightMap == Buckets.Buckets(KeysOf(right, on), Rows(right))
    requires Built(left, right, on, layout, start, [])
    ensures Probed(left, right, on, how, layout, result, visited, Rows(left))
  {
    result := start;
    visited := {};
    ProbedStart(left, right, on, how, layout, start);
    for l := 0 to Rows(left)
      invariant Probed(left, right, on, how, layout, result, visited, l)
    {
      result, visited := ProbeOne(left, right, on, how, layout, rightMap, result, visited, l);
    }
  }

  lemma ProbedStart(left: Table, right: Table, on: seq<Name>, how: string, layout: Layout, start: map<Name, seq<Value>>)
    requires Ready(left, right, on, layout)
    requires Built(left, right, on, layout, start, [])
    ensures Probed(left, right, on, how, layout, start, {}, 0)
  {
    assert Probe(KeysOf(left, on), KeysOf(right, on), KeepsLeft(how), 0) == [];
  }

  /** After every left row: the probe rows are built and the visited right
      rows are exactly those whose key some left row has. */
  lemma ProbedAll(left: Table, right: Table, on: seq<Name>, how: string, layout: Layout,
                  result: map<Name, seq<Value>>, visited: set<nat>)
    requires Ready(left, right, on, layout)
    requires Probed(left, right, on, how, layout, result, visited, Rows(left))
    ensures Built(left, right, on, layout, result, Probe(KeysOf(left, on), KeysOf(right, on), KeepsLeft(how), |KeysOf(left, on)|))
    ensures forall r: nat :: r in visited <==> r < Rows(right) && KeysOf(right, on)[r] in KeysOf(left, on)
  {
    assert KeysOf(left, on)[..Rows(left)] == KeysOf(left, on);
  }

  /** The state of the probe loop after the first l left rows: their rows
      are built, and the visited right rows are those an earlier key
      matched. */
  ghost predicate Probed(left: Table, right: Table, on: seq<Name>, how: string, layout: Layout,
                         result: map<Name, seq<Value>>, visited: set<nat>, l: nat)
    requires Ready(left, right, on, layout)
  {
    && l <= Rows(left)
    && Built(left, right, on, layout, result, Probe(KeysOf(left, on), KeysOf(right, on), KeepsLeft(how), l))
    && forall r: nat :: r in visited <==> r < Rows(right) && KeysOf(right, on)[r] in KeysOf(left, on)[..l]
  }

  /** The body of the probe loop for left row l: its key looked up in the
      right map; the matches paired with it, or the row padded on the right
      when it has none and the join keeps such rows. Afterwards the rows of
      the first l + 1 left rows are built and their matches visited. */
  method ProbeOne(left: Table, right: Table, on: seq<Name>, how: string, layout: Layout,
                  rightMap: map<Tuple, seq<nat>>, result: map<Name, seq<Value>>, visited: set<nat>,
                  l: nat)
      returns (next: map<Name, seq<Value>>, seen: set<nat>)
    requires Ready(left, right, on, layout) && ValidHow(how) && l < Rows(left)
    requires rightMap == Buckets.Buckets(KeysOf(right, on), Rows(right))
    requires Probed(left, right, on, how, layout, result, visited, l)
    ensures Probed(left, right, on, how, layout, next, seen, l + 1)
  {
    ghost var lk := KeysOf(left, on);
    ghost var rk := KeysOf(right, on);
    ghost var rows := Probe(lk, rk, KeepsLeft(how), l);
    next, seen := Lookup(left, right, on, how, layout, rightMap, result, visited, l, rows);
    assert rows + ProbeRow(lk, rk, KeepsLeft(how), l) == Probe(lk, rk, KeepsLeft(how), l + 1);
    VisitedStep(lk, rk, l, visited, seen);
  }

  /** The lookup of left row l's key in the right map, and the rows it
      emits. */
  method Lookup(left: Table, right: Table, on: seq<Name>, how: string, layout: Layout,
                rightMap: map<Tuple, seq<nat>>, result: map<Name, seq<Value>>, visited: set<nat>,
                l: nat, ghost rows: seq<RowSrc>)
      returns (next: map<Name, seq<Value>>, seen: set<nat>)
    requires Ready(left, right, on, layout) && ValidHow(how) && l < Rows(left)
    requires rightMap == Buckets.Buckets(KeysOf(right, on), Rows(right))
    requires Built(left, right, on, layout, result, rows)
    ensures Built(left, right, on, layout, next, rows + ProbeRow(KeysOf(left, on), KeysOf(right, on), KeepsLeft(how), l))
    ensures forall r :: r in seen <==> r in visited || r in Bucket(KeysOf(right, on), KeysOf(left, on)[l], Rows(right))
  {
    ghost var rk := KeysOf(right, on);
    var key := KeyOf(left, on, l);
    assert key == KeysOf(left, on)[l];
    var matches := if key in rightMap then rightMap[key] else [];
    MatchesOf(rk, key, rightMap);
    BucketSound(rk, key, |rk|);
    next, seen := result, visited;
    if matches == [] {
      if how == "left" || how == "outer" {
        next := EmitRow(left, right, on, layout, result, LeftOnly(l), rows);
      } else {
        assert rows + [] == rows;
      }
    } else {
      next, seen := EmitMatches(left, right, on, layout, result, visited, l, matches, rows);
    }
  }

  /** `right_map.get(key, [])` is the bucket of the key. */
  lemma MatchesOf(rk: seq<Tuple>, key: Tuple, rightMap: map<Tuple, seq<nat>>)
    requires rightMap == Buckets.Buckets(rk, |rk|)
    ensures (if key in rightMap then rightMap[key] else []) == Bucket(rk, key, |rk|)
  {
    BucketsContents(rk, |rk|, key);
    BucketEmpty(rk, key, |rk|);
    assert rk[..|rk|] == rk;
  }

  /** Step 4: the right rows no left row matched, ascending, each padded on
      the left (`sorted(all - visited)`, walked in order of position). */
  method PadRight(left: Table, right: Table, on: seq<Name>, layout: Layout, visited: set<nat>,
                  start: map<Name, seq<Value>>, ghost rows: seq<RowSrc>)
      returns (result: map<Name, seq<Value>>)
    requires Ready(left, right, on, layout)
    requires forall r: nat :: r in visited <==> r < Rows(right) && KeysOf(right, on)[r] in KeysOf(left, on)
    requires Built(left, right, on, layout, start, rows)
    ensures Built(left, right, on, layout, result, rows + Padded(Unmatched(KeysOf(left, on), KeysOf(right, on), Rows(right))))
  {
    var pending := PendingRight(left, right, on, visited);
    UnmatchedFacts(KeysOf(left, on), KeysOf(right, on), Rows(right));
    result := start;
    ghost var out := rows;
    for j := 0 to |pending|
      invariant out == rows + Padded(pending[..j])
      invariant Built(left, right, on, layout, result, out)
    {
      result := EmitRow(left, right, on, layout, result, RightOnly(pending[j]), out);
      out := out + [RightOnly(pending[j])];
      PaddedSnoc(pending, j);
    }
    assert pending[..|pending|] == pending;
  }

  /** The right rows no left row visited, ascending. */
  method PendingRight(left: Table, right: Table, on: seq<Name>, visited: set<nat>) returns (pending: seq<nat>)
    requires left.Valid() && right.Valid() && forall c :: c in on ==> c in left.data && c in right.data
    requires forall r: nat :: r in visited <==> r < Rows(right) && KeysOf(right, on)[r] in KeysOf(left, on)
    ensures pending == Unmatched(KeysOf(left, on), KeysOf(right, on), Rows(right))
  {
    ghost var lk := KeysOf(left, on);
    ghost var rk := KeysOf(right, on);
    pending := [];
    for r := 0 to Rows(right)
      invariant pending == Unmatched(lk, rk, r)
    {
      if r !in visited {
        pending := pending + [r];
      }
    }
  }

  lemma PaddedSnoc(pending: seq<nat>, j: nat)
    requires j < |pending|
    ensures Padded(pending[..j + 1]) == Padded(pending[..j]) + [RightOnly(pending[j])]
  {
  }

  /** `merge(left, right, on, how)`: the argument checks in the order the
      source makes them, then the join. */
  method Merge(left: Table, right: Table, on: On, how: string) returns (r: Result<Table>)
    requires left.Valid() && right.Valid()
    ensures r == MergeSpec(left, right, on, how)
  {
    if on.OnOther? {
      r := Err(TypeError);
    } else {
      var cols := if on.OnName? then [on.name] else on.names;
      var present := KeysPresent(left, right, cols);
      if !present {
        r := Err(KeyError);
      } else if !(how == "inner" || how == "left" || how == "right" || how == "outer") {
        r := Err(ValueError);
      } else {
        r := Join(left, right, cols, how);
      }
    }
  }

  /** `for col in on_cols`: KeyError as soon as a key column is missing
      from the left or from the right table. */
  method KeysPresent(left: Table, right: Table, cols: seq<Name>) returns (present: bool)
    ensures present <==> forall c :: c in cols ==> c in left.columns && c in right.columns
  {
    for i := 0 to |cols|
      invariant forall j :: 0 <= j < i ==> cols[j] in left.columns && cols[j] in right.columns
    {
      if cols[i] !in left.columns || cols[i] !in right.columns {
        return false;
      }
    }
    return true;
  }

  /** Steps 1 to 4 of the join, and the table built from `result_data`. */
  method Join(left: Table, right: Table, on: seq<Name>, how: string) returns (r: Result<Table>)
    requires left.Valid() && right.Valid() && ValidHow(how)
    requires forall c :: c in on ==> c in left.columns && c in right.columns
    ensures r == Ok(Joined(left, right, on, how))
  {
    var rk := KeysOf(right, on);
    var order, rightMap := Group(rk);
    var layout := BuildLayout(left.columns, right.columns, on);
    LayoutReady(left, right, on);
    var empty := map n | n in layout.names :: [];
    NothingBuilt(left, right, on, layout, empty);
    var result, visited := ProbeLeft(left, right, on, how, layout, rightMap, empty);
    ghost var lk := KeysOf(left, on);
    ghost var probed := Probe(lk, rk, KeepsLeft(how), |lk|);
    ProbedAll(left, right, on, how, layout, result, visited);
    if how == "right" || how == "outer" {
      result := PadRight(left, right, on, layout, visited, result, probed);
      assert Emitted(lk, rk, how) == probed + Padded(Unmatched(lk, rk, |rk|));
    } else {
      assert Emitted(lk, rk, how) == probed;
    }
    JoinedFromDict(left, right, on, how, result);
    r := FromDict(layout.names, result);
  }

  /** `{col: [] for col in new_columns}` holds the cells of no rows. */
  lemma NothingBuilt(left: Table, right: Table, on: seq<Name>, layout: Layout, empty: map<Name, seq<Value>>)
    requires Ready(left, right, on, layout)
    requires empty == map n | n in layout.names :: []
    ensures Built(left, right, on, layout, empty, [])
  {
  }

  /** The columns built for every emitted row make up the joined table. */
  lemma JoinedFromDict(left: Table, right: Table, on: seq<Name>, how: string, result: map<Name, seq<Value>>)
    requires left.Valid() && right.Valid()
    requires forall c :: c in on ==> c in left.data && c in right.data
    requires Ready(left, right, on, LayoutOf(left.columns, right.columns, on))
    requires Built(left, right, on, LayoutOf(left.columns, right.columns, on), result,
                   Emitted(KeysOf(left, on), KeysOf(right, on), how))
    ensures Schema(LayoutOf(left.columns, right.columns, on).names, result)
    ensures FromDict(LayoutOf(left.columns, right.columns, on).names, result) == Ok(Joined(left, right, on, how))
  {
    var layout := LayoutOf(left.columns, right.columns, on);
    var rows := Emitted(KeysOf(left, on), KeysOf(right, on), how);
    var data := map n | n in layout.names :: Column(left, right, on, layout, n, rows);
    assert result == data;
  }
}
