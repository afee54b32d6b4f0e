# lesserpandas core, modelled in Dafny

This project models the core of *lesserpandas*, a small in-memory columnar
table engine written in Python:

- the `DataFrame` table (`src/core.py`);
- the named column `Series` and its string accessor (`src/series.py`);
- the positional and label indexers `iloc` and `loc` (`src/indexing.py`);
- the hash join `merge` (`src/merge.py`);
- grouped aggregation `GroupBy` with `sum`, `mean` and `count` (`src/groupby.py`);
- vertical stacking `concat` (`src/concat.py`).

A cell is a dynamically typed `Value`: `Null`, `Int`, `Float`, `Str` or `Bool`.
A table value is `Table(columns, data, length, index)`:

- `columns` is the key order of the column dict.
- `data` is the dict from column name to column list.
- `length` is `_length`.
- `index` holds the row labels that the indexers read.

`Valid()` says that every column and the index have `length` entries. This is
the invariant that construction and `__setitem__` keep.

## Structure

- Modules follow the source files:
  - `Frames`, `FrameOps` and `Tables` for `core.py`;
  - `SeriesOps` for `series.py`;
  - `Indexing` for `indexing.py`;
  - `Merge` for `merge.py`;
  - `Grouping` for `groupby.py`;
  - `Concatenation` for `concat.py`.
- Shared modules:
  - `Values` holds the value type, the error kinds and the natural order.
  - `Sequences` holds Python list indexing, slicing, gathering and masking.
  - `Counting` holds first-seen order and occurrence counts.
  - `StableSort` holds Python's stable sort of row positions.
  - `Buckets` holds the key-tuple to row-list dict that both the join and the group-by build.
- Python exceptions are `Result` values with an `Error` kind: `KeyError`, `ValueError`, `TypeError`, `IndexError` or `AttributeError`.

How each kind of source code is modelled:

- Code that fills lists or dicts in loops is a `method` proved equal to a pure function that specifies it. This covers:
  - the constructors;
  - `to_dict` and `dropna`;
  - the Series loops;
  - the `loc` label search;
  - the join's layout, probe and padding loops;
  - the group-by's grouping and aggregation loops;
  - both `concat` loops.
- The properties the source promises are proved about those functions as lemmas.
- The mutable `DataFrame` object is a `class`: `New` is the constructor, and `SetItem` is `__setitem__` in place.
- Comprehension code is a `function`. This covers the `__getitem__` selections, `fillna`, the `iloc` branches and `isin`.

## Model

| member | source | states |
|---|---|---|
| Tables.Range | src/series.py:8-9 | the default index `list(range(n))` has n entries and entry i is i |
| Tables.Rows | src/core.py:53-58 | `shape[0]` is `_length` for a table with columns and 0 for a table without any |
| Tables.FromDict | src/core.py:12-22 | a dict of lists is accepted exactly when all lists have one length (any dict without columns is accepted), otherwise ValueError; the table keeps the columns and lists, `_length` is the common length (0 without columns), and the index is the default one |
| Tables.Assemble | src/core.py:15-22 | a dict whose lists all have length n builds a valid table of n rows (0 without columns) with the default index, and the constructor accepts it |
| Frames.Filled | src/core.py:39-41 | after n records, column k holds `row.get(k, None)` of each of those records |
| Frames.FromRecords | src/core.py:24-43 | a list of records gives one row per record: no rows for an empty list, the key union as columns, each cell `row.get(k)` with None for a missing key; a non-dict element raises AttributeError once a key is looked up in it |
| Frames.Assign | src/core.py:95-132 | `df[key] = value` on a table value: ValueError exactly when a list or Series length differs from the target length; a columnless empty table takes its length from the value (1 for a scalar); a scalar is broadcast; a new name is appended and an existing one keeps its place; every other column is unchanged |
| Frames.CopyLists | src/core.py:15-20 | the dict loop checks lengths (ValueError iff two caller lists differ) and copies each caller list's contents |
| Frames.FillRecords | src/core.py:36-43 | the fill loops give exactly the columns `FromRecords` describes, and fail exactly when it does |
| Frames.AppendRow | src/core.py:40-41 | appending `row.get(k, None)` for every key extends every column by the cell of row i |
| Frames.DataFrame.Snapshot | src/core.py:4-7 | the object's fields form a valid table value |
| Frames.DataFrame.New | src/core.py:5-46 | no data gives an empty table; a dict of lists gives its lists (copied) with the common length or ValueError; a list of records gives the `FromRecords` table or its error; anything else is TypeError |
| Frames.DataFrame.SetItem | src/core.py:95-132 | `__setitem__` in place: the object's table becomes exactly the `Assign` result and stays valid; on ValueError nothing changes |
| Frames.AssignKeepsColumnsAligned | src/core.py:95-132 | after an assignment every column still has `_length` entries, and the schema grows by at most the one new name |
| Frames.AssignIdempotent | src/core.py:95-132 | assigning the same value to the same column twice equals assigning it once |
| FrameOps.Columns | src/core.py:48-51 | `columns` lists each column once, and exactly the columns the table holds |
| FrameOps.ShapeOfTable | src/core.py:53-58 | `shape` is (0, 0) for an empty column dict, else (`_length`, number of columns) |
| FrameOps.Requested | src/core.py:73 | the requested string names that exist, in request order: every one is requested and exists, and every requested existing name is among them |
| FrameOps.Sub | src/core.py:73-75 | building a table from columns of the table's length keeps them, with the default index |
| FrameOps.Select | src/core.py:64-93 | a missing column name is KeyError; an existing one gives the column as a Series named after it; a list goes to the list branches; a Series key is read as its values (see Findings); any other key is TypeError |
| FrameOps.SelectList | src/core.py:72-93 | a name list keeps the existing requested names in first-request order and drops the others; a mask of the wrong length is ValueError, otherwise every column keeps exactly the truthy rows in order; an empty list gives an empty table; other lists are TypeError |
| FrameOps.SelectNames | src/core.py:72-75 | the kept names are the requested ones that exist, once each, in first-request order, with their full columns |
| FrameOps.SelectMask | src/core.py:78-86 | every column is filtered by the mask, with the row count being the number of truthy entries |
| FrameOps.SelectAsWritten | src/core.py:64-93 | as written, a Series key falls to the final branch and raises TypeError; every other key behaves like `Select` |
| FrameOps.SelectKeepsRequestOrder | src/core.py:73 | selected columns appear in the order of their first request |
| FrameOps.SelectByComparison | src/core.py:78-86 | `df[df[c] > v]`, with the Series read as a mask, keeps exactly the rows whose cell in c is not null and compares true, in order; as written it raises TypeError |
| FrameOps.Where | src/core.py:158-159 | the null (or non-null) positions of a column, ascending, and no others |
| FrameOps.WherePartitions | src/core.py:158-159 | the non-null and the null positions together are every row position exactly once |
| FrameOps.DirectionIsStrictTotalOrder | src/core.py:161 | the comparison used for either direction is a strict total order, so the sort result is unique |
| FrameOps.SortOrderIsPermutation | src/core.py:158-165 | the row order `sort_values` computes is a permutation of the row positions |
| FrameOps.SortValues | src/core.py:134-167 | unknown column is KeyError, otherwise a valid table with the same columns and row count |
| FrameOps.SortValuesPermutes | src/core.py:158-167 | the sorted table is the rows in a permutation of their positions, each row carried whole with its label |
| FrameOps.SortedValid | src/core.py:159-161 | the sorted non-null positions have non-null cells and are ordered by (cell, position) |
| FrameOps.SortOrderLayout | src/core.py:165 | the order is the sorted non-null positions followed by the null positions |
| FrameOps.SortOrderOrdersCells | src/core.py:158-165 | non-null cells come first, ordered ascending (descending when asked), ties in original order; null cells follow in original order in either direction |
| FrameOps.SortValuesOrdersRows | src/core.py:134-167 | in the sorted table the non-null rows come first, ordered by the sort column in the requested direction and stably; the null rows follow in original order |
| FrameOps.SortValuesAsWrittenFails | src/core.py:167 | as written, taking the rows through the source's `iloc` raises AttributeError for a non-empty table and TypeError for an empty one |
| FrameOps.Records | src/core.py:169-179 | one record per row up to `shape[0]`, each mapping every column to its cell |
| FrameOps.ToDict | src/core.py:169-179 | an orient other than "records" is ValueError; the loops build exactly the records |
| FrameOps.AsRecords | src/core.py:24-33 | rows become dict records one to one |
| FrameOps.ToDictRoundTrip | src/core.py:169-179 | building a table from the exported records, keys read in column order, gives back the columns and cells with the default index |
| FrameOps.FullRecords | src/core.py:24-43 | records that all carry exactly the table's columns rebuild that table |
| FrameOps.ToDictDropsColumnsWithoutRows | src/core.py:26-27 | a table without rows exports no records, and those rebuild an empty table with no columns |
| FrameOps.FillNa | src/core.py:181-185 | same columns in the same order, null cells replaced by the value, other cells kept, default index |
| FrameOps.FillNaLeavesNoNull | src/core.py:184 | filling with a non-null value leaves no null cell |
| FrameOps.FillNaIdempotent | src/core.py:181-185 | filling twice with the same value equals filling once |
| FrameOps.CompleteMask | src/core.py:190-197 | one flag per row up to `shape[0]`, truthy exactly when the row has no null |
| FrameOps.HasNull | src/core.py:191-195 | the early-exit column scan reports a null exactly when the row is not complete |
| FrameOps.CompleteRows | src/core.py:189-197 | the row loop keeps exactly the complete rows, in order |
| FrameOps.DropNa | src/core.py:187-203 | same columns; exactly the complete rows, in order; zero rows with the same columns when none survive |
| FrameOps.DropNaKeepsExactlyCompleteRows | src/core.py:187-203 | a row is kept iff it has no null, and no kept cell is null |
| FrameOps.DropNaAsWrittenFails | src/core.py:203 | as written, a table with a complete row raises AttributeError in the source's `iloc` |
| SeriesOps.NewSeries | src/series.py:2-13 | a non-list is TypeError; an index of another length is ValueError; otherwise the data is kept with the given index or `0..n-1` |
| SeriesOps.GetItem | src/series.py:18-34 | a slice cuts data and index alike; a mask of the wrong length is ValueError, otherwise data and index keep the truthy positions; an int (a bool as 1 or 0) reads one element, negative from the end, IndexError out of range; other keys are TypeError |
| SeriesOps.MaskKeepsLabels | src/series.py:26-31 | masking keeps each kept value together with its own label |
| SeriesOps.Compared | src/series.py:43-65 | a Series operand of another length is ValueError; otherwise same length, index and name, and element i is true iff the left element is not null and the operator answers true (False where it raises) |
| SeriesOps.Compare | src/series.py:43-65 | the comparison loop builds exactly `Compared` |
| SeriesOps.EqualityMask | src/series.py:106-107 | `s == v` is true exactly at the positions holding v, and never at a null |
| SeriesOps.Combined | src/series.py:67-92 | a Series operand of another length is ValueError; otherwise same length, index and name, element i null when an operand is null or the operator raises, else the operator's result |
| SeriesOps.Arithmetic | src/series.py:67-92 | the arithmetic loop builds exactly `Combined` |
| SeriesOps.TrueDivide | src/series.py:86-104 | division fails exactly for a non-number or a zero divisor, and otherwise is the quotient; a bool divides as 1 or 0 |
| SeriesOps.TrueDivideReadsBoolAsInt | src/series.py:86-104 | `True / 2` is 0.5 and dividing by `False` is a division by zero |
| SeriesOps.DivisionByZeroIsContained | src/series.py:86-90 | dividing by a zero element gives null at that position and the call still succeeds |
| SeriesOps.IsIn | src/series.py:124-129 | element i is True iff it is among the values (a null only when null is among them), with the default index |
| SeriesOps.Applied | src/series.py:131-140 | element i is `f(s[i])`, or null where that call raises; default index |
| SeriesOps.Apply | src/series.py:131-140 | the `apply` loop builds exactly `Applied` |
| SeriesOps.Cast | src/series.py:142-159 | ValueError for the whole call iff some non-null element fails to convert; otherwise nulls stay null, others are converted, index and name kept |
| SeriesOps.AsType | src/series.py:142-159 | the `astype` loop, which stops at the first failure, builds exactly `Cast` |
| SeriesOps.StrMapped | src/series.py:188-211 | `lower`/`upper`/`replace`: null for null or non-text elements and where the operation raises, the operation's result otherwise; default index |
| SeriesOps.StrOp | src/series.py:188-202 | the `_str_op` loop builds exactly `StrMapped` |
| SeriesOps.Contained | src/series.py:213-223 | null iff the element is null; True iff the element is text containing the pattern; False otherwise; default index |
| SeriesOps.Contains | src/series.py:213-223 | the `contains` loop builds exactly `Contained` |
| SeriesOps.EmptyPatternAlwaysContained | src/series.py:222 | the empty pattern is contained in every text element |
| SeriesOps.Tally | src/series.py:163-168 | one count per distinct value |
| SeriesOps.CountOrderIsPermutation | src/series.py:171 | the count order visits every distinct value exactly once |
| SeriesOps.ValueCounted | src/series.py:161-178 | one entry per distinct value, name kept |
| SeriesOps.CountValues | src/series.py:163-168 | the counting loop yields the distinct values in first-seen order and their counts |
| SeriesOps.MembersOfUniques | src/series.py:165 | a value is a dict key exactly when it was seen |
| SeriesOps.CountsSnoc | src/series.py:164-168 | each step of the counting loop keeps every counter equal to the occurrences so far |
| SeriesOps.ValueCounts | src/series.py:161-178 | `value_counts` builds exactly `ValueCounted` |
| SeriesOps.MoreFrequentIsStrictTotalOrder | src/series.py:171 | the count comparison is a strict order, so the stable sort is determined |
| SeriesOps.ValueCountedLayout | src/series.py:171-176 | the index lists the distinct values in stable descending-count order, and the data their counts |
| SeriesOps.ValueCountsIndexDistinct | src/series.py:175 | each distinct value appears once in the index |
| SeriesOps.ValueCountsCoversValues | src/series.py:175 | every value of the Series appears in the index |
| SeriesOps.ValueCountsEntryIsCount | src/series.py:164-176 | the entry of each value is its number of occurrences |
| SeriesOps.ValueCountsSumToLength | src/series.py:161-178 | the counts add up to the length of the Series |
| SeriesOps.ValueCountsDescendingAndStable | src/series.py:171 | counts never increase along the result, and equal counts keep first-seen order |
| Sequences.PyIndex | src/indexing.py:10-16 | a position in range, negative counted from the end, or none where Python raises IndexError |
| Sequences.Gather | src/indexing.py:35 | `[s[i] for i in idx]` has one element per position, in order |
| Sequences.TruePositions | src/indexing.py:104 | the truthy positions of a mask, ascending, and no others |
| Sequences.Filter | src/series.py:29 | `[v for v, keep in zip(values, mask) if keep]` keeps exactly the values at the truthy positions, in order |
| Sequences.Adjust | src/indexing.py:25 | Python's clamping of a slice bound to the list, for either step direction |
| Sequences.Walk | src/indexing.py:25 | the positions of a slice walk, all in range and evenly spaced by the step |
| Sequences.SlicePositions | src/indexing.py:25 | a slice selects positions in range; a bool part is read as 1 or 0; ValueError exactly for a zero step and TypeError exactly for a part that is neither an int nor None |
| Sequences.UnitSliceIsSubsequence | src/series.py:21-22 | with the default step, a Python slice is the contiguous run between the clamped bounds |
| Sequences.WalkLength | src/indexing.py:25 | a forward unit walk has `stop - start` positions (0 when empty) |
| Sequences.WalkDownLength | src/indexing.py:25 | a backward unit walk has `start - stop` positions (0 when empty) |
| Indexing.RowAt | src/indexing.py:17-18 | row i maps every column, and only the columns, to its cell |
| Indexing.Take | src/indexing.py:32-39 | the selected rows, in order, in every column and in the index |
| Indexing.ILocInt | src/indexing.py:7-19 | a negative int is offset by the row count; IndexError outside; otherwise the row at that position |
| Indexing.ILocSlice | src/indexing.py:22-29 | the same Python slice cut from every column and from the index |
| Indexing.ILocUnitSliceIsContiguous | src/indexing.py:22-29 | `iloc[a:b]` keeps the contiguous run of rows between the clamped bounds |
| Indexing.Resolve | src/indexing.py:32-39 | each entry of a position list resolved to its row |
| Indexing.ILocList | src/indexing.py:32-39 | TypeError unless all entries are ints (bools included, as 1 or 0); IndexError when one addresses no row; otherwise row k is the row entry k addresses, in every column and the index |
| Indexing.ILoc | src/indexing.py:5-42 | dispatch on an int, a slice or an int list, where `isinstance(x, int)` admits bools; any other argument is TypeError |
| Indexing.ILocReadsBoolAsInt | src/indexing.py:5-39 | `iloc[True]` is `iloc[1]`, and a list of bools addresses positions 1 and 0 |
| Indexing.ILocAsWrittenOnlyRows | src/indexing.py:22-39 | as written only `iloc[int]` can succeed: every slice and list selection raises, even where the corrected indexer returns rows |
| Indexing.Matches | src/indexing.py:61 | the positions carrying the label, ascending, and no others |
| Indexing.LocLabel | src/indexing.py:51-74 | a bool is not a label (TypeError); KeyError when no row has the label; the row when exactly one does; the sub-table of all of them, taken by the corrected `iloc`, when several do |
| Indexing.LocLabelFansOut | src/indexing.py:69-70 | a duplicated label selects exactly its rows: each carries the label and there are as many as its occurrences |
| Indexing.MatchesCount | src/indexing.py:61 | the number of matches is the label's number of occurrences |
| Indexing.FirstPositions | src/indexing.py:77-92 | KeyError iff some label is absent; otherwise the first position of each label, in request order |
| Indexing.LookupLabels | src/indexing.py:78-90 | the nested search loop with its `found` flag computes exactly `FirstPositions` |
| Indexing.LocLabels | src/indexing.py:77-92 | a label list gives the first row of each label in request order, KeyError when one is absent |
| Indexing.LocMask | src/indexing.py:95-105 | ValueError on a length mismatch; otherwise the truthy rows, in order |
| Indexing.Locate | src/indexing.py:117-129 | a slice endpoint resolves to its first position, KeyError when absent |
| Indexing.LocSlice | src/indexing.py:108-134 | missing endpoints are KeyError; otherwise `iloc[first(a) : first(b) + 1 : step]` as written |
| Indexing.LocSliceIncludesStop | src/indexing.py:123-134 | forward label slicing keeps the rows from the first `a` through the first `b`, both included |
| Indexing.LocSliceBackwardsDropsStop | src/indexing.py:123-134 | as written, `loc[a:b:-1]` never selects the row labelled `b` |
| Indexing.InclusiveStop | src/indexing.py:123-127 | the corrected stop: one past `b` forwards, one before `b` backwards, none when a backwards walk ends at the first row |
| Indexing.LocSliceInclusive | src/indexing.py:108-134 | missing labels are KeyError; otherwise `iloc[first(a) : InclusiveStop(first(b)) : step]`, with the source's defaults 0 and the row count for a missing endpoint |
| Indexing.LocSliceInclusiveBackwards | src/indexing.py:123-134 | the corrected backwards slice keeps every row from the first `a` down to the first `b`, both included |
| Indexing.LocSliceInclusiveAgrees | src/indexing.py:108-134 | with a non-negative or default step, or without a stop label, the corrected slice equals the slice as written |
| Indexing.Loc | src/indexing.py:49-137 | dispatch on a label, a label list, a mask or a label slice |
| Counting.Iota | src/core.py:139 | `list(range(n))`: n distinct positions, entry i is i |
| Counting.Uniques | src/concat.py:8-14 | the distinct elements in first-seen order: no repeats, every element present, nothing else |
| Counting.FirstIndex | src/indexing.py:119 | `xs.index(x)`: the first position holding x |
| Counting.UniquesInFirstSeenOrder | src/series.py:164-168 | dict insertion order is first-occurrence order |
| Counting.CountsSumToLength | src/series.py:163-168 | the occurrence counts of the distinct values add up to the length |
| Counting.SumAtPermutation | src/series.py:171-176 | a sum over positions does not depend on their order |
| Counting.PermutationOfIota | src/core.py:165 | a permutation of the positions has each position exactly once |
| Counting.UniquesOfDistinct | src/concat.py:8-14 | without repeats, first-seen order is the sequence itself |
| Counting.UniquesSnoc | src/concat.py:12-14 | appending a value extends the first-seen list exactly when the value is new |
| StableSort.SortPermutes | src/core.py:161 | sorting only reorders: the result is a permutation of the input |
| StableSort.BeforeIsStrictTotal | src/core.py:161 | with a strict total order on keys, (key, position) order is strict and total |
| StableSort.SortSorted | src/core.py:161 | the stable sort orders positions by (key, position) |
| StableSort.SortedMeansStable | src/core.py:161 | keys never decrease along the result, and equal keys keep their original order |
| Values.LtIsStrictTotalOrder | src/groupby.py:58-61 | the natural value order, null last, is a strict total order |
| Values.GtIsStrictTotalOrder | src/core.py:161 | the reversed order used for `ascending=False` is a strict total order |
| Buckets.KeyOf | src/merge.py:29 | the key tuple of a row: its cells in the key columns, in key order |
| Buckets.KeysOf | src/groupby.py:27-29 | one key tuple per row up to `shape[0]` |
| Buckets.BucketSound | src/merge.py:28-32 | a bucket lists rows in range, ascending, each carrying the key |
| Buckets.BucketEmpty | src/merge.py:84-86 | a bucket is empty exactly when no row has the key |
| Buckets.BucketHas | src/merge.py:28-32 | a row is in the bucket of a key iff it carries that key |
| Buckets.Group | src/merge.py:23-32 | the bucketing loop builds exactly the dict `Buckets` describes, with keys in first-seen order |
| Buckets.BucketsContents | src/merge.py:23-32 | the dict holds exactly the keys seen, each with the ascending list of rows that carry it |
| Buckets.BucketsPartition | src/groupby.py:27-33 | every row lies in the bucket of its own key and in no other |
| Buckets.BucketSize | src/groupby.py:31-33 | a bucket holds as many rows as the key occurs |
| Merge.FoldIsDict | src/merge.py:38-56 | the output names are the entry names in first-seen order, once each |
| Merge.FoldCovers | src/merge.py:41-56 | every entry's name is an output column |
| Merge.FoldOrigins | src/merge.py:41-56 | every output name maps to the origin of some entry carrying it |
| Merge.FoldLastWins | src/merge.py:41-56 | every output name maps to the origin of the last entry carrying it |
| Merge.LayoutWithoutClashes | src/merge.py:36-56 | without suffix collisions the output columns are the left entries then the right entries, each with its own origin |
| Merge.RightEntriesFrom | src/merge.py:50-56 | right entries name right non-key columns, suffixed `_y` exactly when the left also has the column |
| Merge.Suffixes | src/merge.py:36-56 | a shared non-key column becomes `c_x` (left values) and `c_y` (right values); a key column keeps its name and takes the left values |
| Merge.BuildLayout | src/merge.py:38-56 | the two column loops build exactly the layout |
| Merge.AddLeftColumns | src/merge.py:41-47 | the left column loop adds the left entries |
| Merge.AddRightColumns | src/merge.py:50-56 | the right column loop adds the right entries, skipping keys |
| Merge.ProbeRowShape | src/merge.py:82-104 | the rows of one left row all carry it; its pairs are in ascending right-row order with equal keys |
| Merge.RowHasPair | src/merge.py:96-104 | left row l is paired with right row r exactly when their keys are equal |
| Merge.RowHasLeft | src/merge.py:86-95 | left row l is emitted alone exactly when no right row has its key and the join keeps such rows |
| Merge.ProbeHasPair | src/merge.py:82-104 | after n left rows, the pair (l, r) has been emitted iff l < n and the keys are equal |
| Merge.ProbeHasLeft | src/merge.py:82-95 | after n left rows, l alone has been emitted iff the join keeps such rows, l < n and l has no match |
| Merge.ProbeOrder | src/merge.py:82-104 | probe rows are ordered by left row, then by right row |
| Merge.UnmatchedFacts | src/merge.py:107-110 | the unmatched right rows are exactly those whose key no left row has, ascending |
| Merge.MergeRows | src/merge.py:82-132 | for every join kind: a pair is emitted iff the keys are equal; a left row alone iff unmatched and the join keeps left rows; a right row alone iff unmatched and the join keeps right rows |
| Merge.MergeOrder | src/merge.py:82-132 | probe rows in (left, right) order, then the padded right rows, ascending |
| Merge.EmittedFits | src/merge.py:82-132 | every emitted row names existing rows |
| Merge.InnerJoinPairsOnly | src/merge.py:86-88 | an inner join emits matched pairs only |
| Merge.ProbeLength | src/merge.py:82-104 | the probe emits, per left row, one row per right row with its key, or one padded row when it has none and the join keeps it |
| Merge.ProbeRowLength | src/merge.py:84-104 | one left row contributes as many rows as right rows share its key, else 1 or 0 by join kind |
| Merge.MergeCardinality | src/merge.py:82-132 | the row count is the probe count plus, for right and outer joins, the number of right rows whose key no left row has |
| Merge.UnmatchedSize | src/merge.py:109-110 | the unmatched right rows are as many as the right rows whose key no left row has |
| Merge.InnerJoinOneToOne | src/merge.py:82-104 | when every left key matches exactly one right row, an inner join keeps the left row count |
| Merge.LayoutReady | src/merge.py:36-59 | the layout names columns that exist in their source table |
| Merge.JoinedColumn | src/merge.py:59-134 | each output column holds one cell per emitted row, in output order |
| Merge.EmittedPairMatches | src/merge.py:96-104 | an emitted pair joins rows with equal keys |
| Merge.KeyColumnsHoldKey | src/merge.py:112-129 | key columns hold each row's key: the left key for matched or left-padded rows, the right key (back-filled) for right-padded rows |
| Merge.KeyCell | src/merge.py:100-129 | a key column's cell equals the key of the row it comes from |
| Merge.PaddingIsNone | src/merge.py:91-132 | a left-padded row is None in every right-origin column; a right-padded row is None in every non-key left-origin column |
| Merge.ColumnSnoc | src/merge.py:91-104 | appending a row appends its cell to every column |
| Merge.EmitRow | src/merge.py:91-104 | the per-row column loop appends the row's cell to every output column |
| Merge.CellOf | src/merge.py:91-132 | the cell a column gets for a row, branching on its source side and on key columns |
| Merge.EmitMatches | src/merge.py:98-104 | one left row's matches are marked visited and paired with it, in bucket order |
| Merge.VisitedStep | src/merge.py:99 | the visited set holds exactly the right rows some earlier left row matched |
| Merge.ProbeLeft | src/merge.py:82-104 | the probe loop emits exactly the probe rows and records the matched right rows |
| Merge.ProbeOne | src/merge.py:83-104 | one left row's lookup: its matches, or the padded row when it has none and the join keeps such rows |
| Merge.MatchesOf | src/merge.py:84 | `right_map.get(key, [])` is the bucket of the key |
| Merge.PadRight | src/merge.py:107-132 | the unmatched right rows, ascending, each padded on the left |
| Merge.Merge | src/merge.py:3-134 | the argument checks in source order (TypeError for `on`, KeyError for a missing key column, ValueError for `how`), then the join |
| Merge.KeysPresent | src/merge.py:12-16 | the key check passes exactly when every key column is in both tables |
| Merge.Join | src/merge.py:21-134 | steps 1 to 4 build exactly the joined table |
| Merge.JoinedFromDict | src/merge.py:134 | the columns built for every emitted row make up the joined table, and the constructor accepts them |
| Grouping.Grouped | src/groupby.py:4-33 | `by` not a name or list is TypeError; KeyError iff a key column is missing; otherwise the rows bucketed by key tuple, keys in first-seen order |
| Grouping.NewGroupBy | src/groupby.py:4-33 | the constructor's loops build exactly `Grouped` |
| Grouping.FormedIsShaped | src/groupby.py:21-33 | a built GroupBy lists each of its keys once and only names rows in range |
| Grouping.GroupsPartitionRows | src/groupby.py:27-33 | every row lies in the group of its own key tuple and in no other |
| Grouping.GroupContents | src/groupby.py:21-33 | a key is a group iff some row carries it; its group lists exactly those rows, ascending, never empty, as many as the key occurs |
| Grouping.OrderListsGroups | src/groupby.py:31-32 | the insertion order lists the dict's keys, each once |
| Grouping.SafeLtIsLt | src/groupby.py:58-59 | the per-position safe key `(x is None, x)` orders like the value order with null last |
| Grouping.KeyLtIsStrictTotalOrder | src/groupby.py:58-61 | `safe_key` orders key tuples strictly and totally, so the group order depends on the keys alone |
| Grouping.GroupOrderIsPermutation | src/groupby.py:61 | sorting the group keys visits each group exactly once |
| Grouping.SortedKeys | src/groupby.py:61 | one sorted key per group, each a group |
| Grouping.SortedKeysOrdered | src/groupby.py:61-63 | the sorted keys are exactly the groups, each once, strictly increasing under `safe_key` |
| Grouping.SortedKeysCover | src/groupby.py:61-63 | every group gets an output row |
| Grouping.FirstNonNull | src/groupby.py:46 | the first non-null cell, or null when there is none |
| Grouping.FindFirstNonNull | src/groupby.py:46 | the scan finds exactly `FirstNonNull` |
| Grouping.NumericAmong | src/groupby.py:41-49 | the aggregated columns are exactly the non-key columns whose first non-null value is an int, float or bool, each once |
| Grouping.SelectNumeric | src/groupby.py:41-49 | the column loop picks exactly the numeric columns |
| Grouping.PresentCount | src/groupby.py:71 | the non-null values are exactly the non-null cells, as many as them |
| Grouping.PyAdd | src/groupby.py:78 | `+` on two numbers gives their total, a float iff one side is; TypeError on anything else |
| Grouping.PySumMeaning | src/groupby.py:78 | `sum` succeeds exactly on numbers; it then gives their total, a float iff some value is |
| Grouping.ReduceMeaning | src/groupby.py:70-84 | `count` is the number of non-null values; `sum` and `mean` are null without any, the total and the total over the count otherwise, and TypeError on a non-number |
| Grouping.KeyCellsDistinct | src/groupby.py:67-68 | with distinct key columns, column `by[i]` gets exactly the key's i-th cell |
| Grouping.GroupsHaveWidth | src/groupby.py:29 | every group key has one cell per key column |
| Grouping.KeyColumnDistinct | src/groupby.py:63-68 | row j of key column `by[i]` is the i-th cell of the j-th key |
| Grouping.ReducedColumn | src/groupby.py:70-84 | an aggregated column has one cell per group |
| Grouping.OutputSchema | src/groupby.py:38-49 | the output columns are the key columns once each, then the distinct numeric non-key columns |
| Grouping.AggregateLoop | src/groupby.py:35-86 | the aggregation loops build exactly `Aggregate` |
| Grouping.FillRows | src/groupby.py:63-84 | the loop over sorted groups fails iff a reducer raises, and otherwise fills every column |
| Grouping.AddGroup | src/groupby.py:64-84 | one group's row: its key cells, then its aggregated cells |
| Grouping.AppendKey | src/groupby.py:67-68 | the key loop appends the key's cells to the key columns and changes nothing else |
| Grouping.AppendAggregates | src/groupby.py:70-84 | the numeric-column loop stops at a reducer that raises, otherwise appends the group's cell to every aggregated column |
| Grouping.DataUniform | src/groupby.py:63-86 | with distinct key columns every output column has one cell per group |
| Grouping.FailsSomewhere | src/groupby.py:63-84 | the loop raises exactly when a reducer raises for some group and numeric column |
| Grouping.AggregateOutcome | src/groupby.py:35-86 | TypeError iff a reducer raises for some group and column; otherwise a valid table with the key columns then the numeric columns, one row per group |
| Grouping.AggregateTable | src/groupby.py:63-86 | a successful aggregation's columns are `result_data` after every group |
| Grouping.AggregateKeyCells | src/groupby.py:63-68 | row j's key columns carry the key of the j-th group in `safe_key` order |
| Grouping.AggregateReducedCell | src/groupby.py:70-84 | row j's aggregated cells are the reducer over the non-null cells of the j-th group |
| Grouping.CountCells | src/groupby.py:71-74 | `count` never raises and gives the number of the group's non-null cells, possibly 0 |
| Grouping.AllNullGroupGivesNull | src/groupby.py:75-76 | `sum` and `mean` are null for a group whose cells are all null |
| Grouping.SumFailsOnText | src/groupby.py:75-80 | `sum` and `mean` raise TypeError exactly when a non-null cell of the group is not a number |
| Grouping.SumAndMeanValues | src/groupby.py:77-80 | `sum` is the total of the non-null cells and `mean` that total over their count |
| Grouping.GroupSizesAddUp | src/groupby.py:27-33 | the group sizes add up to the row count |
| Concatenation.ColumnListsMembers | src/concat.py:10-11 | a name occurs in the column lists iff some input has that column |
| Concatenation.Segment | src/concat.py:22-33 | one input's part of a column has `shape[0]` cells |
| Concatenation.Stacked | src/concat.py:19-33 | a stacked column has as many cells as the inputs' rows together |
| Concatenation.StackedData | src/concat.py:17-33 | every result column has the same length |
| Concatenation.Concat | src/concat.py:3-35 | ValueError iff the input list is empty |
| Concatenation.CollectColumns | src/concat.py:7-14 | the seen-set loop collects exactly the first-seen union of columns |
| Concatenation.Extend | src/concat.py:19-33 | the extend loop stacks every input into every result column |
| Concatenation.ConcatLoop | src/concat.py:3-35 | `concat` as written builds exactly `Concat` |
| Concatenation.ConcatColumns | src/concat.py:7-14 | the result's columns are the union of the inputs' columns, each once, by first occurrence |
| Concatenation.ConcatLength | src/concat.py:19-35 | the result is valid, has the inputs' rows together (when it has columns) and a default index |
| Concatenation.StackedAt | src/concat.py:19-33 | row `row` of input i lands at its offset past the earlier inputs |
| Concatenation.OffsetGrows | src/concat.py:19-33 | offsets grow with the input number, so segments follow input order |
| Concatenation.ConcatCell | src/concat.py:19-33 | row `row` of input i is result row `offset + row`: the input's cell where it has the column, null elsewhere |
| Concatenation.ConcatOne | src/concat.py:3-35 | concatenating one table keeps its columns and their contents |

## Left out

- Floating point: a `Float` is an exact real, so rounding in `/` and `mean` is not modelled.
- Python's cross-type comparisons:
  - `1 == True` and `1 == 1.0` are not modelled; values of different kinds are never equal.
  - The value order puts booleans before numbers instead of comparing them as 0 and 1.
  - Where Python uses a bool as an int, the model does too: in arithmetic, in sums and as a position or slice bound.
  - Comparing values that Python cannot order (text against numbers in `sort_values` or `safe_key`) does not raise; the order is made total instead.
- Host-language callables are parameters. These are the comparison and arithmetic operators, the `apply` function, the `astype` dtype and the string operation. Each is a partial function that returns none where the Python call raises.
- `Frames.FromRecords`, `Frames.DataFrame.New`: the column order of a list of records comes from iterating a Python set, which the language does not fix. It is a parameter (`keyOrder`) that lists the key union once.
- Aliasing:
  - `Series(data)` keeps the caller's list, and `df[name]` hands out the live column list. The model works on values, so a later write through such an alias is not modelled.
  - Only the copy that `DataFrame(dict)` makes, and the constructor's own inputs, are modelled as mutable arrays.
- Tests that contradict the code: the tests expect `apply`, `isin` and the string methods to keep the source index. The code builds a default index, and the model follows the code (`SeriesOps.Applied`, `SeriesOps.IsIn`, `SeriesOps.StrMapped`, `SeriesOps.Contained`).
- `Indexing.Loc`: `DataFrame` has no `loc` property, so `_LocIndexer` is reached only directly. It also relies on state that `DataFrame` (core.py:5-203) does not have, and the model assumes that state:
  - The index: lines 61, 84, 119 and 125 read `self._df.index`, which `DataFrame` does not define. As written each of them raises AttributeError, which the `except TypeError` at line 72 does not catch. The model reads the table's `index` field instead, `0..n-1` by default (`Tables.Range`).
  - The row count: `len(self._df)` at lines 101 and 115 raises TypeError, because `DataFrame` has no `__len__`. Line 115 runs for every slice. The model reads it as the row count.
  - So `_LocIndexer` as written never returns a result. `Loc` models the indexer against the assumed index and row count.
  - A Series key is not covered.
  - An empty label list is taken as the `IndexError` that `item[0]` raises.
- `Grouping.AggregateOutcome`: stated for distinct key columns. With a repeated key column (`by=['a', 'a']`), the model appends the key twice per group to that column. The constructor then raises ValueError, as the source does, but no lemma states this case.
- The `else: val = None` branch of `_aggregate` cannot be reached through `sum`, `mean` and `count`, so the reducer type has only those three.
- `Merge.PaddingIsNone`, `Merge.Suffixes`, `Merge.KeyColumnsHoldKey`: stated for layouts without name collisions. When a suffixed name such as `a_x` clashes with an existing column, the source's dict keeps the first position and the last origin. `Merge.FoldLastWins` and `Merge.FoldIsDict` model that behaviour, but no per-cell lemma is stated for it.
- Not modelled:
  - `src/io.py` (CSV and JSON files and type inference from text);
  - the tools;
  - `__repr__`;
  - the delegating methods `to_csv`, `to_json`, `groupby` and `merge` of `DataFrame`;
  - `Series.__iter__` and `__len__`.

## Findings

| source | as written | input that shows it | evidently intended | confidence | as-written member | corrected member |
|---|---|---|---|---|---|---|
| src/indexing.py:22-39 | `iloc` slices and lists read `self._df.index` and pass `index=` to the constructor, and `DataFrame` has neither | `df.iloc[0:1]` on any table raises AttributeError; `df.iloc[[]]` raises TypeError | the index is cut like the columns, and the rows are returned | high, not executed | Indexing.ILocAsWrittenOnlyRows | Indexing.ILoc |
| src/core.py:167 | `sort_values` takes its rows through that `iloc` | `DataFrame({'a': [2, 1]}).sort_values('a')` raises AttributeError | the rows are returned in sorted order | high, not executed | FrameOps.SortValuesAsWrittenFails | FrameOps.SortValuesOrdersRows |
| src/core.py:203 | `dropna` takes its surviving rows through that `iloc` | `DataFrame({'a': [1]}).dropna()` raises AttributeError | the complete rows are returned | high, not executed | FrameOps.DropNaAsWrittenFails | FrameOps.DropNaKeepsExactlyCompleteRows |
| src/core.py:64-93 | `df[...]` has no branch for a Series key, so it falls through to TypeError | `df[df['v'] > 2]`, as tests/test_core.py:31 does | a boolean Series is used as a row mask | high, not executed | FrameOps.SelectAsWritten | FrameOps.SelectByComparison |
| src/indexing.py:123-134 | the stop position gets `+1` whatever the step's sign | with the index the model assumes (see "## Left out", `Indexing.Loc`), `loc['c':'a':-1]` on labels `['a', 'b', 'c']` returns only the row `c` | a backwards label slice includes its stop label | medium, not executed | Indexing.LocSliceBackwardsDropsStop | Indexing.LocSliceInclusiveBackwards |
