# A verified model of the dataframe table engine

The C extension keeps a `DATAFRAME`: a row-major matrix of doubles
(`n_entries` rows by `n_labels` columns), one label string of at most
`MAX_LABEL_SIZE` (100) characters per column, and an `n_threads` count for
its OpenMP loops. Its functions do the following:
- build a table from raw data (`dataframe_initialize`) or an empty one (`dataframe_empty`);
- release a table (`dataframe_free`);
- copy one row or one column out (`dataframe_get_row`, `dataframe_get_column`);
- overwrite or append a row or a column (`dataframe_assign_row`, `dataframe_assign_column`);
- build subsamples: by a list of row indices (`dataframe_take`), by a range (`dataframe_slice`), or by a comparison on one column (`dataframe_filter`).

Two static helpers serve them: `column_index` and `integer_sum`.

The Dafny project has six modules:

- `TableSpec` (table_spec.dfy) gives the specification functions on
  sequences and the lemmas that give them meaning:
  - label lookup (`IndexOf`);
  - gathering rows (`Gather`, `Range`);
  - writing cells of a row, where the last write to a column wins (`WriteCells`, `LastWrite`);
  - reading a column (`Column`);
  - selecting the set flags (`SelectIndices`, `Sum`);
  - the filter's condition checksum and its decoding (`Checksum`, `Decode`, `Relation`).
- `DataFrame` (dataframe.dfy) holds class `Table`, whose fields are the ones the C functions
  update in place:
  - `rows: seq<Row>` is `data` together with `n_entries`;
  - `labels: seq<Label>` is `labels` together with `n_labels`;
  - `nThreads` is `n_threads`.

  `dataframe_empty` is the constructor `Table.Empty`, and `dataframe_free` is
  `Table.Free`, which only resets the table because storage is not modelled.
  Every other C function is a method with loops and invariants, proved
  against `TableSpec`.
  The loops of the two writers and of `dataframe_filter` that work on plain values are
  methods of the module.
- `StaticFlags` (static_flags.dfy) models the `static` failure flags of
  `dataframe_take` and `dataframe_filter` across a series of calls.
- `MissingStorage` (missing_storage.dfy) counts the storage a table declares
  against the storage it holds. It shows the two growth paths that declare
  storage without creating it.
- `UShortCounter` (ushort_counter.dfy) models the wrapping `unsigned short`
  counters of `dataframe_assign_column`'s row loops.
- `Wrappers` (wrappers.dfy) holds `Option`, which stands for a pointer that may be NULL.

A NULL table pointer is `null` of type `Table?`. A NULL row or column copy
is `None`. The `unsigned short` status codes of the writers are
`DataFrame.Status`; `Status.Code()` gives their C numbers, and the writers'
contracts state the code they return. A label is a `string` whose every
`char` stands for one C `char` (one byte), so its length is its `strlen`.

## Model

| member | source | states |
|---|---|---|
| DataFrame.Table.Empty | src/dataframe.src.c:78-88 | the new table has no rows, no labels and one thread, and is valid |
| DataFrame.Table.Initialize | src/dataframe.src.c:36-70 | NULL exactly when some label is longer than MAX_LABEL_SIZE; otherwise a fresh valid table with the given labels and thread count, one row per input row, each holding that row's first n_labels values |
| DataFrame.Table.Free | src/dataframe.src.c:94-117 | afterwards both counts are zero, so there are no rows and no labels; the thread count is kept |
| DataFrame.Table.ColumnIndex | src/dataframe.src.c:257-264 | -1 exactly when no label equals the name; otherwise the offset of the first label equal to it |
| DataFrame.Table.GetRow | src/dataframe.src.c:136-148 | NULL exactly when index is not below n_entries; otherwise a copy equal to that row |
| DataFrame.Table.GetColumn | src/dataframe.src.c:222-238 | NULL exactly when the label is unknown; otherwise one cell per row, each the row's cell in the label's column |
| DataFrame.Table.ResolveLabels | src/dataframe.src.c:178-186 | fails exactly when some name is not a label; otherwise gives each name's column offset |
| DataFrame.WriteRow | src/dataframe.src.c:197-199 | the row after writing values[k] into column cols[k] in order, i.e. `WriteCells` |
| DataFrame.Table.AssignRow | src/dataframe.src.c:175-203 | returns 1, 2 or 0 as follows: code 1 exactly when a name is unknown (checked first, nothing changes); code 2 exactly when the names are known and index > n_entries (nothing changes); otherwise code 0: the row at index < n_entries becomes `WriteCells` of it, and index == n_entries appends a row holding the last value written to each named column; labels and other rows unchanged; the table stays valid |
| DataFrame.SingleColumn | src/dataframe.src.c:293-297 | one single-cell row per value, holding that value |
| DataFrame.WidenRows | src/dataframe.src.c:312-315 | every row grows by exactly one cell and keeps its old cells |
| DataFrame.WriteColumn | src/dataframe.src.c:321-323 | row i holds values[i] in the given column and is otherwise unchanged |
| DataFrame.Table.AssignColumn | src/dataframe.src.c:287-350 | returns 1 exactly on a length mismatch with a non-empty table and 0 otherwise; on the empty table: code 0, one column holding the values; on a non-empty table whose row count differs from the number of values: code 1 and nothing changes; otherwise code 0, and an existing label's column is overwritten or a new label is appended as the last column. After success the label's column reads back as the values, every other old column is unchanged, distinct labels stay distinct, and the table stays valid |
| DataFrame.Table.Take | src/dataframe.src.c:370-393 | NULL exactly when some index is not below n_entries; otherwise a fresh valid table with the same labels and thread count whose rows are the selected rows in list order (duplicates kept) |
| DataFrame.Table.Slice | src/dataframe.src.c:414-441 | for start < stop: NULL exactly when stop > n_entries, otherwise rows start..stop-1; for start == stop: NULL exactly when start >= n_entries, otherwise the single row start |
| DataFrame.Table.EvaluateCondition | src/dataframe.src.c:478-515 | one 0/1 flag per row; for a checksum 120..124, flag 1 exactly when the row's cell satisfies the decoded relation; the condition is invalid exactly when the table has rows and the checksum decodes to nothing |
| DataFrame.IntegerSum | src/dataframe.src.c:552-559 | the sum of the inputs |
| DataFrame.AcceptedIndices | src/dataframe.src.c:523-527 | the ascending positions of the set flags |
| DataFrame.Table.Filter | src/dataframe.src.c:467-534 | NULL exactly when the label is unknown, or when the table has rows and the condition is none of the five; otherwise a fresh valid table with the same labels whose rows are the rows satisfying `cell rel value` in ascending order, as many as the flags add up to (no rows for an empty table) |
| TableSpec.IndexOf | src/dataframe.src.c:257-264 | -1 exactly when the name is absent; otherwise the offset of its first occurrence |
| TableSpec.IndexOfDistinct | src/dataframe.src.c:257-264 | with distinct labels, each label is found at its own offset |
| TableSpec.ResolveColumns | src/dataframe.src.c:178-186 | each name's offset, each below n_labels |
| TableSpec.WriteCells | src/dataframe.src.c:197-199 | writing cells keeps the row length |
| TableSpec.LastWrite | src/dataframe.src.c:197-199 | -1 exactly when no write targets the column; otherwise the position of the last write to it |
| TableSpec.WriteCellsAt | src/dataframe.src.c:197-199 | each cell keeps its value if no name targets its column, and otherwise holds the value of the last write to it |
| TableSpec.WriteOwnValues | src/dataframe.src.c:197-199 | writing every column its own current value leaves the row unchanged |
| TableSpec.RowRoundTrip | src/dataframe.src.c:136-203 | a row copied by `dataframe_get_row` and assigned back under the table's own distinct labels is unchanged |
| TableSpec.GatherRange | src/dataframe.src.c:419-424 | gathering start, ..., stop-1 is the contiguous slice of rows |
| TableSpec.GatherRectangular | src/dataframe.src.c:388-389 | gathered rows keep the table's width |
| TableSpec.OverwriteColumnReads | src/dataframe.src.c:321-323 | after overwriting a column, it reads back as the new values and every other column is unchanged |
| TableSpec.AppendColumnReads | src/dataframe.src.c:302-323 | after appending a column, the table is one wider, the new column reads back as the values and every earlier column is unchanged |
| TableSpec.SelectIndices | src/dataframe.src.c:525-527 | exactly the positions of set flags, strictly increasing |
| TableSpec.SelectedCount | src/dataframe.src.c:522-527 | for 0/1 flags, as many positions are selected as the flags add up to (n_pass) |
| TableSpec.DocumentedConditions | src/dataframe.src.c:478-508 | "<<", "<=", "==", ">=", ">>" select less, less-or-equal, equal, greater-or-equal, greater |
| TableSpec.ConditionIsASum | src/dataframe.src.c:478-480 | only the sum of the two characters counts: swapping them never changes the condition, and "<>" means equal |
| TableSpec.MatchingSpec | src/dataframe.src.c:485-527 | the filter selects a row exactly when its cell satisfies the relation, in strictly ascending order, and selects as many rows as the flags add up to |
| TableSpec.RelationsPartition | src/dataframe.src.c:489-507 | every row passes exactly one of "<<", "==", ">>"; "<=" passes the union of "<<" and "=="; ">=" passes the union of ">>" and "==" |
| StaticFlags.Sticky | src/dataframe.src.c:373-386 | a call of the series returns NULL exactly when that call or an earlier one failed, or the flag was already set |
| StaticFlags.StickyTakeCounterexample | src/dataframe.src.c:373-386 | on a one-row table, take([5]) then take([0]) yields NULL twice, though only the first call fails on its own |
| StaticFlags.StickyFilterCounterexample | src/dataframe.src.c:470-520 | on a one-row table, a filter with checksum 0 and then one with "<<" (120) yields NULL twice, though only the first call fails on its own |
| MissingStorage.AssignColumnIntoEmptyLosesLabel | src/dataframe.src.c:290-298 | assigning a column into the empty table declares one label but stores none, for any length |
| UShortCounter.Increment | src/dataframe.src.c:312-321 | `i++` on an `unsigned short` gives i + 1 modulo 65536 |
| UShortCounter.CounterAfter | src/dataframe.src.c:312-321 | the loop counter never exceeds 65535 |
| UShortCounter.CounterCountsUp | src/dataframe.src.c:312-321 | for up to 65535 passes the counter equals the number of passes |
| UShortCounter.CounterWraps | src/dataframe.src.c:312-321 | after 65536 passes the counter is back at 0 |
| UShortCounter.CounterIsPeriodic | src/dataframe.src.c:312-321 | the counter repeats every 65536 passes |
| UShortCounter.LoopNeverExits | src/dataframe.src.c:312-323 | for more than 65535 values, the guard `i < length` holds after any number of passes, so the loop never ends |
| MissingStorage.AppendRowLosesRow | src/dataframe.src.c:188-191 | appending a row to any sound table declares a row that has no storage |

## Left out

- The OpenMP parallel loops. Each one is modelled as its sequential loop, and `nThreads` is only carried along.
- Memory management is not modelled. This covers:
  - malloc, realloc and free;
  - leaks;
  - the label buffer at c:59, which has no room for a terminator when a label is exactly 100 characters;
  - the memset at c:60, whose size is that of a pointer;
  - `dataframe_initialize`'s failure path, which frees label pointers it has not yet set.
- Doubles are `real`. IEEE rounding and NaN are left out, so a NaN cell fails every comparison in the source but has no counterpart here.
- Integer widths are mostly unbounded:
  - `n_labels` (`unsigned short`) and `column_index`'s `signed short` result break beyond 32767 columns;
  - `n_entries` and `n_pass` (`unsigned long`) could overflow.

  Only the filter checksum's `unsigned short` arithmetic is written out (`TableSpec.Checksum`). `char` is taken to be signed.
- Labels are `seq<char>` compared by equality. An embedded NUL, which would end a C string early, is not modelled.
- DataFrame.Table.Free: models the table the C code leaves behind as one with no rows and no labels. The C code does not set `data` and `labels` to NULL, so freeing twice frees twice. The model says nothing about that.
- DataFrame.Table.AssignRow: the appended row is given storage, with unwritten cells unspecified. In the source it is never allocated (see Findings).
- DataFrame.Table.AssignColumn: on the empty table the model stores the label. That is the intended behaviour (see Findings), so the model requires at most MAX_LABEL_SIZE characters wherever a label is stored. Its row loops use unbounded counters, which is the intended behaviour for any number of values; the source's wrapping `unsigned short` counters are a finding.
- DataFrame.Table.Slice: requires start <= stop. For start > stop the source allocates start - stop indices, but its loop never writes any of them. The subsample it takes is then made of uninitialised indices, which has no value-level meaning.
- DataFrame.Table.Filter: `n_pass` is the number of accepted rows. The source passes its `unsigned short` flag array to `integer_sum` cast as `unsigned long *` (c:522), which reads past the flags on every common platform.
- DataFrame.Table.Take and DataFrame.Table.Filter: the per-call behaviour is modelled. The `static` flags that persist between calls are modelled separately in `StaticFlags` (see Findings).
- The header declares `getitem_*` functions and a five-argument filter that are never defined in the source (src/dataframe.src.h:101-102, 165, 230-231, 259-260). They are not part of this model.
- setup.py, the build script, is not part of this model.

## Findings

| source | as written | input that shows it | evidently intended | confidence | as-written member | corrected member |
|---|---|---|---|---|---|---|
| src/dataframe.src.c:373-386 | `take`'s failure flag is `static` and is set but never cleared; `dataframe_slice` (c:437) and `dataframe_filter` (c:529) call `take`, so one failing take or slice makes every later take, slice and filter return NULL | on a one-row table, take([5]) and then take([0]): the second call also returns NULL; likewise slice(5, 6) and then slice(0, 1), or a filter that keeps row 0 | each call fails only on its own out-of-range index | not executed | StaticFlags.StickyTakeCounterexample | DataFrame.Table.Take |
| src/dataframe.src.c:470-520 | `filter`'s failure flag is `static` and is set but never cleared | on a one-row table, a filter with an invalid condition and then one with "<<": the second call also returns NULL | each call fails only on its own invalid condition | not executed | StaticFlags.StickyFilterCounterexample | DataFrame.Table.Filter |
| src/dataframe.src.c:290-298 | assigning a column into the empty table sets n_labels to 1 but never stores the label | `dataframe_empty()` and then assign_column("x", v, n): a later `column_index` reads `labels[0]` from a NULL array | the label is stored as the only column label | not executed | MissingStorage.AssignColumnIntoEmptyLosesLabel | DataFrame.Table.AssignColumn |
| src/dataframe.src.c:188-191 | appending a row increments n_entries and enlarges the row-pointer array, but allocates no row | any table, and then assign_row with index == n_entries and at least one value, every label known: the write at c:198 goes through an uninitialised pointer (with no values, the later `dataframe_get_row` of that row reads through it at c:141) | a row of n_labels cells is allocated before it is written | not executed | MissingStorage.AppendRowLosesRow | DataFrame.Table.AssignRow |
| src/dataframe.src.c:312-323 | the row loops of assign_column count with an `unsigned short` up to the `unsigned long` length | a non-empty table with 65536 rows and assign_column with 65536 values: the counter wraps from 65535 to 0 and the loop never ends | the counter has the width of `length` and the loop visits each row once | not executed | UShortCounter.LoopNeverExits | DataFrame.WriteColumn |
