# Categorical `unique`, `n_unique` and `value_counts` in Dafny

This project models three operations of Polars' categorical columns
(`CategoricalChunked`) and proves properties about them:

- `unique` returns a column of the distinct codes;
- `n_unique` returns the number of distinct values;
- `value_counts` returns a table of each distinct entry beside its count.

A categorical column stores nullable `u32` codes in chunks. It also holds a
reverse mapping (`RevMapping`), which is one of two kinds:

- **Local**: the code is an index into the category array.
- **Global**: the code is a global id. A map sends each id to an index in
  the category array, so two ids may denote the same string.

## Modules

- `wrappers.dfy` (`Wrappers`) holds `Option` and the `u32` range.
- `rev_map.dfy` (`RevMap`) holds the reverse mapping, code validity and
  the code-to-category lookup. `ValuesOf` is the set of strings that a set
  of codes denotes.
- `column.dfy` (`Column`) holds the column:
  - its chunks, mapping, enum flag, ordering and fast-unique flag;
  - the flattened code sequence, its code set and its null flag.
- `ranged_unique.dfy` (`RangedUnique`) holds the two accumulators that the
  operations drive:
  - `PrimitiveRangedUniqueState` is a bitset over an inclusive code range,
    plus a null flag;
  - `DictionaryRangedUniqueState` gathers the codes it sees and counts the
    values they denote.

  It also holds `SortedShape` and `SortedDistinctOf`, which specify what the
  kernel returns: ascending distinct codes, then a null if one was seen.
- `categorical_unique.dfy` (`CategoricalUnique`) holds the following:
  - `unique` and `n_unique` as methods;
  - the kernel's range computation, including its `u32` edge cases, which
    become a `Panics` outcome;
  - the loop over the Global map's keys.
- `unique_lemmas.dfy` (`UniqueLemmas`) holds properties that relate calls
  or branches:
  - the kernel branch is idempotent;
  - the fast path agrees with the kernel;
  - the value-level count is bounded by the code-level count;
  - ids that alias one string are counted once;
  - the range edge cases are characterised.
- `value_counts.dfy` (`ValueCounts`) holds `value_counts` over any grouping
  that partitions the positions by equal entry. It also gives a reference
  grouping, which lists groups in order of first occurrence, and a sort by
  count, descending. It proves:
  - each count is the number of occurrences of its entry;
  - the entries are distinct and are exactly those of the column;
  - the counts sum to the column's length;
  - the rows are ordered by non-increasing count.

Whether the fast path may be taken (`_can_fast_unique`) is decided by code
outside this file, so it is a boolean parameter of `Unique` and `NUnique`.

## Model

| member | source | states |
|---|---|---|
| CategoricalUnique.HasNulls | crates/polars-core/src/chunked_array/logical/categorical/ops/unique.rs:46 | The flag is 1 exactly when the column holds a null, and 0 otherwise. |
| CategoricalUnique.FoldMinMax | crates/polars-core/src/chunked_array/logical/categorical/ops/unique.rs:52-58 | An empty map leaves `(u32::MAX, 0)`. Otherwise `min` and `max` are keys of the map and bound every key. |
| CategoricalUnique.KernelRange | crates/polars-core/src/chunked_array/logical/categorical/ops/unique.rs:46-66 | It panics exactly when `RangeError` says so, and for the reason given there. The range is `[0, len + has_nulls]` for Local and enum dictionaries, and `[min key, max key + has_nulls]` for other Global ones. It is never inverted and contains every valid code. |
| CategoricalUnique.GlobalKeys | crates/polars-core/src/chunked_array/logical/categorical/ops/unique.rs:28-31 | The codes are the map's keys, each exactly once, with no null. |
| CategoricalUnique.Unique | crates/polars-core/src/chunked_array/logical/categorical/ops/unique.rs:8-90 | It keeps the dictionary, enum flag and ordering, and its result is valid. An empty column gives an empty column. The fast Local path gives `0 .. len-1` in order and the fast Global path gives the map's keys once each; both set the fast-unique flag. The kernel path panics exactly on `RangeError`; otherwise it returns the sorted distinct form of the codes and leaves the flag unset. |
| CategoricalUnique.NUnique | crates/polars-core/src/chunked_array/logical/categorical/ops/unique.rs:92-103 | The fast path gives the dictionary's length. Otherwise it gives the number of distinct category strings denoted by the column's codes, plus one if there is a null. |
| RangedUnique.PrimitiveRangedUniqueState.constructor | crates/polars-core/src/chunked_array/logical/categorical/ops/unique.rs:64 | It needs `lo <= hi` and starts with no codes and no null seen. |
| RangedUnique.PrimitiveRangedUniqueState.Append | crates/polars-core/src/chunked_array/logical/categorical/ops/unique.rs:68-70 | The seen codes grow by exactly the chunk's codes. The null flag records whether the chunk holds a null. The bitset invariant is kept. |
| RangedUnique.PrimitiveRangedUniqueState.FinalizeUnique | crates/polars-core/src/chunked_array/logical/categorical/ops/unique.rs:71 | The output is ascending and distinct and holds exactly the seen codes, followed by one null exactly when a null was seen. |
| RangedUnique.DictionaryRangedUniqueState.constructor | crates/polars-core/src/chunked_array/logical/categorical/ops/unique.rs:97 | It starts with no keys and no null seen. |
| RangedUnique.DictionaryRangedUniqueState.AppendKeys | crates/polars-core/src/chunked_array/logical/categorical/ops/unique.rs:98-100 | The keys grow by exactly the chunk's codes, and the null flag records whether the chunk holds a null. |
| RangedUnique.DictionaryRangedUniqueState.FinalizeNUnique | crates/polars-core/src/chunked_array/logical/categorical/ops/unique.rs:101 | The count is the number of distinct strings the keys denote, plus one if a null was seen. |
| RangedUnique.SortedShapeHead | crates/polars-core/src/chunked_array/logical/categorical/ops/unique.rs:71 | A sorted output that holds codes starts with its least code. Its tail is the sorted output of the remaining codes. |
| RangedUnique.SortedShapeUnique | crates/polars-core/src/chunked_array/logical/categorical/ops/unique.rs:71 | Two sorted outputs with the same codes and the same null flag are equal, so the kernel's result is fully determined. |
| UniqueLemmas.KernelUniqueIdempotent | crates/polars-core/src/chunked_array/logical/categorical/ops/unique.rs:46-88 | Running the kernel branch on its own output returns the same codes. |
| UniqueLemmas.SortedShapeLength | crates/polars-core/src/chunked_array/logical/categorical/ops/unique.rs:71 | The output of `unique` has no repeated entry. Its length is the number of distinct codes, plus one if there is a null. |
| UniqueLemmas.FastLocalAgreesWithKernel | crates/polars-core/src/chunked_array/logical/categorical/ops/unique.rs:22-27 | Suppose a column without nulls uses exactly the codes `0 .. n-1`. Then the kernel's result is `0 .. n-1` in order, which is the fast path's answer. |
| UniqueLemmas.FastGlobalAgreesWithKernel | crates/polars-core/src/chunked_array/logical/categorical/ops/unique.rs:28-31 | Suppose a column without nulls uses exactly the Global map's keys. Then the fast path's keys are a permutation of the kernel's result. |
| UniqueLemmas.ValuesOfCard | crates/polars-core/src/chunked_array/logical/categorical/ops/unique.rs:101 | The number of distinct strings is at most the number of distinct codes. The two are equal when no two of the codes denote the same string. |
| UniqueLemmas.NUniqueAtMostUnique | crates/polars-core/src/chunked_array/logical/categorical/ops/unique.rs:92-103 | On the kernel paths, `n_unique` is at most the length of `unique`. The two are equal when the codes do not alias. |
| UniqueLemmas.AliasedCodesCountOnce | crates/polars-core/src/chunked_array/logical/categorical/ops/unique.rs:97-101 | Take Global ids 3 and 7 that both denote `"x"`. Two distinct codes then count as one value. |
| UniqueLemmas.LocalScenario | crates/polars-core/src/chunked_array/logical/categorical/ops/unique.rs:46-101 | Take dictionary `["a","b","c"]` and codes `[0,2,2,1,null]`. The kernel branch gives `[0,1,2,null]` and `n_unique` gives 4. |
| UniqueLemmas.RangeErrorCases | crates/polars-core/src/chunked_array/logical/categorical/ops/unique.rs:46-64 | The upper bound overflows exactly when the column has a null and the dictionary already reaches `u32::MAX` (length for Local and enum, a key for Global). The range is inverted exactly for a non-enum Global map with no keys. |
| UniqueLemmas.InvertedRangeOnlyForNulls | crates/polars-core/src/chunked_array/logical/categorical/ops/unique.rs:52-60 | An inverted range arises only when every entry of the column is null. |
| ValueCounts.FirstOccurrences | crates/polars-core/src/chunked_array/logical/categorical/ops/unique.rs:106 | The reference grouping's keys are the column's entries, each exactly once. |
| ValueCounts.PositionsOf | crates/polars-core/src/chunked_array/logical/categorical/ops/unique.rs:106 | A reference group lists, in ascending order, exactly the positions that hold its entry. |
| ValueCounts.GroupTuplesPartition | crates/polars-core/src/chunked_array/logical/categorical/ops/unique.rs:106 | The reference grouping `GroupTuples`, standing for `group_tuples(true, false)`, partitions the positions by equal entry, with nulls in one group. |
| ValueCounts.GroupSizeIsOccurrences | crates/polars-core/src/chunked_array/logical/categorical/ops/unique.rs:120 | In any such partition, a group's size is the number of occurrences of its entry. |
| ValueCounts.GroupRowsFacts | crates/polars-core/src/chunked_array/logical/categorical/ops/unique.rs:106-120 | Each group row's count is the number of occurrences of its entry. The rows' entries are distinct and are exactly the column's entries. |
| ValueCounts.InsertMultiset | crates/polars-core/src/chunked_array/logical/categorical/ops/unique.rs:125-128 | Inserting a row adds exactly that row and its count. |
| ValueCounts.InsertDescending | crates/polars-core/src/chunked_array/logical/categorical/ops/unique.rs:125-128 | Inserting a row keeps the counts non-increasing. |
| ValueCounts.SortProps | crates/polars-core/src/chunked_array/logical/categorical/ops/unique.rs:125-128 | Sorting by `"counts"` descending gives non-increasing counts. It is a permutation of the rows and keeps the total. |
| ValueCounts.OccurrencesSum | crates/polars-core/src/chunked_array/logical/categorical/ops/unique.rs:120-122 | The occurrence counts of all distinct entries add up to the column's length. |
| ValueCounts.ValueCountsWith | crates/polars-core/src/chunked_array/logical/categorical/ops/unique.rs:105-128 | For any grouping that partitions the positions by equal entry, the table shares the dictionary, enum flag and ordering, and it is valid when the column is. The table is built in two steps: `GroupRows` takes each group's first entry and size (`agg_first`, `group_count`), then `SortByCountDesc` orders the rows. It has one row per group, which is one row per distinct entry. The values are distinct and are exactly the column's entries. Each count is the number of occurrences of its value. The counts sum to the column's length and do not increase. |
| ValueCounts.ValueCounts | crates/polars-core/src/chunked_array/logical/categorical/ops/unique.rs:105-129 | With the reference grouping there is one row per distinct entry. The counts sum to the column's length and do not increase. |
| ValueCounts.LocalScenario | crates/polars-core/src/chunked_array/logical/categorical/ops/unique.rs:105-129 | Take dictionary `["a","b","c"]` and codes `[0,2,2,1]`. With the reference grouping, `value_counts` gives the values column `[2,0,1]` and the counts column `[2,1,1]`, so the table reads `(c,2), (a,1), (b,1)`. |

## Left out

- Several definitions live outside `unique.rs` and are not part of this model:
  - `_can_fast_unique` and `set_fast_unique`;
  - `get_categories` and `RevMapping::len`;
  - `from_cats_and_rev_map_unchecked`;
  - `physical_mut`.

  Whether the fast path may be taken is therefore a parameter. A freshly built column has its fast-unique flag cleared. In `value_counts`, the representative column keeps every field of the input except its codes.
- The internals of `PrimitiveRangedUniqueState` and `DictionaryRangedUniqueState` (in `polars_compute`) are not part of this model. Each is modelled from how this file uses it:
  - the primitive state is a bitset over `[lo, hi]` plus a null flag;
  - the dictionary state gathers the codes it sees and counts the distinct strings they denote.
- DictionaryRangedUniqueState: the source passes it only `get_categories()`, the category array. The model passes the whole reverse mapping instead, and resolves a Global id through `toLocal` before comparing strings. What the source's state does with Global ids when it has only the array is not visible and is not modelled.
- RangeError: an empty non-enum Global map gives the range `[u32::MAX, has_nulls]`, and the model reports it as `InvertedRange`. What the accumulator would do with an inverted range is not captured.
- KernelRange: an enum column with a Global map is assumed to use only ids below the number of categories (the last clause of `Column.CategoricalChunked.Valid`). Line 50 relies on this without checking it. Without the assumption, the range `[0, len + has_nulls]` could miss a code.
- `len as u32` at lines 26, 50 and 64 truncates a dictionary of 2^32 or more categories. `RevMap.RevMapping.WellFormed` excludes such a dictionary by requiring at most `u32::MAX` categories, so the truncation is not modelled.
- KernelRange: `max + has_nulls` and `len as u32 + has_nulls` are modelled as checked additions. Overflow is `AddOverflow`, as in a debug build. The wrap-around of a release build is not modelled.
- Unique: one might expect the kernel branch to mark its result fast-unique, since its codes are then distinct. The code at lines 81-87 does not call `set_fast_unique`, and the model follows the code. For the same reason, a second `unique` on the kernel branch's output is not said to take the fast path. It is proved only to give the same codes (`UniqueLemmas.KernelUniqueIdempotent`).
- ValueCounts: `group_tuples(true, false)` is a multithreaded hash grouping. Its internals and group order are not modelled. The lemmas hold for every partition of the positions by equal entry, and a reference grouping in first-occurrence order is given.
- SortProps: `SortMultipleOptions::default()` does not ask for a stable sort, so no order among equal counts is stated. Ties have no guaranteed order. The reference insertion sort happens to keep first-occurrence order among ties, as `ValueCounts.LocalScenario` shows, but no general lemma claims it.
- These parts are not modelled because they carry no behaviour of these operations:
  - `DataFrame` construction, the `"counts"` column name and the `PolarsResult` error path of the sort;
  - chunk boundaries of results (every result is one chunk);
  - series names, `to_boxed` and the unsafe constructors.
- The iteration order of a Global map's keys is unspecified in the source. `GlobalKeys` and `FoldMinMax` therefore iterate in an arbitrary order and state only order-independent results.
- Hashing of category strings and the Global mapping's id field are not modelled.
- Thread safety of the cached fast-unique flag is not modelled.
