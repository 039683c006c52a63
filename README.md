# ntab / tabela: a column store with a composite-key index, in Dafny

This project models the core of the `ntab` / `tabela` / `tabella` Python
packages. That core is a small column store: tables are ordered maps from
column names to equal-length one-dimensional arrays. Over these sit a
composite-key `Index`, views addressed by key (`Relation`, `Series`), a
sort-based group-by, and the pure helpers they rely on.

What is modelled, module by module:

- `Values`: the scalar values held in arrays (integers and strings) and their ascending order.
- `Errors`: the exceptions the package raises, as values.
- `Wrappers`: `Option` and `Result`.
- `PyLib` (`tabella/lib/py.py`): `tupleize`/`iterize`, `normalize_index`, `all_equal`, and `sort_as` as a loop over a list copy. It also covers Python slicing of a sequence.
- `ODict`: the insertion-ordered dict the tables keep their arrays in (`d[k] = v`, `del d[k]`, `update`) and `first_value`.
- `Containers` (`tabela/lib/container.py`): name containers (`All`, `only`, `all_but`, `~`, `&`, `|`), `select`, and `select_ordered` with its ellipsis, slice and container cases.
- `Sorting`, `Search`: stable argsort as a permutation ordered by the row keys with ties by row number, and `searchsorted` left and right as binary-search loops.
- `Columns` (`tabela/column.py`): a `Column` with its one-dimensional check, `wrap`, the identity case of `==`, and its cached stable `sorter`.
- `Indexes` (`tabella/index.py`): the `Index` as a class. Its sort order is built by stable single-column sorts in reverse column order. Uniqueness is checked by filtering adjacent positions column by column. `rows[key]` narrows a range of the sort order one key column at a time.
- `Tables` (`tabela/table.py`): construction with its length check, columns by name or position, `Row`, rows by position, sub-tables by mask, positions or slice, and column selection.
- `Relations`, `SeriesViews` (`tabela/relation.py`, `tabela/series.py`): key-addressed views over an `Index` and a table, and `index(table, by)`.
- `Memo` (`tabela/lib/memo.py`, `ntab/lib/memo.py`): `memoize_with`/`memoize` as a class whose cache is a map updated in place, with a ghost log of the calls that ran the function, and `lazy_property` as a class with a write-once field whose method is an effect on the object's state.
- `Build` (`tabella/build.py`): `from_recs` and `from_row_seqs` as the nested loops that append to per-column lists. The tables they build are those of `tabela/table.py` (see "## Left out").
- `NTab` (`ntab/tab.py`): the mutable table as a class with the fields `length` and `arrs`. It covers `_ensure_array`, the constructor, `add`, `remove`, `mask`, `filter_mask` (an in-place narrowing loop over an `array<bool>`), `filter`, `find` and `from_recs`. Each method is proved against a function of the table's state.
- `GroupBys` (`ntab/groupby.py`): `SingleGroupBy` and `GroupBy` as classes with a write-once cache of the `(order, unique, edge)` decomposition. The model defines `argunique`/`arguniquen` by that decomposition's contract: each run of the sort order between two edges is exactly the rows holding one distinct value, in row order.
- `Fn` (`ntab/fn.py`): `select_arrs`, `rename`, `get_const` and `remove_const`.

Ten defects of the source are modelled both as written and as evidently
intended (see "## Findings"), and the rest of the model uses the intended
version. `ntab/groupby.py` uses `np`, `nplib` and `tupleize` without importing
them; its model takes them as imported (see "## Left out"). The other behaviours the source states explicitly are modelled as
written, in particular `remove` setting the row count to `0`, not to "unset",
when the last column goes.

## Model

| member | source | states |
|---|---|---|
| PyLib.Tupleize | tabella/lib/py.py:11-63 | `tupleize`, and the elements `iterize` yields: a `str` or a non-iterable object becomes a one-element tuple; any other iterable keeps exactly its elements |
| PyLib.NormalizeIndex | tabella/lib/py.py:135-153 | succeeds exactly when `-length <= index < length`; the result is a valid position congruent to `index` modulo `length`, equal to `index` when that is non-negative; otherwise `IndexError(index)` |
| PyLib.ReduceCheck | tabella/lib/py.py:163-169 | reducing with `check` succeeds iff every remaining value equals the accumulator, returns the accumulator, and otherwise fails with `ValueError("not equal")` |
| PyLib.AllEqual | tabella/lib/py.py:156-175 | for non-empty items: success iff all items equal the first, which is returned, else `ValueError`; for no items: the default when given, else `TypeError("no items")` |
| PyLib.IndexOf | tabella/lib/py.py:111-112 | the first position holding `k` (no earlier position holds it), or `len(s)` exactly when `k` is absent |
| PyLib.RemoveAt | tabella/lib/py.py:117 | `del s[i]` shortens the list by one and removes exactly one copy of `s[i]` |
| PyLib.CommonCons | tabela/lib/container.py:56-57 | `tuple(i for i in head if i in members)` keeps the first listed name exactly when it is a member, ahead of what the rest keeps |
| PyLib.CommonConcat | tabela/lib/container.py:56-57 | filtering listed names by membership keeps their listed order: filtering a concatenation is concatenating the filtered parts |
| PyLib.MissingCons | tabela/lib/container.py:60 | `i for i in members if i not in head and i not in tail` keeps the first member exactly when neither part names it, ahead of what the rest keeps |
| PyLib.MissingConcat | tabela/lib/container.py:60 | the members named in neither part keep the members' order: filtering a concatenation is concatenating the filtered parts |
| PyLib.SortAs | tabella/lib/py.py:107-120 | the loop over `order` deleting from a copy of `items`, followed by the leftovers, yields exactly `SortAsSpec(items, order)` |
| PyLib.SortAsPermutes | tabella/lib/py.py:107-120 | `sort_as` only reorders: its output is a permutation of `items` |
| PyLib.SortAsDistinct | tabella/lib/py.py:107-120 | with distinct items and order, the output is the entries of `order` found among the items in `order`'s order, then the remaining items in their original order |
| PyLib.SliceIndices | tabela/lib/container.py:64-65 | the positions `range(n)[slice]` selects: an error exactly for a zero step, otherwise distinct in-range positions, at most `n` of them |
| PyLib.GetSlice | tabela/lib/container.py:64-65 | `s[slice]` fails exactly for a zero step; otherwise it is no longer than `s` and holds only elements of `s` |
| PyLib.FullSlice | tabela/lib/container.py:64-65 | `s[:]` is `s` |
| PyLib.SuffixSlice | tabela/lib/container.py:64-65 | `s[k:]` is the suffix of `s` from `k` |
| PyLib.ReverseSlice | tabela/lib/container.py:64-65 | `s[::-1]` is `s` reversed |
| Containers.AllBut | tabela/lib/container.py:207 | `all_but(*xs)` contains exactly the names not among `xs` |
| Containers.Invert | tabela/lib/container.py:77-145 | `~c` fails exactly for a built-in set or dict; `~All` is an empty `dict`; otherwise the result contains exactly what `c` does not |
| Containers.InvertInvolutive | tabela/lib/container.py:144-145 | `~~c` gives back `c` for `only`, `_And` and `_Or` containers |
| Containers.InvertAllTwice | tabela/lib/container.py:113-114 | `~~All` fails, because `~All` is a plain empty `dict` |
| Containers.OrWith | tabela/lib/container.py:89-183 | under Python's operator dispatch, the union operator on `a` and `b` fails exactly when one operand is a built-in set and the other the `dict` from `~All`; otherwise it contains exactly the names either operand contains |
| Containers.PlainOr | tabela/lib/container.py:93-94 | a built-in set on the left of the union operator fails exactly against a dict; otherwise it yields exactly the union of the memberships |
| Containers.DictOr | tabela/lib/container.py:93-94 | the `dict` from `~All` on the left of the union operator fails exactly against a built-in set; otherwise the result contains exactly what the right operand contains |
| Containers.ReflectedOr | tabela/lib/container.py:93-94 | the reflected `b.__ror__(a)` of a package container `b` contains exactly the names either operand contains |
| Containers.Either | tabela/lib/container.py:168-179 | an `_Or` of two containers contains exactly the names either contains |
| Containers.InvertAllOrSetFails | tabela/lib/container.py:113-114 | `~All` is the empty dict, and the union operator on `~All` and `{"a"}` fails in either order |
| Containers.AndWithAsWritten | tabela/lib/container.py:81-164 | `a & b` succeeds exactly when one side is `All` or an `_And`, or both are built-in sets |
| Containers.Reflected | tabela/lib/container.py:85-86 | the reflected `b & a` succeeds exactly when `b` is `All` or an `_And` |
| Containers.AndOfOnlyAndAllButFails | tabela/lib/container.py:81-82 | `only("x") & all_but("y")` and `only("x") & only("y")` raise instead of intersecting |
| Containers.AndWith | tabela/lib/container.py:149-164 | `a & b` with the base method spelled `__and__` fails exactly when both sides are built in and not both sets; otherwise it contains exactly the names both operands contain |
| Containers.PlainAnd | tabela/lib/container.py:85-86 | a built-in set on the left of `&` fails exactly against a dict; otherwise it yields exactly the intersection of the memberships |
| Containers.ReflectedAnd | tabela/lib/container.py:85-86 | the reflected `b.__rand__(a)` of a package container `b`, spelled as intended, contains exactly the names both operands contain |
| Containers.Both | tabela/lib/container.py:149-160 | an `_And` of two containers contains exactly the names both contain |
| Containers.InvertAllAndSetFails | tabela/lib/container.py:113-114 | `(~All) & {"a"}` and `{"a"} & ~All` fail, both as written and with `__and__` spelled right |
| Containers.AndWithAgrees | tabela/lib/container.py:81-164 | wherever the written `&` succeeds, the corrected one succeeds too and contains the same names |
| Containers.Select | tabela/lib/container.py:18-29 | exactly the items in the container, no more of them than there are items, with no duplicates introduced (their order: `SelectConcat`) |
| Containers.SelectCons | tabela/lib/container.py:29 | `select` keeps the first item exactly when the container holds it, ahead of what it keeps of the rest |
| Containers.SelectConcat | tabela/lib/container.py:29 | `select` keeps the items' order: selecting from a concatenation is concatenating the selections |
| Containers.SelectAll | tabela/lib/container.py:18-29 | selecting with `All` keeps every item in order |
| Containers.SelectOrdered | tabela/lib/container.py:32-70 | a container selects like `select`; a slice slices the items; every selected name is an item |
| Containers.SelectOrderedNoEllipsis | tabela/lib/container.py:49-51 | without `...`, exactly the listed names that are items, each a listed name, in the listed order: the first listed name leads exactly when it is an item, then the selection by the rest |
| Containers.SelectOrderedListedOrder | tabela/lib/container.py:49-51 | without `...`, selecting by two lists one after the other is selecting by the first then by the second, so the listed order is kept |
| Containers.SelectOrderedEllipsis | tabela/lib/container.py:53-62 | with one `...`, the head's items, then the items named in neither part, then the tail's items |
| Containers.SelectOrderedTwoEllipses | tabela/lib/container.py:55 | a second `...` fails the assertion |
| Containers.SelectOrderedPermutes | tabela/lib/container.py:53-62 | with distinct names and one `...`, the result is a permutation of the items |
| ODict.ODict.Set | ntab/tab.py:453 | `d[k] = v` maps `k` to `v`, keeps every other entry, and keeps `k`'s position or appends it when new |
| ODict.ODict.Remove | ntab/tab.py:458 | `del d[k]` drops exactly `k` from the keys and the names, leaving one name fewer |
| ODict.ODict.RemoveKeepsOrder | ntab/tab.py:458 | `del d[k]` keeps the other names in their order: the names before `k`, then the names after it |
| ODict.WithoutKeepsOrder | ntab/tab.py:458 | cutting a name out of distinct names leaves those before it and those after it, in order |
| ODict.ODict.Update | ntab/tab.py:453 | `d.update(pairs)` has exactly the old names and the new ones, the old names first in their order |
| ODict.FirstValue | tabella/lib/py.py:127-128 | `first_value(d)` is the value of the first name in insertion order, and there is none exactly when the dict is empty |
| Sorting.StableArgsort | tabela/column.py:41-43 | `argsort(kind="stable")` of a column is a permutation of its rows in ascending order, equal values keeping their row order |
| Sorting.StableArgsortOrders | tabela/column.py:41-43 | read through a stable argsort, the column is ascending and rows with equal values stay in row order |
| Sorting.ArgSort | tabella/index.py:118-129 | the stable ascending order of rows by their key tuples: a permutation of the rows, sorted lexicographically with ties in row order |
| Sorting.StableOrderUnique | tabella/index.py:118-129 | a stable order is unique: any permutation sorted by key with ties in row order is exactly `ArgSort` |
| Sorting.ComposeStable | tabella/index.py:126-127 | re-sorting a stable order stably by one more column gives the stable order with that column as the leading key |
| Search.SearchLeft | tabella/index.py:98 | `searchsorted(a, k, side="left")` on an ascending column: every value before the result is below `k`, none from it on is, and it equals the count of values below `k` |
| Search.SearchRight | tabella/index.py:101 | `searchsorted(a, k, side="right")` on an ascending column: every value before the result is at most `k`, every value from it on is above `k` |
| Columns.Column.constructor | tabela/column.py:9-10 | a new column holds exactly the given elements and has no cached sorter |
| Columns.Column.Sorter | tabela/column.py:41-43 | the lazy `sorter` is a stable argsort of the column; once cached, later calls return the cached order |
| Columns.Column.Equals | tabela/column.py:23-30 | a column equals itself without comparing elements; another column is equal exactly when the element comparison says so |
| Columns.NewColumn | tabela/column.py:9-12 | succeeds exactly for a one-dimensional array, giving a fresh column of its elements; otherwise `ValueError("not one-dimensional")` |
| Columns.Wrap | tabela/column.py:33-38 | a `Column` is returned as the same object; anything else becomes a fresh column, or fails exactly when it is not one-dimensional |
| Columns.WrapTwice | tabela/column.py:33-38 | `wrap` is idempotent: wrapping its result returns the same object |
| Columns.WrapAll | tabella/index.py:15 | wrapping every argument succeeds exactly when all are columns or one-dimensional arrays; the columns keep name order and elements, reusing given columns |
| Indexes.MultiSort | tabella/index.py:118-129 | starting from the last column's stable argsort and re-sorting stably by each earlier column yields the stable ascending order of the row keys, which is `ArgSort` |
| Indexes.KeepTies | tabella/index.py:29-30 | one filtering step keeps exactly the positions of `m` at which the current column holds equal values at sorted positions `p` and `p + 1` |
| Indexes.FirstTie | tabella/index.py:27-32 | the uniqueness scan finds the first sorted position whose row key equals the next one, or reports that no neighbours tie |
| Indexes.TieIffRepeated | tabella/index.py:27-34 | in a stable order, two neighbours with equal keys exist exactly when some row key is repeated |
| Indexes.FirstTieIsSmallest | tabella/index.py:31-34 | the key at the first tie of the sorted order is the smallest repeated key |
| Indexes.CheckUnique | tabella/index.py:25-34 | reports no key exactly when the row keys are unique, and otherwise the smallest repeated key |
| Indexes.Lookup | tabella/index.py:90-107 | the outcome of `rows[key]` stated without searching: a success is the position of a row whose key is exactly the requested tuple |
| Indexes.LookupFinds | tabella/index.py:90-107 | with unique keys, every row is found under its own key |
| Indexes.LookupMissing | tabella/index.py:107 | a key of the right length that no row has raises `KeyError` with that key |
| Indexes.LookupArity | tabella/index.py:95 | a key of the wrong length always fails, with `KeyError` exactly when it has components and no row matches all compared components, and otherwise with the strict `zip`'s error |
| Indexes.LookupNoPrefix | tabella/index.py:96-103 | when no row matches the first components of the key, the lookup raises `KeyError` with the key |
| Indexes.LookupWrongLength | tabella/index.py:95 | a key of the wrong length whose compared components some row matches is rejected with `ValueError` |
| Indexes.LookupFound | tabella/index.py:104-106 | a key of the right length held by row `row` is found at `row` |
| Indexes.Bracket | tabella/index.py:98-101 | the left and right binary searches bracket exactly the positions holding the key |
| Indexes.Narrowed | tabella/index.py:96-103 | one narrowing step keeps exactly the sorted positions whose rows match one more key component, or shows that no row does |
| Indexes.AtMostOne | tabella/index.py:105 | with unique keys, the final range holds at most one row, as the assertion expects |
| Indexes.ProbeAsWritten | tabella/index.py:98-100 | as written, the probe fails with `IndexError` exactly when the key is above every value in the range, and otherwise answers whether the key occurs |
| Indexes.Probe | tabella/index.py:98-100 | the corrected probe answers exactly whether the key occurs in the range |
| Indexes.ProbePastEnd | tabella/index.py:98-100 | for a one-column index holding `1`, looking up `2` raises `IndexError` as written, while the corrected lookup raises `KeyError` |
| Indexes.Index.constructor | tabella/index.py:22-27 | an index holds its names, key columns and row count, with the sort order computed at construction kept |
| Indexes.Index.Keys | tabella/index.py:75-79 | `rows.keys()` gives one key per row, whose components are the columns' values in that row |
| Indexes.Index.Values | tabella/index.py:82-83 | `rows.values()` is the positions `0 .. len - 1` |
| Indexes.Index.Items | tabella/index.py:86-87 | `rows.items()` pairs each row key with its position |
| Indexes.Index.ColArrays | tabella/index.py:56-58 | `cols` maps each name, in order, to its column's array |
| Indexes.Index.Sorter | tabella/index.py:118-129 | `sorter` is the stable ascending order of the row keys |
| Indexes.Index.Get | tabella/index.py:90-107 | `rows[key]`, by narrowing a range of the sorted order column by column, gives exactly `Lookup` of the tupleized key |
| Indexes.ItemsRoundTrip | tabella/index.py:86-107 | every pair of `rows.items()` is found again: looking up its key gives its position |
| Indexes.NewIndex | tabella/index.py:14-34 | `Index(cols)` fails on a non-one-dimensional argument, on no columns, on unequal lengths and, naming the smallest repeated key, on a repeated row key; otherwise it holds the names and arrays given |
| Indexes.Keyed | tabella/index.py:22-34 | once lengths agree, sorting and the uniqueness check reject exactly a repeated key, naming the smallest, and otherwise build the index |
| Tables.Table.Arrs | tabela/table.py:132-134 | `_arrs` maps exactly the table's names, in order, to their columns' arrays |
| Tables.ArrsOfLength | tabela/table.py:132-134 | in a valid table every array of `_arrs` has the table's length |
| Tables.NewTable | tabela/table.py:87-101 | `Table(cols)` fails on an argument that is not one-dimensional; otherwise it succeeds exactly when all columns have one length, which becomes the table's length (0 for no columns), keeping names, order and elements, and raises `ValueError("not the same length")` otherwise |
| Tables.CommonLength | tabela/table.py:95-101 | `all_equal` over the column lengths with default 0 succeeds exactly when all arrays share a length, returning that length |
| Tables.NoColumnsNoRows | tabela/table.py:96-99 | a table built from no columns has no arrays, so its length is the default 0 |
| Tables.GetCol | tabela/table.py:194-224 | `cols.get(key, default)` returns the named column's array, or the array at a position counted from the end when negative; a missing name or position gives the default, or `KeyError` exactly when there is none |
| Tables.GetColFindsEach | tabela/table.py:194-224 | every column is found by its name, by its position and by its negative position, all giving the same array |
| Tables.Row.Values | tabela/table.py:59-61 | a row's `values()` are its value in each column, in column order |
| Tables.Row.Items | tabela/table.py:64-66 | a row's `items()` pair each column name with the row's value there |
| Tables.Row.Get | tabela/table.py:69-71 | `row[name]` succeeds exactly for a column name, giving the value in that column; otherwise `KeyError` |
| Tables.RowItemsAgree | tabela/table.py:64-71 | every item of a row is found again by its name |
| Tables.RowAt | tabela/table.py:308-312 | `rows[i]` succeeds exactly for `-len <= i < len`, giving the row at `i` counted from the end when negative; otherwise `IndexError(i)` |
| Tables.RowsOf | tabela/table.py:318-320 | iterating `rows` yields one row per position, in order |
| Tables.RowsOfAgree | tabela/table.py:308-320 | the `i`-th row iterated is both `rows[i]` and `rows[i - len]` |
| Tables.MaskPositions | tabela/table.py:148 | a boolean mask selects exactly its true positions, ascending |
| Tables.TakePositions | tabela/table.py:148 | integer positions succeed exactly when all are in range, each normalised from the end when negative; otherwise `IndexError` for the first one out of range |
| Tables.Selected | tabela/table.py:145-148 | the rows `arr[sel]` reads: a mask must have the array's length and picks its true positions; positions and slices select as indexing does |
| Tables.Subtable | tabela/table.py:313-315 | `rows[sel]` for a non-scalar selection is a new table with the same names in the same order, each column read at the selected positions, failing exactly as the selection does; a table without columns gives an empty table |
| Tables.FirstAbsent | tabela/table.py:152 | the first name missing from the columns, if any |
| Tables.Restrict | tabela/table.py:151-152 | `{n: cols[n] for n in names}` fails with `KeyError` for the first missing name; otherwise it holds exactly the named columns, shared, with the table's length (0 for no names) and in the given order when names are distinct |
| Tables.SelectCols | tabela/table.py:262-264 | `cols.select(sel)` fails exactly as `select_ordered` does; otherwise it holds exactly the selected columns, shared with the table, in the selected order |
| Tables.SelectItem | tabela/table.py:267-273 | `cols.select[key]` wraps a single name or `...` in a 1-tuple and otherwise passes the key on |
| Tables.SelectOrderedAll | tabela/lib/container.py:53-62 | selecting with `(...,)` picks every name, in order |
| Tables.SelectEverything | tabela/table.py:267-273 | `cols.select[...]` keeps every column, in order |
| Tables.SelectOne | tabela/table.py:267-273 | `cols.select[name]` for a present name is the one-column table of that column, with the table's length |
| Relations.Relation.ColNames | tabela/relation.py:65-70 | `cols.keys()` and iteration over `cols` give the table's names, in order |
| Relations.Relation.ColItems | tabela/relation.py:77-78 | `cols.items()` pairs each name, in order, with the `Series` over its column and the relation's index |
| Relations.Relation.GetSeries | tabela/relation.py:81-115 | `cols.get(key, default)` gives the `Series` of the named column, or of the column at a position counted from the end when negative; a missing name or position gives the default, or `KeyError` exactly when there is none |
| Relations.Relation.RowCount | tabela/relation.py:191-192 | `len(rows)` is the number of index rows |
| Relations.Relation.RowKeys | tabela/relation.py:195-200 | `rows.keys()` are the index's row keys, in row order |
| Relations.Relation.RowValues | tabela/relation.py:203-205 | `rows.values()` are the table's rows, in row order |
| Relations.Relation.RowItems | tabela/relation.py:208-213 | `rows.items()` pair each index key with the table's row at the same position |
| Relations.Relation.RowAtKey | tabela/relation.py:216-218 | `rows[key]` succeeds exactly when the index finds the key, giving the table's row at that position, and otherwise fails with the index's error |
| Relations.Relation.GetRow | tabela/relation.py:216-218 | looking up the index and reading the table's row gives exactly `RowAtKey`, a well-formed row |
| Relations.NewRelation | tabela/relation.py:15-24 | `Relation(index, table)` succeeds exactly when the index and the table have as many rows, keeping both; otherwise `ValueError` |
| Relations.ColItemsFound | tabela/relation.py:77-115 | every `Series` of `cols.items()` is found again by its name, its position and its negative position |
| Relations.SeriesOfColumn | tabela/relation.py:81-115 | the `Series` `cols.get` returns is well formed and holds the array the table's own `cols.get` returns |
| Relations.RowItemsFound | tabela/relation.py:208-218 | every item of `rows` is found again: its key gives its row |
| Relations.SelectRelation | tabela/relation.py:154-155 | `cols.select(sel)` fails as the table's selection does, and otherwise is the relation of the same index over the selected columns |
| Relations.SelectRelationItem | tabela/relation.py:158-159 | `cols.select[key]` fails as the table's `select[key]` does, and otherwise is the relation of the same index over the selected columns |
| Relations.SelectKeepsIndex | tabela/relation.py:154-155 | a selection the table accepts gives a relation exactly when it keeps a column or the index is empty; the relation keeps the index and shares the selected columns |
| Relations.ByArgs | tabela/relation.py:255 | the dict handed to `Index` holds exactly the named columns' arrays, in the given order when names are distinct |
| Relations.ByArgsWrap | tabela/relation.py:255 | every argument handed to `Index` is an array of the table's length, so only the uniqueness check can fail, and it is empty exactly when no names are given |
| Relations.IndexBy | tabela/relation.py:254-256 | `index(table, by)` raises `KeyError` for the first missing name, `ValueError("no cols")` for no names, and the smallest repeated key for non-unique rows; otherwise it is the relation of a fresh index of those columns over the whole table |
| Relations.IndexByDistinct | tabela/relation.py:255 | with distinct names, the index has exactly those columns, in that order, with the table's arrays |
| SeriesViews.Series.Len | tabela/series.py:52-53 | `len(series)`, over the index's rows, is the number of index rows |
| SeriesViews.Series.Keys | tabela/series.py:56-61 | `keys()` and iteration give the index's row keys, in row order |
| SeriesViews.Series.Values | tabela/series.py:64-65 | `values()` are the column's values in row order |
| SeriesViews.Series.Items | tabela/series.py:68-69 | `items()` pair each row key with the column's value in that row |
| SeriesViews.Series.At | tabela/series.py:72-74 | `series[key]` succeeds exactly when the index finds the key, giving the column's value at that row, and otherwise fails with the index's error |
| SeriesViews.Series.Get | tabela/series.py:72-74 | looking the key up in the index's rows and reading the column gives exactly `At` |
| SeriesViews.NewSeries | tabela/series.py:11-19 | `Series(col, index, name)` fails on a column that is not one-dimensional or whose length is not the index's row count, and otherwise holds the wrapped column, the index and the name |
| SeriesViews.ItemsFound | tabela/series.py:68-74 | every item of a series is found again: its key looks up its value |
| SeriesViews.AtMissing | tabela/series.py:72-74 | a key no row has gives the index's `KeyError`, carrying the key |
| SeriesViews.LenAsWritten | tabela/series.py:52-53 | as written, `len(series)` asks the `Index` itself for its length and always raises `TypeError` |
| SeriesViews.GetAsWritten | tabela/series.py:72-74 | as written, `series[key]` subscripts the `Index` itself and always raises `TypeError` |
| SeriesViews.ViewsAsWrittenFail | tabela/series.py:52-74 | on any non-empty series the views as written fail, while the views over the index's rows give the row count and find the first row's value |
| Memo.KwTuples | tabela/lib/memo.py:11 | the keyword part of the key holds one `(name, value)` tuple per keyword argument, in order |
| Memo.KeyAsWritten | tabela/lib/memo.py:11 | the key as written is the positional arguments followed directly by the keyword tuples |
| Memo.KeysCollide | tabela/lib/memo.py:11 | the positional call `f(("a", 1))` and the keyword call `f(a=1)` are different calls with the same key as written |
| Memo.CollisionServesWrongValue | tabela/lib/memo.py:11-16 | with the key as written, a cache holding the right value for the positional call answers the keyword call with a value the function does not return for it |
| Memo.Key | tabela/lib/memo.py:11 | the corrected key separates the positional arguments from the keyword tuples by a private marker |
| Memo.MarkPosition | tabela/lib/memo.py:11 | in the corrected key, the first marker is where the positional arguments end |
| Memo.KeyInjective | tabela/lib/memo.py:11 | with the corrected key, different calls have different keys, so no cache entry is shared |
| Memo.Memoized.constructor | tabela/lib/memo.py:24-28 | `memoize(fn)` starts with an empty cache and with `fn` not yet called |
| Memo.Memoized.With | tabela/lib/memo.py:5-21 | `memoize_with(memo)(fn)` uses the caller's cache, which must already agree with the function, and has not called `fn` yet |
| Memo.Memoized.Apply | tabela/lib/memo.py:8-16 | a call returns the function's value; a cached key leaves the cache unchanged and does not call `fn`; a new key calls `fn` once and stores exactly its value; every entry stays the function's value and `fn` is never called twice for one key |
| Memo.CallTwice | tabela/lib/memo.py:11-16 | calling a memoized function twice with the same arguments gives its value both times and calls `fn` at most once, only when the key was not cached |
| Memo.Lazy.constructor | tabela/lib/memo.py:31-43 | a lazy property starts with nothing kept, the decorated method not yet run and the object's state as given |
| Memo.Lazy.Get | ntab/lib/memo.py:5-17 | the first read runs the decorated method once on the object's state, keeps its value and leaves its effect on the state; a later read gives the kept value and neither runs the method nor touches the state |
| Memo.ReadTwice | tabela/lib/memo.py:31-43 | reading a lazy property twice gives the same value both times, runs the method at most once, and changes the state only by that one run |
| Memo.HandOver | test/test_memo.py:42-66 | a lazy property whose method hands over a private attribute and clears it gives `42` on every read, while the attribute is left `None` |
| Memo.CountedReads | test/test_memo.py:5-39 | two objects, each read twice, give their own values every time while the method runs twice in all, once per object |
| Build.Collected | tabella/build.py:29-32 | the values `from_recs` gathers under name `n` number at most one per record |
| Build.Stranger | tabella/build.py:30-32 | the first name of a later record, in record order, that has no column list, if any |
| Build.StrangerConcat | tabella/build.py:30-32 | over two runs of records, the first name without a list comes from the first run when it has one, and otherwise from the second |
| Build.AppendRecord | tabella/build.py:31-32 | appending a record extends each of its names' lists by its value there and no other list; a name without a list raises `KeyError` for the first such name |
| Build.RecordColumns | tabella/build.py:28-32 | no records raise `StopIteration`; a later record's name the first lacks raises `KeyError`; otherwise one list per name of the first record, in its order, holding the values of every record that has that name |
| Build.RecordStep | tabella/build.py:30-32 | one turn of the outer loop either stops at the first name without a list or extends every list by the record's values |
| Build.CollectedTransposes | tabella/build.py:28-32 | when every record has the name, its list holds each record's value for it, one per record, in record order |
| Build.AsArrays | tabella/build.py:33 | each list becomes a one-dimensional array under the same name, in the same order |
| Build.SameKeysNoStranger | tabella/build.py:25-32 | records that all have the first record's keys, in any order, raise no `KeyError` |
| Build.SameKeysTranspose | tabella/build.py:21-33 | for records sharing their keys, the arrays transpose the records: one element per record, holding that record's value |
| Build.FromRecs | tabella/build.py:21-33 | `from_recs` raises `StopIteration` for no records and `KeyError` for the first later key the first record lacks; for records sharing their keys it is a table with the first record's names in order, one row per record, each cell being that record's value |
| Build.RecsTable | tabella/build.py:33 | the table made from the transposed columns holds each record as a row |
| Build.ColumnOf | tabella/build.py:42-44 | column `j` has at most one value per row |
| Build.RowColumns | tabella/build.py:41-44 | the nested loop of `from_row_seqs` builds one list per name, the `j`-th holding the `j`-th value of every row that has one |
| Build.ColumnOfTransposes | tabella/build.py:42-44 | with rows that reach position `j`, column `j` holds every row's `j`-th value, in row order |
| Build.RowArrays | tabella/build.py:42-45 | with distinct names and rows of at least one value per name, the arrays are the transposed rows, in name order, values past the last name dropped |
| Build.PairsDict | tabella/build.py:45 | with distinct names, the dict holds the arrays of the column lists in name order |
| Build.FromRowSeqs | tabella/build.py:36-45 | with distinct names and rows of at least one value per name (extra values dropped, as `zip` drops them), `from_row_seqs` is a table with those names in order, one row per input row, each cell that row's value |
| Build.RowsTable | tabella/build.py:45 | the table made from arrays that transpose the rows holds each row's first values, one per name |
| NTab.FirstNot | ntab/tab.py:360-363 | the first argument, in name order, that a test rejects, with every earlier one accepted |
| NTab.LenOf | ntab/tab.py:349-355 | `len(obj)` is an array's first extent, a string's length, and undefined for a number |
| NTab.EnsureArray | ntab/tab.py:23-51 | `_ensure_array` takes a one-dimensional array unchanged unless a length is given and differs (`ValueError("wrong length")`), rejects other ranks (`ValueError("not one-dimensional")`), and broadcasts a scalar to the given length, failing when there is none |
| NTab.EnsureArrayIdempotent | ntab/tab.py:23-51 | what `_ensure_array` accepts it gives back unchanged when asked again, also with its own length as the expected one |
| NTab.Ensured | ntab/tab.py:360-363 | converting every argument fails exactly at the first argument `_ensure_array` rejects, with its error; otherwise the same names in the same order, each the accepted array |
| NTab.FirstLength | ntab/tab.py:348-355 | the row count `__init__` takes is the length of the first argument that has one, and none exactly when no argument has a length |
| NTab.State.NumRows | ntab/tab.py:407-409 | `num_rows` is 0 when no row count is set and the row count otherwise; in a valid table every array has that many entries |
| NTab.Pairs | ntab/tab.py:453 | the `(name, array)` pairs of a dict of arrays, in name order, with distinct names |
| NTab.InitState | ntab/tab.py:331-366 | `Table(...)` with no arguments is an empty table with no row count; otherwise it raises `ValueError("no arrs have length")` when no argument has a length, and else fails exactly as converting the arguments to that length fails, or holds the converted arrays under the given names |
| NTab.Vectors | ntab/tab.py:345 | the constructor arguments of a table made of existing arrays, one per name |
| NTab.InitVectors | ntab/tab.py:331-366 | arrays of one common length make a table without error, holding exactly those arrays, with that row count when there are any |
| NTab.Taken | ntab/tab.py:294-304 | reading every array at the positions `idxs` keeps the names and gives each column the entries at those positions |
| NTab.TakeRows | ntab/tab.py:294-304 | `_take_rows(idxs)` and `__get_subtable` give exactly the table of every array read at those positions, which the constructor accepts |
| NTab.FirstWrongLength | ntab/tab.py:317-326 | `__check`'s length test reports the first array whose length is not the row count, or none exactly when all have it |
| NTab.AddLength | ntab/tab.py:447-449 | after `add` the row count is unchanged for a table with columns, and for one without it is the first new array's length |
| NTab.AddState | ntab/tab.py:433-453 | `add` fails as converting the arguments does; on success every array has the row count, the table holds the old names followed by the new ones, assigned names take their arrays, other columns stay, the row count of a table with columns stays, and replacing only existing names keeps the name order |
| NTab.AddUpdate | ntab/tab.py:451-453 | assigning checked arrays in order leaves every array of the row count and changes only the given names |
| NTab.UpdateExistingNames | ntab/tab.py:453 | assigning only names already present keeps the order of the names |
| NTab.RemoveState | ntab/tab.py:456-463 | `remove(name)` fails with `ValueError(name)` exactly when the name is absent; otherwise it deletes that name and resets the row count to 0 when no column is left |
| NTab.Fresh | ntab/tab.py:331-366 | `Table()` has no columns and `num_rows` 0 |
| NTab.AddToFresh | ntab/tab.py:447-449 | adding a one-dimensional array to a fresh table sets the row count to its length |
| NTab.AddRejectsWrongLength | ntab/tab.py:49-50 | an array whose length differs from the row count of a table with columns is rejected with `ValueError` |
| NTab.AddExisting | ntab/tab.py:453 | adding under names the table already has replaces those columns in place: names, order, row count and the other columns stay |
| NTab.RemoveLastThenAdd | ntab/tab.py:461-463 | removing the only column leaves row count 0, not unset, so adding a non-empty array is then rejected as the wrong length, while a fresh table takes it |
| NTab.AddAsWritten | ntab/tab.py:447-453 | as written, `add` succeeds exactly when the corrected one does, with the same table; a failure leaves the columns, but not necessarily the row count, as they were |
| NTab.AddAsWrittenKeepsLength | ntab/tab.py:447-451 | on a fresh table, `add(a=[1, 2], b=[1])` fails on `b`, yet as written the table without columns now has two rows |
| NTab.AddAsWrittenThenRejects | ntab/tab.py:447-451 | after that failed `add`, a three-row array is rejected as written, while a fresh table takes it |
| NTab.MaskState | ntab/tab.py:469-474 | `mask(m)` raises `ValueError("wrong shape")` exactly when no row count is set or `m` has another length; otherwise the same names, each column keeping the rows where `m` is true, in order |
| NTab.RowMatchesStep | ntab/tab.py:479-484 | one more selection narrows the matching rows by its own column test |
| NTab.NarrowMask | ntab/tab.py:484 | `mask[mask] &= array[mask] == value` clears, in place, exactly the entries whose row does not hold `value` |
| NTab.NarrowStep | ntab/tab.py:479-484 | after the selection at `k`, the mask is true exactly at the rows matching every selection up to `k` |
| NTab.MaskIsFilterMaskOf | ntab/tab.py:477-485 | a mask true exactly at the rows where every selection holds is what `filter_mask` returns once every name is present |
| NTab.Matching | ntab/tab.py:493 | the rows where every selection holds, ascending, each a valid row |
| NTab.FilterKeepsMatchingRows | ntab/tab.py:488-489 | `filter` keeps from every column exactly the rows where every selected column holds its value, in order; a missing name raises `KeyError` for the first one and no selections raise `ValueError("wrong shape")` |
| NTab.FindUnique | ntab/tab.py:492-499 | `find` gives row `i` exactly when `i` is the only row where every selection holds |
| NTab.FindInMatching | ntab/tab.py:492-499 | `find` raises `LookupError("no item")` for no matching row, gives the row for one, and raises `LookupError("multiple items")` for several |
| NTab.FindMisses | ntab/tab.py:494-499 | `find` reports "no item" exactly when no row matches, and "multiple items" whenever two rows match |
| NTab.MatchingNone | ntab/tab.py:493-495 | no position is matched exactly when no row matches |
| NTab.MatchingTwo | ntab/tab.py:496-499 | two matching rows make at least two matched positions |
| NTab.Table.Snapshot | ntab/tab.py:307-309 | the table's two fields, the row count and the arrays, as a value |
| NTab.Table.Of | ntab/tab.py:307-314 | `__construct` sets the row count and the arrays |
| NTab.Table.NumRows | ntab/tab.py:407-409 | `num_rows` is 0 for a table whose row count was never set, and the row count otherwise, which every array has |
| NTab.Table.NumCols | ntab/tab.py:412-414 | `num_cols` is 0 exactly when the table has no arrays |
| NTab.Table.ColumnNames | ntab/tab.py:417-419 | `names` lists every array name exactly once |
| NTab.Table.Add | ntab/tab.py:433-453 | `add` changes the table to exactly `AddState` of its old state when that succeeds, and otherwise fails with its error and leaves the table unchanged |
| NTab.Table.Remove | ntab/tab.py:456-463 | `remove` changes the table to exactly `RemoveState` of its old state, or fails with `ValueError(name)` leaving it unchanged |
| NTab.Table.Mask | ntab/tab.py:469-474 | `mask` fails exactly as `MaskState` does and otherwise returns a fresh table holding its result |
| NTab.Table.FilterMask | ntab/tab.py:477-485 | the loop that narrows a mask in place returns exactly `FilterMaskOf`: a mask true exactly at the rows where every selection holds |
| NTab.Table.Filter | ntab/tab.py:488-489 | `filter` fails exactly as `FilterOf` does and otherwise returns a fresh table holding its result |
| NTab.Table.Find | ntab/tab.py:492-499 | `find` gives exactly `FindIn`: the position of the only matching row, or `LookupError` |
| NTab.NewTable | ntab/tab.py:331-366 | `Table(...)` fails exactly as `InitState` does and otherwise returns a fresh table holding its result |
| NTab.FromRecs | ntab/tab.py:578-590 | `from_recs` raises `StopIteration` for no records and `KeyError` for the first later key the first record lacks; for records sharing their keys it is a table with the first record's names in order, one row per record, each cell being that record's value |
| NTab.RecsState | ntab/tab.py:586-590 | the columns collected from records sharing their names make a table of one row per record, each cell that record's value |
| GroupBys.AscendingIndex | ntab/groupby.py:56-57 | in strictly ascending distinct values, comparing two values is comparing their positions, and equal values sit at one position |
| GroupBys.DistinctCount | ntab/groupby.py:49-51 | strictly ascending values have as many distinct values as entries, so the length of `unique` counts the distinct values |
| GroupBys.IncreasingUnique | ntab/groupby.py:36 | two increasing lists of row positions with the same members are equal |
| GroupBys.Dedup | ntab/groupby.py:23 | an ascending sequence with repeats dropped is strictly ascending and holds exactly the same values |
| GroupBys.SortedValues | ntab/groupby.py:23 | the values in stable sort order are ascending, a rearrangement of the array by `argsort`, with the same values |
| GroupBys.EdgeAt | ntab/groupby.py:35 | a run edge never passes the end of the array |
| GroupBys.RowsOf | ntab/groupby.py:36 | the rows holding a value, each once, in ascending row order |
| GroupBys.EdgesMonotone | ntab/groupby.py:35 | consecutive edges are ordered, so every edge pair bounds a slice of the sort order |
| GroupBys.RunMember | ntab/groupby.py:33-36 | every row between the edges of `u[i]` holds `u[i]` |
| GroupBys.PositionOf | ntab/groupby.py:33-36 | every row appears in the sort order, at a position holding its own value |
| GroupBys.InRun | ntab/groupby.py:33-36 | a sort position holding `u[i]` lies between that value's edges |
| GroupBys.RunSlice | ntab/groupby.py:36 | `order[e0:e1]` for the edges of `u[i]`, one position per entry between the edges |
| GroupBys.RunCovers | ntab/groupby.py:36 | every row holding `u[i]` is in its run |
| GroupBys.RunHolds | ntab/groupby.py:36 | every row in the run of `u[i]` holds `u[i]` |
| GroupBys.RunIncreasing | ntab/groupby.py:36 | the run lists its rows in row order, since the sort is stable |
| GroupBys.EqualRunIncreasing | ntab/groupby.py:33-36 | a stretch of a stable sort order whose rows all hold one value lists them in increasing row order |
| GroupBys.RunIsGroup | ntab/groupby.py:33-36 | for distinct ascending values covering the array, the stretch of the sort order between the edges of `u[i]` is exactly the rows holding `u[i]`, in row order |
| GroupBys.ArgUniqueOf | ntab/groupby.py:19-24 | `argunique` gives the stable sort order, the distinct values ascending and covering the array, and one more edge than values, edge `i` being where the run of `u[i]` starts |
| GroupBys.ArgUniqueRuns | ntab/groupby.py:33-36 | each run of `argunique(a)` is exactly the rows holding its value, in row order |
| GroupBys.RunsPartition | ntab/groupby.py:32-36 | every row lies in exactly one run, the run of its own value |
| GroupBys.RunOfIff | ntab/groupby.py:32-36 | row `j` lies in run `i` exactly when it holds run `i`'s value |
| GroupBys.GroupIsFilter | ntab/groupby.py:36 | a group is what `filter(name=v)` gives: the rows whose array `name` holds `v` |
| GroupBys.ArgUniqueRunsAre | ntab/groupby.py:33-36 | `argunique(a)` splits `a` into runs, each exactly the rows holding its value |
| GroupBys.TakeRun | ntab/groupby.py:36 | `_take_rows` of run `i` is the group of that run's value |
| GroupBys.RunGroups | ntab/groupby.py:32-36 | walking the edge pairs gives one group per distinct value, in ascending order |
| GroupBys.SingleGroupBy.constructor | ntab/groupby.py:12-15 | keeps the table and the name, nothing computed yet |
| GroupBys.SingleGroupBy.ArgUniqueCached | ntab/groupby.py:18-24 | the first call computes `argunique` of the array and keeps it; later calls return what is kept |
| GroupBys.SingleGroupBy.Keys | ntab/groupby.py:27-29 | `keys()` are the distinct values of the array, strictly ascending, and exactly its values |
| GroupBys.SingleGroupBy.Len | ntab/groupby.py:49-51 | `len` is the number of distinct values of the array |
| GroupBys.SingleGroupBy.Values | ntab/groupby.py:32-36 | `values()` is the group of each distinct value, ascending |
| GroupBys.SingleGroupBy.Items | ntab/groupby.py:39-43 | `items()` pairs each distinct value, ascending, with its group |
| GroupBys.SingleGroupBy.Get | ntab/groupby.py:54-60 | `g[v]` is the group of `v` when some row holds `v`, and `KeyError(v)` otherwise |
| GroupBys.NewSingleGroupBy | ntab/groupby.py:12-15 | a name the table lacks raises `KeyError`; otherwise a group-by of that table and name, nothing computed yet |
| GroupBys.GetAsWritten | ntab/groupby.py:54-60 | as written, with the imports the file lacks supplied, `g[v]` gives the group of `v` or fails with `KeyError(v)` or an `IndexError` at the end of `unique` |
| GroupBys.GetPastEnd | ntab/groupby.py:56-57 | grouping `x = [1]` and asking for `2` raises `IndexError` as written (with the missing imports supplied), not the `KeyError` a mapping owes |
| GroupBys.GetNAsWritten | ntab/groupby.py:99-109 | as written, with the imports the file lacks supplied, the group-by over several tables gives the groups of `v` exactly when some array holds `v`, and otherwise `KeyError(v)`, or `IndexError` exactly when `v` is above every key |
| GroupBys.GetNPastEnd | ntab/groupby.py:101-102 | one table `x = [1]` grouped by `x` and asked for `2` raises `IndexError` as written, not the `KeyError` a mapping owes |
| GroupBys.GroupNames | ntab/groupby.py:69-75 | a single name serves every table; a sequence of names must have one per table, else `ValueError("wrong number of names")` |
| GroupBys.Concat | ntab/groupby.py:90 | all the arrays' values together: a value is among them exactly when some array holds it |
| GroupBys.ArgUniqueNOf | ntab/groupby.py:82-91 | `arguniquen` gives each array's stable sort order, the distinct values over all arrays ascending, and per value one edge per array where its run starts |
| GroupBys.UniqueNCovers | ntab/groupby.py:90 | the shared distinct values cover every array |
| GroupBys.GroupsFor | ntab/groupby.py:103-107 | one group of `v` per table, in table order |
| GroupBys.ArgUniqueNRunsAre | ntab/groupby.py:126-132 | in every array, each run over the shared values is exactly the rows holding its value |
| GroupBys.TakeRunN | ntab/groupby.py:104 | `_take_rows` of run `i` in table `k` is that table's group of the run's value |
| GroupBys.GroupsAt | ntab/groupby.py:103-107 | zipping the tables with their orders and edges gives the groups of run `i`'s value, one per table |
| GroupBys.RunGroupsN | ntab/groupby.py:126-132 | walking the edge pairs gives, per distinct value in ascending order, its groups |
| GroupBys.GroupBy.constructor | ntab/groupby.py:68-79 | keeps the tables and one name per table, nothing computed yet |
| GroupBys.GroupBy.ArgUniqueCached | ntab/groupby.py:82-91 | the first call computes `arguniquen` of the arrays and keeps it; later calls return what is kept |
| GroupBys.GroupBy.Keys | ntab/groupby.py:112-114 | `keys()` are the distinct values over all arrays, strictly ascending, and exactly the values some array holds |
| GroupBys.GroupBy.Len | ntab/groupby.py:94-96 | `len` is the number of distinct values over all arrays |
| GroupBys.GroupBy.Get | ntab/groupby.py:99-109 | corrected: `g[v]` is the group of `v` in every table when some array holds `v`, and `KeyError(v)` otherwise, also above the largest key |
| GroupBys.GroupBy.IterValues | ntab/groupby.py:119-132 | `itervalues()` gives, per distinct value in ascending order, its groups in every table |
| GroupBys.GroupBy.Map | ntab/groupby.py:142-143 | with `items()` taken as the distinct values paired with `itervalues()`, `map(fn)` is `fn(v, *groups)` for each distinct value `v`, ascending |
| GroupBys.GroupByArraysAsWritten | ntab/groupby.py:68-79 | as written, with `tupleize` supplied, construction fails on a bad name count and otherwise raises `AttributeError` on any non-empty list of tables |
| GroupBys.NewGroupBy | ntab/groupby.py:68-79 | a bad name count raises `ValueError`; a name its table lacks raises `KeyError`; otherwise a group-by of those tables and names, nothing computed yet |
| GroupBys.GroupByArraysFails | ntab/groupby.py:79 | one table `x = [1]` grouped by `x`: construction raises as written, though the table has the array `x` |
| Fn.NamedArrays | ntab/fn.py:10 | the pairs `(n, tab.arrs[n])` for the selected names, one per name, in order |
| Fn.SelectArrsSelects | ntab/fn.py:5-10 | `select_arrs` fails only as `select_ordered` fails; otherwise the new table holds exactly the selected arrays, unchanged, with the table's row count (0 when nothing is selected), in the selected order when no name repeats |
| Fn.NamedArraysDict | ntab/fn.py:10 | the dict built from the named pairs has exactly those names, each with its array of the row count, in order when distinct, and is empty only for no names |
| Fn.NamedArraysInOrder | ntab/fn.py:10 | distinct names keep their order in the dict built from them |
| Fn.ConstOf | ntab/fn.py:49-52 | the names whose arrays have entries all equal to the first, each mapped to that value |
| Fn.ConstCols | ntab/fn.py:33-54 | `get_const` maps exactly the columns whose every entry equals their first, in a table with rows, to that value; a table without rows has none |
| Fn.ConstOfAll | ntab/fn.py:49-52 | when every named array is constant, every distinct name is kept, in order |
| Fn.ConstOfSnoc | ntab/fn.py:49-52 | one more array is added, with its first value, exactly when it is constant |
| Fn.OneRowAllConst | ntab/fn.py:37-38 | in a table of one row every column is constant, in table order, mapped to its only value |
| Fn.GetConst | ntab/fn.py:33-54 | the loop over the arrays returns exactly `ConstCols` of the table |
| Fn.RenameOneAsWritten | ntab/fn.py:29 | as written, one rename raises `KeyError` for a missing old name and otherwise, on success, does what the intended rename does; when it fails the table is left with no columns and `ValueError("wrong length")` |
| Fn.RenameAddAgrees | ntab/fn.py:29 | when the `add` of a rename as written succeeds, its table is the intended rename's |
| Fn.RenameOne | ntab/fn.py:29 | one rename raises `KeyError(old)` exactly when `old` is missing; otherwise the array moves from `old` to `new`, other columns and the row count stay |
| Fn.EnsuredOne | ntab/tab.py:23-51 | a one-dimensional array of the expected length passes `_ensure_array` unchanged |
| Fn.RenameOneAsWrittenAgrees | ntab/fn.py:29 | while another column remains, the rename as written does exactly the intended rename |
| Fn.AddOneKept | ntab/tab.py:433-453 | adding one array of the row count to a table with columns assigns it and keeps the row count |
| Fn.RenameOnlyColumn | ntab/fn.py:29 | renaming the only column of a table with rows raises `ValueError` as written and leaves no columns and 0 rows; the intended rename keeps the array under the new name with the row count |
| Fn.RenameAll | ntab/fn.py:28-29 | the renames, applied in order, keep the table valid and its row count |
| Fn.RenameAllKeyError | ntab/fn.py:25-29 | `rename` fails only with the `KeyError` of one of the given old names |
| Fn.Rename | ntab/fn.py:13-29 | `rename` changes the table in place to exactly what the renames applied in order give, stopping at the first missing name with its `KeyError` |
| Fn.RemoveConstAsWritten | ntab/fn.py:58-67 | as written, `remove_const` succeeds exactly when one column is constant, then removing it and returning `get_const`'s result; otherwise it raises and changes nothing |
| Fn.RemoveAllDrops | ntab/fn.py:66 | removing distinct present names one at a time drops exactly those columns, keeps the others unchanged, and keeps the row count while a column is left |
| Fn.RemoveConst | ntab/fn.py:58-67 | `remove_const` returns `get_const`'s result and leaves the table with exactly the constant columns removed |
| Fn.RemoveConstLeavesVaried | ntab/fn.py:58-67 | after `remove_const` the table holds exactly the columns that are not constant, unchanged; a table without rows keeps them all |
| Fn.RemoveConstNoRows | ntab/fn.py:65-66 | on a table without rows `remove_const` as written raises `TypeError`, where the intended one returns nothing and leaves the table unchanged |

## Left out

- Text and HTML rendering, `__repr__`/`__str__`, CSV and file I/O, and the numpy/pandas interchange (`from_array`, `from_dataframe`, `to_dataframe`): presentation, file access and foreign library calls.
- Floating point, NaN/NaT, dtypes and `nplib.same`: arrays hold integers or strings only. Element-wise column equality is a parameter of `Columns.Column.Equals`.
- `nplib.argunique` and `nplib.arguniquen` are not part of this model's source files. They are defined by the decomposition contract their callers in `ntab/groupby.py` rely on.
- Iterators and generators are modelled as the finite sequences they yield, so laziness is not modelled. So is `iterize`, which yields the elements `tupleize` returns.
- Aliasing: arrays are values, so two tables that share a numpy array, and writes through one of them, are not modelled.
- `str()` of column names (`ntab/tab.py:439`, `tabella/index.py:15`): names are strings throughout.
- `tabela/table.py` `add`/`remove` refer to an attribute the class does not have. The `ntab/tab.py` `add`/`remove` semantics are modelled instead.
- `ntab/tab.py` `Row`, `RowsProxy`, and `ArraysProxy.select`/`renamed`/`sorted_as`: thin proxies over the modelled table operations. `ArraysProxy.__setitem__`/`__delitem__` enter the model as the `add`/`remove` calls that `rename` makes.
- `Table.wrap`, `RowsProxy.__len__` and `Table.group_by` in `ntab/tab.py` fail on every call (wrong argument count, missing attribute, class never imported).
- Attribute-access sugar, `col_fn`/`collect` (signature reflection), `container.regex` (Python's regex engine), and the random data generators.
- The imports of `ntab/groupby.py` (lines 1-4) bring in neither `np` nor `nplib` nor `tupleize`. As written, every `SingleGroupBy` query (lines 23, 56) and `GroupBy.__len__`/`__getitem__` (lines 90, 101) raise `NameError`, and so does `GroupBy(tables, names)` with a sequence of names (line 73). The model takes these names as imported from numpy, `nplib` and `tabella/lib/py.py`, and its group-by members describe the code with those imports supplied.
- `__iter__ = keys` (`ntab/groupby.py:46`, `:117`) makes `iter(g)` return an ndarray, which is not an iterator, so `iter(g)` raises `TypeError`. So do the `items()` and `values()` that `GroupBy` inherits from `Mapping`, since they iterate over `g`, and with them `GroupBy.map` (line 143) and `GroupBy.iteritems` (line 137) once consumed. The model has no `__iter__`; `keys()` is modelled, and `iteritems` is not modelled.
- GroupBys.GroupBy.Map: takes `items()` as the distinct values paired with their groups from `itervalues()`, the pairs a `Mapping` would give. As written it raises `TypeError`, as the line above says.
- Build.FromRecs: `tabella/table.py`, the `Table` that `tabella/build.py:3` imports, is not part of this model. The model builds `tabela/table.py`'s `Table` from the generated `(name, array)` pairs, taken in order as a dict. That constructor as written calls `cols.items()` (`tabela/table.py:94`), which the generator passed at `tabella/build.py:33` does not have.
- The `dtypes` argument of `from_row_seqs`: it does not affect the result, and the model has no such parameter.
- Memo.KwTuples: a call's keyword arguments are given already in ascending name order. So the key ignoring the order in which they were written holds by construction, not by a proof about `sorted`.
- NTab.FindIn: `find` returns the matching row's position, where the source returns a `Row` view of that position.
- NTab.EnsureArray: broadcasting a scalar with no length given is modelled as the `ValueError("not one-dimensional")` that the zero-dimensional result meets.
- Fn.ConstCols: its contract states which columns are constant and their values. It proves the order of its names only for tables where every column is constant (`Fn.OneRowAllConst`, `Fn.ConstOfAll`).
- Containers.DictOr: the union of two dicts is the merge Python 3.9 added; before 3.9 it raises `TypeError`, which the model does not follow.
- ntab/lib/container.py is not part of this model, although ntab/fn.py:1 imports it. `Fn.SelectArrs` uses `select_ordered` from tabela/lib/container.py (`Containers.SelectOrdered`) in its place.

## Findings

| source | as written | input that shows it | evidently intended | confidence | as-written member | corrected member |
|---|---|---|---|---|---|---|
| tabella/index.py:98-100 | `a[i0]` is read right after `searchsorted`, which returns the end of the range when the key is above every value | a one-column index holding `1`, looked up with `2` | a missing key raises `KeyError` | not executed | Indexes.ProbeAsWritten | Indexes.Probe |
| ntab/groupby.py:56-57 | `unique[i]` is read right after `searchsorted`, past the end when the value is above every key (once the missing imports are supplied; without them a `NameError` comes first) | group-by of `x = [1]`, asked for `2` | an absent value raises `KeyError` | not executed | GroupBys.GetAsWritten | GroupBys.SingleGroupBy.Get |
| ntab/groupby.py:101-102 | the same read of `unique[i]` right after `searchsorted`, in the group-by over several tables | one table `x = [1]` grouped by `x`, asked for `2` | an absent value raises `KeyError` | not executed | GroupBys.GetNAsWritten | GroupBys.GroupBy.Get |
| ntab/groupby.py:79 | the constructor reads `t.arrays[n]`, an attribute tables do not have | `GroupBy([Table(x=[1])], "x")` | each table's array by name | not executed | GroupBys.GroupByArraysAsWritten | GroupBys.NewGroupBy |
| tabela/lib/container.py:81-86 | `_Container` defines `__and___` (three underscores), so `only(...) & c` has no `&` | `only("a") & all_but("b")` | the conjunction container | not executed | Containers.AndWithAsWritten | Containers.AndWith |
| tabela/series.py:52-74 | `len`, iteration and `[]` are applied to the `Index` itself, which supports none of them | any series with one row | the same views over `index.rows` | not executed | SeriesViews.LenAsWritten | SeriesViews.Series.Len |
| tabela/lib/memo.py:11 | the key is the positional arguments followed directly by the sorted keyword items | `f(("a", 1))` and `f(a=1)` | different calls get different keys | not executed | Memo.KeyAsWritten | Memo.Key |
| ntab/tab.py:447-451 | a table without columns takes the first new array's length before `__check`, and keeps it when the check fails | `Table().add(a=[1, 2], b=[1])` | a rejected `add` changes nothing | not executed | NTab.AddAsWritten | NTab.AddState |
| ntab/fn.py:29 | `tab.arrs.pop(old)` removes the only column, which sets the row count to 0, so the re-`add` under the new name is rejected | `rename(Table(x=[1, 2]), y="x")` | the array moves to the new name | not executed | Fn.RenameOneAsWritten | Fn.RenameOne |
| ntab/fn.py:66 | `tab.remove(*const)` passes every constant name to `remove`, which takes one | `remove_const` on a table without rows | every constant column is removed | not executed | Fn.RemoveConstAsWritten | Fn.RemoveConst |
