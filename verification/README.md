# tables-kt columns, table builder and text-envelope headers, in Dafny

This project models three parts of the tables-kt columnar table library
(package `space.kscience.tables`):

- **Columns** (`ListColumn`): a named, typed column backed by a list of
  nullable cells. Lookup by index is total. `map` keeps the length and the
  name.
- **The mutable table builder** (`ColumnTableBuilder`): a fixed `rowsSize` and
  an ordered column list. Columns can be added, removed, replaced, filled
  from a generator, or derived from a row expression. Two `require` checks
  guard every addition: the column length must match and the name must be
  unused.
- **The header half of the text envelope codec** (`toTextEnvelope` /
  `readTextRows`): each column header is written as a metadata descriptor
  under `column[i]`. On decode the descriptors are sorted by the numeric
  value of `i` and the headers are rebuilt.

The model uses value semantics throughout. A builder state is an immutable
`ColumnTableBuilder(rowsSize, columns)`. Each mutating call is a pure
function that returns an `Outcome`: the state after the call, plus the
exception it threw, if any. This keeps the library's non-atomic behaviour
visible. `addColumn` checks before it mutates, so a failure leaves the state
unchanged. The `set` operators and the `values` setter remove the old
column before the size check runs, so a failed replace still loses the old
column.

Files:

- `wrappers.dfy`: `Option` (Kotlin `null`) and `Result` (thrown exceptions).
- `metadata.dfy`: the metadata tree, reduced to its emptiness test.
- `list_column.dfy`: column headers, columns, `getOrNull`, the companion
  constructors and `map`.
- `column_table_builder.dfy`: the builder, the table invariants, and their
  preservation.
- `int_text.dfy`: `Int.toString` and `String.toInt` on decimal text.
- `text_table_envelope.dfy`: header encoding, numeric-key sorting, header
  decoding, and the round trip.
- `scenario.dfy`: the repository test's build sequence on three rows.

Behaviour of the code that the model keeps on purpose:

- A derived or replaced column is not added atomically. The old column is
  already gone when the size check throws (`ReplaceIsNotAtomic`).
- `readTextRows` parses the index keys only while comparing them
  (`sortedBy`). With a single descriptor, a non-numeric key is never parsed
  and does not fail. With two or more descriptors it throws. A bare
  `column` entry (null key) sorts first.
- Column names are not checked to be non-empty.
- The metadata emptiness test treats a tree whose nodes are all empty as
  empty. Such metadata is not written, and it decodes as the empty tree.

## Model

| member | source | states |
|---|---|---|
| ListColumns.ListValuesAreStoredCells | src/commonMain/kotlin/space/kscience/tables/ListColumn.kt:13-15 | reading every index in `[0, size)` gives back exactly the stored cells, nulls included, and there are `size` = backing-list-length of them |
| ListColumns.GetOrNullOutOfRange | src/commonMain/kotlin/space/kscience/tables/ListColumn.kt:15 | every index outside `[0, size)`, negative ones included, reads as absent, with no failure |
| ListColumns.Of | src/commonMain/kotlin/space/kscience/tables/ColumnTableBuilder.kt:46 | `ListColumn(header.name, data, header.type, header.meta)` (also the header overload at line 67) carries that header, has the list's length and reads back each cell |
| ListColumns.Generate | src/commonMain/kotlin/space/kscience/tables/ListColumn.kt:24-29 | the generated column has length `size` and cell `i` = `dataBuilder(i)`; a negative size is rejected, as `List(size)` rejects it |
| ListColumns.Map | src/commonMain/kotlin/space/kscience/tables/ListColumn.kt:33-36 | `map` keeps length and name, takes the override metadata or else the source's, and cell `i` is `block(source cell i)` even where the source cell is null |
| TableBuilder.FindColumn | src/commonMain/kotlin/space/kscience/tables/ColumnTableBuilder.kt:28 | a lookup by name succeeds exactly when some column has that name, and returns a column with that name |
| TableBuilder.FindColumnFirst | src/commonMain/kotlin/space/kscience/tables/ColumnTableBuilder.kt:21 | the lookup returns the first column with the name |
| TableBuilder.GetOrNull | src/commonMain/kotlin/space/kscience/tables/ColumnTableBuilder.kt:21 | a name no column has reads as absent; in a well-formed table, no row outside `[0, rowsSize)` reads as present |
| TableBuilder.GetOrNullReadsNamedColumn | src/commonMain/kotlin/space/kscience/tables/ColumnTableBuilder.kt:21 | in a well-formed table, `getOrNull(row, name)` is the row of the one column with that name, and absent outside the rows |
| TableBuilder.Rows | src/commonMain/kotlin/space/kscience/tables/ColumnTableBuilder.kt:16-19 | one row view per index of `0 until rowsSize`, each referring to the builder; none when `rowsSize` is not positive |
| TableBuilder.AddColumn | src/commonMain/kotlin/space/kscience/tables/ColumnTableBuilder.kt:26-34 | succeeds iff the length matches, the name is unused and the index is valid; the size error takes precedence over the name error; on failure nothing changes; on success the column sits at the index (or last) and the other columns keep their order; well-formedness is preserved |
| TableBuilder.AddColumnThenRead | src/commonMain/kotlin/space/kscience/tables/ColumnTableBuilder.kt:21-34 | after a successful add, looking the column up by name reads exactly its cells |
| TableBuilder.AddedColumnIsFound | src/commonMain/kotlin/space/kscience/tables/ColumnTableBuilder.kt:26-34 | after a successful add, the lookup by name finds the added column itself, wherever it was inserted |
| TableBuilder.RemoveColumnUndoesAddColumn | src/commonMain/kotlin/space/kscience/tables/ColumnTableBuilder.kt:26-38 | removing the name of a column just added restores the previous state, whatever the insertion index |
| TableBuilder.Without | src/commonMain/kotlin/space/kscience/tables/ColumnTableBuilder.kt:37 | the kept columns are exactly those without the name, and distinct names stay distinct |
| TableBuilder.RemoveColumn | src/commonMain/kotlin/space/kscience/tables/ColumnTableBuilder.kt:36-38 | after removal no column has the name, every other column is still there, the row count is unchanged and well-formedness is preserved |
| TableBuilder.WithoutConcat | src/commonMain/kotlin/space/kscience/tables/ColumnTableBuilder.kt:37 | removal distributes over concatenation, so the survivors keep their relative order |
| TableBuilder.WithoutAbsentName | src/commonMain/kotlin/space/kscience/tables/ColumnTableBuilder.kt:37 | removing a name no column has changes nothing |
| TableBuilder.RemoveColumnIdempotent | src/commonMain/kotlin/space/kscience/tables/ColumnTableBuilder.kt:36-38 | removing twice equals removing once, and removal with no match is a no-op |
| TableBuilder.RemoveColumnKeepsOrder | src/commonMain/kotlin/space/kscience/tables/ColumnTableBuilder.kt:36-38 | in a well-formed table, removing the name of `c` from `xs + [c] + ys` leaves `xs + ys` |
| TableBuilder.Replace | src/commonMain/kotlin/space/kscience/tables/ColumnTableBuilder.kt:40-48 | replace succeeds iff the new column's length matches; on success the new column is last after the other columns, and on failure the old column is already removed |
| TableBuilder.SetData | src/commonMain/kotlin/space/kscience/tables/ColumnTableBuilder.kt:43-48 | `set(header, data)` succeeds iff the data length equals `rowsSize`, and otherwise leaves the table with the old column removed |
| TableBuilder.ReplaceMovesToEnd | src/commonMain/kotlin/space/kscience/tables/ColumnTableBuilder.kt:41-47 | replacing `y` in `xs + [y] + ys` yields `xs + ys + [new y]`, e.g. `[x, y, z]` becomes `[x, z, y]` |
| TableBuilder.ReplaceIsNotAtomic | src/commonMain/kotlin/space/kscience/tables/ColumnTableBuilder.kt:64-70 | writing `values` of the wrong length throws the size error and leaves `xs + ys`: the old column is gone |
| TableBuilder.SetExpression | src/commonMain/kotlin/space/kscience/tables/ColumnTableBuilder.kt:50-55 | the derived column is computed from the builder after the old column was removed; the outcome is success, with the new column last, or failure with the old column removed; well-formedness is preserved |
| TableBuilder.Fill | src/commonMain/kotlin/space/kscience/tables/ColumnTableBuilder.kt:57-62 | `fill` succeeds iff the row count is non-negative, the name is unused and the index is valid; it never fails on size; on failure nothing changes and no column is returned; well-formedness is preserved; on success it returns a column with the header, `rowsSize` cells and cell `i` = `dataBuilder(i)`, and that column is the one the table now holds under the name |
| TableBuilder.FillThenRead | src/commonMain/kotlin/space/kscience/tables/ColumnTableBuilder.kt:57-62 | after a successful fill, row `i` of the new column reads `dataBuilder(i)` for every `i` in `[0, rowsSize)`, and absent elsewhere |
| TableBuilder.Values | src/commonMain/kotlin/space/kscience/tables/ColumnTableBuilder.kt:64-65 | the `values` getter fails with column-not-found exactly when no column has the header's name; otherwise it returns as many cells as that column holds (`rowsSize` in a well-formed table), cell `i` being what `getOrNull(i, name)` reads |
| TableBuilder.SetDataThenValues | src/commonMain/kotlin/space/kscience/tables/ColumnTableBuilder.kt:64-70 | after a successful `values` write, reading `values` gives the written cells back |
| TableBuilder.ToMutableColumnTable | src/commonMain/kotlin/space/kscience/tables/ColumnTableBuilder.kt:115-116 | the builder copy has the table's row count and column list |
| TableBuilder.WithColumns | src/commonMain/kotlin/space/kscience/tables/ColumnTableBuilder.kt:122-123 | `withColumns` returns the edited copy exactly when the block returns normally, otherwise the block's exception; the copy keeps the source's row count and holds the block's column list |
| TableBuilder.WithColumnsNoEdit | src/commonMain/kotlin/space/kscience/tables/ColumnTableBuilder.kt:115-123 | a block that edits nothing gives back a table equal to the source (a shallow copy) |
| TableBuilder.WithColumnsRemove | src/commonMain/kotlin/space/kscience/tables/ColumnTableBuilder.kt:122-123 | removing a column inside the block keeps the row count and the other columns in order, and drops the name |
| IntText.ParseInt | src/commonMain/kotlin/space/kscience/tables/io/textTableEnvelope.kt:45 | `toInt` accepts only values in the `Int` range, rejects the empty string, and unsigned text never yields a negative value |
| IntText.DigitsValueOfNatToString | src/commonMain/kotlin/space/kscience/tables/io/textTableEnvelope.kt:23 | the digits written for an index read back as that index |
| IntText.ParseIntOfNatToString | src/commonMain/kotlin/space/kscience/tables/io/textTableEnvelope.kt:23-45 | an index written by `toString` is read back unchanged by `toInt` |
| IntText.NatToStringInjective | src/commonMain/kotlin/space/kscience/tables/io/textTableEnvelope.kt:23 | distinct column positions get distinct keys |
| TextEnvelope.DescriptorOf | src/commonMain/kotlin/space/kscience/tables/io/textTableEnvelope.kt:23-28 | the descriptor always carries the name, and carries the metadata exactly when it is not empty |
| TextEnvelope.EncodeHeaders | src/commonMain/kotlin/space/kscience/tables/io/textTableEnvelope.kt:21-30 | one descriptor per header; the header at position `i` is under key `i` |
| TextEnvelope.ToTextEnvelope | src/commonMain/kotlin/space/kscience/tables/io/textTableEnvelope.kt:20-38 | the envelope's type is always `table.value`; descriptor `i` has key `i` and column `i`'s name; the payload is the row writer's output |
| TextEnvelope.InsertByKey | src/commonMain/kotlin/space/kscience/tables/io/textTableEnvelope.kt:45 | inserting into a key-sorted list keeps it sorted and adds exactly that entry |
| TextEnvelope.SortByKey | src/commonMain/kotlin/space/kscience/tables/io/textTableEnvelope.kt:45 | the sort returns a permutation of the descriptors ordered by numeric key, with null keys first |
| TextEnvelope.SortedArrangementUnique | src/commonMain/kotlin/space/kscience/tables/io/textTableEnvelope.kt:44-45 | when keys are distinct, only one key-sorted arrangement of the descriptors exists, so the sort result does not depend on the tree's iteration order |
| TextEnvelope.HeadersOf | src/commonMain/kotlin/space/kscience/tables/io/textTableEnvelope.kt:46-48 | header rebuilding fails with the missing-name error iff some descriptor has no name; otherwise one header per descriptor with the value cell type and the metadata, or empty metadata |
| TextEnvelope.ReadTextRows | src/commonMain/kotlin/space/kscience/tables/io/textTableEnvelope.kt:43-50 | decode fails on an unparsable key only when two or more descriptors exist, and otherwise fails iff some descriptor lacks a name; on success the headers are those of a key-sorted permutation of the descriptors, all typed `Value`, and a missing payload reads as empty |
| TextEnvelope.Decoded | src/commonMain/kotlin/space/kscience/tables/io/textTableEnvelope.kt:47 | a decoded header keeps the name, gets the value cell type, and keeps non-empty metadata; empty metadata stays empty |
| TextEnvelope.EncodedStrictlySorted | src/commonMain/kotlin/space/kscience/tables/io/textTableEnvelope.kt:22-23 | the written keys parse to `0, 1, 2, ...` in order, and every written descriptor has a name |
| TextEnvelope.DecodeAnyArrangement | src/commonMain/kotlin/space/kscience/tables/io/textTableEnvelope.kt:44-48 | every ordering of the written descriptors decodes to the original headers in their original order |
| TextEnvelope.HeaderRoundTrip | src/commonMain/kotlin/space/kscience/tables/io/textTableEnvelope.kt:22-48 | decoding the envelope of a table gives back its column names in column order and its metadata, every header typed `Value`, and the payload |
| TextEnvelope.TenFollowsNine | src/commonMain/kotlin/space/kscience/tables/io/textTableEnvelope.kt:45 | keys `10` then `9` in tree order decode as `9, 10`: the order is numeric, not lexicographic, and not the tree's order |
| TextEnvelope.KeysParsedOnlyWhenCompared | src/commonMain/kotlin/space/kscience/tables/io/textTableEnvelope.kt:45 | a single descriptor with a non-numeric key decodes; two descriptors, one of them non-numeric, fail |
| Scenario.WithX | tables-kt-dataframe/src/test/kotlin/space/kscience/dataforge/dataframe/DataFrameTableTest.kt:24 | filling `x` with the row index gives `[0.0, 1.0, 2.0]` in a well-formed table |
| Scenario.WithX2 | tables-kt-dataframe/src/test/kotlin/space/kscience/dataforge/dataframe/DataFrameTableTest.kt:26 | deriving `x2 = x^2` appends `[0.0, 1.0, 4.0]` after `x` |
| Scenario.WithY | tables-kt-dataframe/src/test/kotlin/space/kscience/dataforge/dataframe/DataFrameTableTest.kt:28 | writing `y = x2 + 1` appends `[1.0, 2.0, 5.0]`; column order is `x, x2, y`, and every row of `y` is that row of `x2` plus one |
| Scenario.ScenarioHeaderRoundTrip | src/commonMain/kotlin/space/kscience/tables/io/textTableEnvelope.kt:20-50 | a table with the headers of the builder the scenario finishes with decodes to `x, x2, y` in that order, each typed `Value` |

## Left out

- Row body encoding and decoding (`writeTextRows`, `TextRows`) are not part of this model. The body is an opaque byte payload. The row writer is a function parameter, and decoding passes the bytes through.
- `dataID` is left out. It is built from an identity hash that only means something inside one process.
- The suspending `Envelope { }` builder, `buildByteArray` and `asBinary` are I/O plumbing. The envelope is a plain record.
- `rowsToColumn` is not part of this model. `SetExpression` takes it as a function parameter and applies it to the builder after the removal. `EvaluateRows` is one eager reading of it, used only by the scenario. No claim is made about caching or lazy columns.
- The property delegates `newColumn`, `column` and `fillColumn` take their name from the Kotlin property by reflection, then call `addColumn`. With an explicit name they are `AddColumn`, or `Fill` with `Generate`.
- `KType` is an opaque `TypeTag`.
- Metadata internals are opaque apart from emptiness. `item["name"].string` turns a non-string value into its text. That conversion is not modelled: a descriptor either has a name or does not.
- The helpers `Collection<Column>.getOrNull(name)` and `columns[header]` are not part of this model. Both are modelled as first-match lookup by name. A missing column in the `values` getter is the `ColumnNotFound` error.
- Reference aliasing between a builder and the shallow copies made by `toMutableColumnTable` and `withColumns` does not arise under value semantics.
- IntText.ParseInt: the model accepts ASCII digits only. Kotlin's `toInt` also accepts other Unicode decimal digits.
- `rowsSize` and list lengths are unbounded integers. The header round trip requires at most `Int.MAX_VALUE + 1` columns, because column positions are `Int`s.
- The model has no concurrency. The builder is single-threaded in the source as well.
- The dataframe interop layer is left out. Its test serves only as the scenario trace, on three rows instead of one hundred.
