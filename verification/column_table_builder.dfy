/** `ColumnTableBuilder`: a table with a fixed row count whose column list is
    edited in place. Each edit is a function from the state before the call to
    an `Outcome`: the state after the call and the exception it threw, if any.
    A thrown exception does not roll back edits made before it. */
module TableBuilder {
  import opened Wrappers
  import opened Metadata
  import opened ListColumns

  /** The builder's state: the row count fixed at construction and the
      column list in table order. */
  datatype ColumnTableBuilder<T> = ColumnTableBuilder(rowsSize: int, columns: seq<Column<T>>)

  /** A table seen from outside: the same two components, read only. */
  datatype ColumnTable<T> = ColumnTable(rowsSize: int, columns: seq<Column<T>>)

  /** What a mutating call leaves behind: the new state, and the exception
      it threw (`None` when it returned normally). */
  datatype Outcome<T> = Outcome(state: ColumnTableBuilder<T>, thrown: Option<TableError>) {
    predicate Ok() {
      thrown.None?
    }
  }

  /** A mutating call that also returns a value: what it leaves behind, and
      the value it returned (`None` exactly when it threw). */
  datatype Returning<T, R> = Returning(outcome: Outcome<T>, returned: Option<R>)

  /** A row view: the builder and a row index, nothing materialized. */
  datatype Row<T> = VirtualRow(table: ColumnTableBuilder<T>, index: int)

  predicate NameInUse<T>(columns: seq<Column<T>>, name: string) {
    exists i :: 0 <= i < |columns| && columns[i].name == name
  }

  predicate DistinctNames<T>(columns: seq<Column<T>>) {
    forall i, j :: 0 <= i < j < |columns| ==> columns[i].name != columns[j].name
  }

  /** The table invariants: names pairwise distinct, every column exactly
      `rowsSize` long. The constructor does not check them for its seed list. */
  predicate WellFormed<T>(b: ColumnTableBuilder<T>) {
    && DistinctNames(b.columns)
    && forall i :: 0 <= i < |b.columns| ==> b.columns[i].Size() == b.rowsSize
  }

  /** Positions accepted by `MutableList.add(index, element)`. */
  predicate ValidInsertIndex(index: Option<int>, size: nat) {
    index.None? || 0 <= index.value <= size
  }

  /** Lookup of a column by name in a column list: the first column with
      that name, if any. */
  function FindColumn<T>(columns: seq<Column<T>>, name: string): (r: Option<Column<T>>)
    ensures r.Some? <==> NameInUse(columns, name)
    ensures r.Some? ==> r.value in columns && r.value.name == name
    decreases |columns|
  {
    if |columns| == 0 then None
    else if columns[0].name == name then Some(columns[0])
    else FindColumn(columns[1..], name)
  }

  /** The lookup returns the first column carrying the name. */
  lemma {:induction false} FindColumnFirst<T>(columns: seq<Column<T>>, k: int)
    requires 0 <= k < |columns|
    requires !NameInUse(columns[..k], columns[k].name)
    ensures FindColumn(columns, columns[k].name) == Some(columns[k])
    decreases k
  {
    if k > 0 {
      assert columns[..k][0] == columns[0];
      assert columns[1..][k - 1] == columns[k];
      var prefix := columns[1..][..k - 1];
      assert !NameInUse(prefix, columns[k].name) by {
        forall i | 0 <= i < k - 1 ensures prefix[i].name != columns[k].name {
          assert prefix[i] == columns[..k][i + 1];
        }
      }
      FindColumnFirst(columns[1..], k - 1);
    }
  }

  /** In a list with distinct names, the column found by name is the one
      carrying that name. */
  lemma FindColumnDistinct<T>(columns: seq<Column<T>>, k: int)
    requires DistinctNames(columns)
    requires 0 <= k < |columns|
    ensures FindColumn(columns, columns[k].name) == Some(columns[k])
  {
    assert !NameInUse(columns[..k], columns[k].name);
    FindColumnFirst(columns, k);
  }

  /** `getOrNull(row, column)`: find the column by name, then the row. */
  function GetOrNull<T>(b: ColumnTableBuilder<T>, row: int, name: string): (r: Option<T>)
    ensures !NameInUse(b.columns, name) ==> r == None
    ensures WellFormed(b) && r.Some? ==> 0 <= row < b.rowsSize
  {
    match FindColumn(b.columns, name)
    case None => None
    case Some(c) => c.GetOrNull(row)
  }

  /** In a well-formed builder a cell is read from the one column carrying
      the name, and out-of-range rows read as absent. */
  lemma GetOrNullReadsNamedColumn<T>(b: ColumnTableBuilder<T>, k: int, row: int)
    requires WellFormed(b)
    requires 0 <= k < |b.columns|
    ensures GetOrNull(b, row, b.columns[k].name) == b.columns[k].GetOrNull(row)
    ensures !(0 <= row < b.rowsSize) ==> GetOrNull(b, row, b.columns[k].name) == None
  {
    FindColumnDistinct(b.columns, k);
  }

  /** `rows`: one view per index in `0 until rowsSize` (none when the row
      count is not positive). */
  function Rows<T>(b: ColumnTableBuilder<T>): (r: seq<Row<T>>)
    ensures |r| == (if b.rowsSize > 0 then b.rowsSize else 0)
    ensures forall i :: 0 <= i < |r| ==> r[i].table == b && r[i].index == i
  {
    var n := if b.rowsSize > 0 then b.rowsSize else 0;
    seq(n, i requires 0 <= i < n => VirtualRow(b, i))
  }

  /** A row view reads a cell of its table by column name. */
  function RowGet<T>(row: Row<T>, name: string): Option<T> {
    GetOrNull(row.table, row.index, name)
  }

  /** `xs` with `column` inserted before position `at`. */
  function InsertAt<T>(xs: seq<Column<T>>, at: int, column: Column<T>): (r: seq<Column<T>>)
    requires 0 <= at <= |xs|
    ensures |r| == |xs| + 1
    ensures r[at] == column
    ensures r[..at] + r[at + 1..] == xs
    ensures forall i :: 0 <= i < at ==> r[i] == xs[i]
    ensures forall i :: at < i < |r| ==> r[i] == xs[i - 1]
  {
    var r := xs[..at] + [column] + xs[at..];
    assert r[..at] == xs[..at] && r[at + 1..] == xs[at..];
    assert xs == xs[..at] + xs[at..];
    r
  }

  /** Inserting a column of the right length under an unused name keeps the
      table invariants. */
  lemma InsertAtKeepsWellFormed<T>(b: ColumnTableBuilder<T>, at: int, column: Column<T>)
    requires 0 <= at <= |b.columns|
    requires column.Size() == b.rowsSize && !NameInUse(b.columns, column.name)
    ensures WellFormed(b) ==> WellFormed(ColumnTableBuilder(b.rowsSize, InsertAt(b.columns, at, column)))
  {
    if !WellFormed(b) {
      return;
    }
    var r := InsertAt(b.columns, at, column);
    forall i, j | 0 <= i < j < |r| ensures r[i].name != r[j].name {
      if i != at && j != at {
        var i' := if i < at then i else i - 1;
        var j' := if j < at then j else j - 1;
        assert r[i] == b.columns[i'] && r[j] == b.columns[j'];
      } else if i == at {
        assert r[j] == b.columns[j - 1];
      } else {
        assert r[i] == b.columns[i];
      }
    }
    forall i | 0 <= i < |r| ensures r[i].Size() == b.rowsSize {
      if i < at {
        assert r[i] == b.columns[i];
      } else if i > at {
        assert r[i] == b.columns[i - 1];
      }
    }
  }

  /** `addColumn(column, index)`: the size check, then the name check, both
      before any change; then append, or insert at `index`. */
  function AddColumn<T>(b: ColumnTableBuilder<T>, column: Column<T>, index: Option<int>): (r: Outcome<T>)
    ensures r.state.rowsSize == b.rowsSize
    ensures r.Ok() <==> column.Size() == b.rowsSize && !NameInUse(b.columns, column.name) && ValidInsertIndex(index, |b.columns|)
    ensures !r.Ok() ==> r.state == b
    ensures column.Size() != b.rowsSize ==> r.thrown == Some(SizeMismatch(b.rowsSize, column.Size()))
    ensures column.Size() == b.rowsSize && NameInUse(b.columns, column.name) ==> r.thrown == Some(DuplicateName(column.name))
    ensures r.Ok() ==>
              var at := index.GetOr(|b.columns|);
              && |r.state.columns| == |b.columns| + 1
              && r.state.columns[at] == column
              && r.state.columns[..at] + r.state.columns[at + 1..] == b.columns
    ensures r.Ok() && WellFormed(b) ==> WellFormed(r.state)
  {
    if column.Size() != b.rowsSize then
      Outcome(b, Some(SizeMismatch(b.rowsSize, column.Size())))
    else if FindColumn(b.columns, column.name).Some? then
      Outcome(b, Some(DuplicateName(column.name)))
    else if !ValidInsertIndex(index, |b.columns|) then
      Outcome(b, Some(IndexOutOfBounds(index.value, |b.columns|)))
    else
      var at := index.GetOr(|b.columns|);
      InsertAtKeepsWellFormed(b, at, column);
      Outcome(ColumnTableBuilder(b.rowsSize, InsertAt(b.columns, at, column)), None)
  }

  /** The column list with every column named `name` removed, the others in
      their original order. */
  function Without<T>(columns: seq<Column<T>>, name: string): (r: seq<Column<T>>)
    ensures |r| <= |columns|
    ensures forall i :: 0 <= i < |r| ==> r[i] in columns && r[i].name != name
    ensures forall i :: 0 <= i < |columns| && columns[i].name != name ==> columns[i] in r
    ensures !NameInUse(r, name)
    ensures DistinctNames(columns) ==> DistinctNames(r)
    decreases |columns|
  {
    if |columns| == 0 then []
    else
      var rest := Without(columns[1..], name);
      if columns[0].name == name then rest
      else
        assert forall i :: 0 <= i < |rest| ==> rest[i] in columns[1..];
        assert DistinctNames(columns) ==> forall i :: 0 <= i < |rest| ==> rest[i].name != columns[0].name;
        [columns[0]] + rest
  }

  /** `removeColumn(name)`: a remove-all by name. */
  function RemoveColumn<T>(b: ColumnTableBuilder<T>, name: string): (r: ColumnTableBuilder<T>)
    ensures r.rowsSize == b.rowsSize
    ensures !NameInUse(r.columns, name)
    ensures forall i :: 0 <= i < |r.columns| ==> r.columns[i] in b.columns && r.columns[i].name != name
    ensures forall i :: 0 <= i < |b.columns| && b.columns[i].name != name ==> b.columns[i] in r.columns
    ensures WellFormed(b) ==> WellFormed(r)
  {
    ColumnTableBuilder(b.rowsSize, Without(b.columns, name))
  }

  /** Removing distributes over concatenation: survivors keep their order. */
  lemma {:induction false} WithoutConcat<T>(xs: seq<Column<T>>, ys: seq<Column<T>>, name: string)
    ensures Without(xs + ys, name) == Without(xs, name) + Without(ys, name)
    decreases |xs|
  {
    if |xs| == 0 {
      assert xs + ys == ys;
    } else {
      assert (xs + ys)[1..] == xs[1..] + ys;
      WithoutConcat(xs[1..], ys, name);
    }
  }

  /** Removing a name no column carries changes nothing. */
  lemma {:induction false} WithoutAbsentName<T>(columns: seq<Column<T>>, name: string)
    requires !NameInUse(columns, name)
    ensures Without(columns, name) == columns
    decreases |columns|
  {
    if |columns| > 0 {
      assert !NameInUse(columns[1..], name) by {
        forall i | 0 <= i < |columns[1..]| ensures columns[1..][i].name != name {
          assert columns[1..][i] == columns[i + 1];
        }
      }
      WithoutAbsentName(columns[1..], name);
    }
  }

  /** `removeColumn` is idempotent, and a no-op when nothing matches. */
  lemma RemoveColumnIdempotent<T>(b: ColumnTableBuilder<T>, name: string)
    ensures RemoveColumn(RemoveColumn(b, name), name) == RemoveColumn(b, name)
    ensures !NameInUse(b.columns, name) ==> RemoveColumn(b, name) == b
  {
    WithoutAbsentName(RemoveColumn(b, name).columns, name);
    if !NameInUse(b.columns, name) {
      WithoutAbsentName(b.columns, name);
    }
  }

  /** Removing the name of the one column that carries it from
      `xs + [c] + ys` leaves `xs + ys`. */
  lemma WithoutUniqueName<T>(xs: seq<Column<T>>, c: Column<T>, ys: seq<Column<T>>)
    requires !NameInUse(xs, c.name) && !NameInUse(ys, c.name)
    ensures Without(xs + [c] + ys, c.name) == xs + ys
  {
    assert Without([c], c.name) == [] by {
      assert [c][1..] == [];
    }
    WithoutConcat(xs, [c], c.name);
    WithoutAbsentName(xs, c.name);
    assert Without(xs + [c], c.name) == xs;
    WithoutConcat(xs + [c], ys, c.name);
    WithoutAbsentName(ys, c.name);
  }

  /** `removeColumn` keeps the remaining columns in their order: removing the
      one column named `name` from `xs + [c] + ys` leaves `xs + ys`. */
  lemma RemoveColumnKeepsOrder<T>(b: ColumnTableBuilder<T>, xs: seq<Column<T>>, c: Column<T>, ys: seq<Column<T>>)
    requires WellFormed(b)
    requires b.columns == xs + [c] + ys
    ensures RemoveColumn(b, c.name).columns == xs + ys
  {
    assert !NameInUse(xs, c.name) by {
      forall i | 0 <= i < |xs| ensures xs[i].name != c.name {
        assert b.columns[i] == xs[i] && b.columns[|xs|] == c;
      }
    }
    assert !NameInUse(ys, c.name) by {
      forall i | 0 <= i < |ys| ensures ys[i].name != c.name {
        assert b.columns[|xs| + 1 + i] == ys[i] && b.columns[|xs|] == c;
      }
    }
    WithoutUniqueName(xs, c, ys);
  }

  /** `removeColumn` undoes a successful `addColumn`. */
  lemma RemoveColumnUndoesAddColumn<T>(b: ColumnTableBuilder<T>, column: Column<T>, index: Option<int>)
    requires AddColumn(b, column, index).Ok()
    ensures RemoveColumn(AddColumn(b, column, index).state, column.name) == b
  {
    var at := index.GetOr(|b.columns|);
    var xs, ys := b.columns[..at], b.columns[at..];
    assert AddColumn(b, column, index).state.columns == xs + [column] + ys;
    assert b.columns == xs + ys;
    assert !NameInUse(xs, column.name) by {
      forall i | 0 <= i < |xs| ensures xs[i].name != column.name {
        assert xs[i] == b.columns[i];
      }
    }
    assert !NameInUse(ys, column.name) by {
      forall i | 0 <= i < |ys| ensures ys[i].name != column.name {
        assert ys[i] == b.columns[at + i];
      }
    }
    WithoutUniqueName(xs, column, ys);
  }

  /** After a successful `addColumn` the column is found by its name and
      reads back its own cells. */
  lemma AddColumnThenRead<T>(b: ColumnTableBuilder<T>, column: Column<T>, index: Option<int>, row: int)
    requires AddColumn(b, column, index).Ok()
    ensures GetOrNull(AddColumn(b, column, index).state, row, column.name) == column.GetOrNull(row)
  {
    AddedColumnIsFound(b, column, index);
  }

  /** After a successful `addColumn`, looking the name up finds the added
      column itself. */
  lemma AddedColumnIsFound<T>(b: ColumnTableBuilder<T>, column: Column<T>, index: Option<int>)
    requires AddColumn(b, column, index).Ok()
    ensures FindColumn(AddColumn(b, column, index).state.columns, column.name) == Some(column)
  {
    var after := AddColumn(b, column, index).state;
    var at := index.GetOr(|b.columns|);
    assert !NameInUse(after.columns[..at], column.name) by {
      forall i | 0 <= i < at ensures after.columns[..at][i].name != column.name {
        assert after.columns[..at][i] == (after.columns[..at] + after.columns[at + 1..])[i];
      }
    }
    FindColumnFirst(after.columns, at);
  }

  /** Replacement as the `set` operators and the `values` setter perform it:
      remove every column with the new column's name, then append it.
      The removal happens even when the size check then throws. */
  function Replace<T>(b: ColumnTableBuilder<T>, column: Column<T>): (r: Outcome<T>)
    ensures r.Ok() <==> column.Size() == b.rowsSize
    ensures !r.Ok() ==> r.state == RemoveColumn(b, column.name)
    ensures r.Ok() ==> r.state.columns == RemoveColumn(b, column.name).columns + [column]
    ensures r.Ok() && WellFormed(b) ==> WellFormed(r.state)
  {
    var removed := RemoveColumn(b, column.name);
    var r := AddColumn(removed, column, None);
    assert r.Ok() ==> r.state.columns[..|removed.columns|] == removed.columns;
    r
  }

  /** `set(header, data)` and the `values` setter: replace the column named by
      `header` with one holding `data`. */
  function SetData<T>(b: ColumnTableBuilder<T>, header: ColumnHeader, data: seq<Option<T>>): (r: Outcome<T>)
    ensures r.Ok() <==> |data| == b.rowsSize
    ensures !r.Ok() ==> r.state == RemoveColumn(b, header.name)
  {
    Replace(b, Of(header, data))
  }

  /** `set(header, expression)`: the previous column is removed first, and the new
      one is then computed by `rowsToColumn` from the builder as it stands
      after the removal. `rowsToColumn` is not part of this model and is a
      parameter. */
  function SetExpression<T>(b: ColumnTableBuilder<T>, header: ColumnHeader,
                            rowsToColumn: (ColumnTableBuilder<T>, ColumnHeader) -> Column<T>): (r: Outcome<T>)
    ensures var removed := RemoveColumn(b, header.name);
            var column := rowsToColumn(removed, header);
            && (r.Ok() <==> column.Size() == b.rowsSize && !NameInUse(removed.columns, column.name))
            && (!r.Ok() ==> r.state == removed)
            && (r.Ok() ==> r.state.columns == removed.columns + [column])
    ensures r.Ok() && WellFormed(b) ==> WellFormed(r.state)
  {
    var removed := RemoveColumn(b, header.name);
    var r := AddColumn(removed, rowsToColumn(removed, header), None);
    assert r.Ok() ==> r.state.columns[..|removed.columns|] == removed.columns;
    r
  }

  /** One eager reading of `rowsToColumn`: evaluate `expression` once per row
      view of the given builder and store the results. */
  function EvaluateRows<T>(b: ColumnTableBuilder<T>, header: ColumnHeader, expression: Row<T> -> Option<T>): (c: Column<T>)
    ensures c.Header() == header
    ensures c.Size() == |Rows(b)|
    ensures forall i :: 0 <= i < c.Size() ==> c.GetOrNull(i) == expression(VirtualRow(b, i))
  {
    var rows := Rows(b);
    Of(header, seq(|rows|, i requires 0 <= i < |rows| => expression(rows[i])))
  }

  /** `fill(index, dataBuilder)`: generate a column of `rowsSize` cells, add
      it, and return it. Its size always matches, so the only ways to fail are
      a negative row count, a name in use and a bad index, all without
      changing the state. */
  function Fill<T>(b: ColumnTableBuilder<T>, header: ColumnHeader, index: Option<int>, dataBuilder: int -> Option<T>): (r: Returning<T, Column<T>>)
    ensures r.outcome.state.rowsSize == b.rowsSize
    ensures r.outcome.Ok() <==> b.rowsSize >= 0 && !NameInUse(b.columns, header.name) && ValidInsertIndex(index, |b.columns|)
    ensures r.returned.Some? <==> r.outcome.Ok()
    ensures !r.outcome.Ok() ==> r.outcome.state == b
    ensures !r.outcome.Ok() ==> !r.outcome.thrown.value.SizeMismatch?
    ensures r.outcome.Ok() && WellFormed(b) ==> WellFormed(r.outcome.state)
    ensures r.returned.Some? ==>
              && r.returned.value.Header() == header
              && r.returned.value.Size() == b.rowsSize
              && (forall i :: 0 <= i < b.rowsSize ==> r.returned.value.GetOrNull(i) == dataBuilder(i))
              && FindColumn(r.outcome.state.columns, header.name) == r.returned
  {
    match Generate(header, b.rowsSize, dataBuilder)
    case Failure(e) => Returning(Outcome(b, Some(e)), None)
    case Success(column) =>
      var o := AddColumn(b, column, index);
      if o.Ok() then
        AddedColumnIsFound(b, column, index);
        Returning(o, Some(column))
      else
        Returning(o, None)
  }

  /** After a successful `fill`, row `i` of the new column holds `dataBuilder(i)`. */
  lemma FillThenRead<T>(b: ColumnTableBuilder<T>, header: ColumnHeader, index: Option<int>, dataBuilder: int -> Option<T>, row: int)
    requires Fill(b, header, index, dataBuilder).outcome.Ok()
    ensures 0 <= row < b.rowsSize ==> GetOrNull(Fill(b, header, index, dataBuilder).outcome.state, row, header.name) == dataBuilder(row)
    ensures !(0 <= row < b.rowsSize) ==> GetOrNull(Fill(b, header, index, dataBuilder).outcome.state, row, header.name) == None
  {
    var column := Generate(header, b.rowsSize, dataBuilder).value;
    AddColumnThenRead(b, column, index, row);
  }

  /** The `values` getter: the cells of the column named by `header`. */
  function Values<T>(b: ColumnTableBuilder<T>, header: ColumnHeader): (r: Result<seq<Option<T>>, TableError>)
    ensures r.Failure? <==> !NameInUse(b.columns, header.name)
    ensures r.Failure? ==> r.error == ColumnNotFound(header.name)
    ensures r.Success? ==> |r.value| == FindColumn(b.columns, header.name).value.Size()
    ensures r.Success? && WellFormed(b) ==> |r.value| == b.rowsSize
    ensures r.Success? ==> forall i :: 0 <= i < |r.value| ==> r.value[i] == GetOrNull(b, i, header.name)
  {
    match FindColumn(b.columns, header.name)
    case None => Failure(ColumnNotFound(header.name))
    case Some(c) => Success(ListValues(c))
  }

  /** Writing `values` and reading them back gives the written cells. */
  lemma SetDataThenValues<T>(b: ColumnTableBuilder<T>, header: ColumnHeader, data: seq<Option<T>>)
    requires SetData(b, header, data).Ok()
    ensures Values(SetData(b, header, data).state, header) == Success(data)
  {
    var column := Of(header, data);
    var removed := RemoveColumn(b, header.name);
    AddColumnThenRead(removed, column, None, 0);
    ListValuesAreStoredCells(column);
  }

  /** Replacing a column moves it to the end: with columns `xs + [previous] + ys`,
      replacing `previous`'s name yields `xs + ys + [new]`, e.g. `[x, y, z]`
      becomes `[x, z, y]`. */
  lemma ReplaceMovesToEnd<T>(b: ColumnTableBuilder<T>, xs: seq<Column<T>>, previous: Column<T>, ys: seq<Column<T>>, column: Column<T>)
    requires WellFormed(b)
    requires b.columns == xs + [previous] + ys
    requires column.name == previous.name
    requires column.Size() == b.rowsSize
    ensures Replace(b, column) == Outcome(ColumnTableBuilder(b.rowsSize, xs + ys + [column]), None)
  {
    RemoveColumnKeepsOrder(b, xs, previous, ys);
  }

  /** Replacing with cells of the wrong length throws, and the previous column is
      gone all the same. */
  lemma ReplaceIsNotAtomic<T>(b: ColumnTableBuilder<T>, xs: seq<Column<T>>, previous: Column<T>, ys: seq<Column<T>>, header: ColumnHeader, data: seq<Option<T>>)
    requires WellFormed(b)
    requires b.columns == xs + [previous] + ys
    requires header.name == previous.name
    requires |data| != b.rowsSize
    ensures SetData(b, header, data) == Outcome(ColumnTableBuilder(b.rowsSize, xs + ys), Some(SizeMismatch(b.rowsSize, |data|)))
  {
    RemoveColumnKeepsOrder(b, xs, previous, ys);
  }

  /** `toMutableColumnTable`: a builder over a copy of the table's column list. */
  function ToMutableColumnTable<T>(t: ColumnTable<T>): (b: ColumnTableBuilder<T>)
    ensures AsTable(b) == t
  {
    ColumnTableBuilder(t.rowsSize, t.columns)
  }

  /** The builder seen as a table. */
  function AsTable<T>(b: ColumnTableBuilder<T>): ColumnTable<T> {
    ColumnTable(b.rowsSize, b.columns)
  }

  /** `withColumns(block)`: run `block` on a copy and return the copy; an
      exception thrown by `block` propagates. The row count is a `val` of the
      builder, so the block can edit the column list only. */
  function WithColumns<T>(t: ColumnTable<T>, block: ColumnTableBuilder<T> -> Outcome<T>): (r: Result<ColumnTable<T>, TableError>)
    ensures r.Success? <==> block(ToMutableColumnTable(t)).Ok()
    ensures r.Failure? ==> r.error == block(ToMutableColumnTable(t)).thrown.value
    ensures r.Success? ==> r.value.rowsSize == t.rowsSize
    ensures r.Success? ==> r.value.columns == block(ToMutableColumnTable(t)).state.columns
  {
    var o := block(ToMutableColumnTable(t));
    match o.thrown
    case None => Success(ColumnTable(t.rowsSize, o.state.columns))
    case Some(e) => Failure(e)
  }

  /** A block that edits nothing hands back a table equal to the source. */
  lemma WithColumnsNoEdit<T>(t: ColumnTable<T>)
    ensures WithColumns(t, b => Outcome(b, None)) == Success(t)
  {
  }

  /** Removing a column inside `withColumns` yields the source's rows and its
      other columns, in order, and no column with that name. */
  lemma WithColumnsRemove<T>(t: ColumnTable<T>, name: string)
    ensures var r := WithColumns(t, b => Outcome(RemoveColumn(b, name), None));
            && r.Success?
            && r.value.rowsSize == t.rowsSize
            && r.value.columns == Without(t.columns, name)
            && !NameInUse(r.value.columns, name)
  {
  }
}
