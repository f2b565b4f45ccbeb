/** The build sequence of the repository's dataframe test, on three rows:
    `x` filled with its row index, `x2` derived from `x` row by row, `y`
    written from `x2`'s values plus one; then the header round trip. */
module Scenario {
  import opened Wrappers
  import opened Metadata
  import opened ListColumns
  import opened TableBuilder
  import opened TextEnvelope

  const DOUBLE: TypeTag := TypeTag("kotlin.Double")
  const X: ColumnHeader := ColumnHeader("x", DOUBLE, EMPTY)
  const X2: ColumnHeader := ColumnHeader("x2", DOUBLE, EMPTY)
  const Y: ColumnHeader := ColumnHeader("y", DOUBLE, EMPTY)

  function Square(row: Row<real>): Option<real> {
    match RowGet(row, "x")
    case Some(v) => Some(v * v)
    case None => None
  }

  function PlusOne(cell: Option<real>): Option<real> {
    match cell
    case Some(v) => Some(v + 1.0)
    case None => None
  }

  /** The builder after `x.fill { it.toDouble() }`. */
  function WithX(): (o: Outcome<real>)
    ensures o.Ok() && WellFormed(o.state)
    ensures o.state.columns == [ListColumn("x", [Some(0.0), Some(1.0), Some(2.0)], DOUBLE, EMPTY)]
  {
    var o := Fill(ColumnTableBuilder(3, []), X, None, i => Some(i as real)).outcome;
    assert o.state.columns[0].data == [Some(0.0), Some(1.0), Some(2.0)];
    o
  }

  /** The builder after `columns[x2] = { it[x].pow(2) }`, read eagerly. */
  function WithX2(): (o: Outcome<real>)
    ensures o.Ok() && WellFormed(o.state)
    ensures o.state.columns == [ListColumn("x", [Some(0.0), Some(1.0), Some(2.0)], DOUBLE, EMPTY),
                                ListColumn("x2", [Some(0.0), Some(1.0), Some(4.0)], DOUBLE, EMPTY)]
  {
    var before := WithX().state;
    assert RemoveColumn(before, "x2") == before by {
      WithoutAbsentName(before.columns, "x2");
    }
    var derived := EvaluateRows(before, X2, Square);
    forall i | 0 <= i < 3 ensures derived.data[i] == Some((i as real) * (i as real)) {
      GetOrNullReadsNamedColumn(before, 0, i);
    }
    assert derived.data == [Some(0.0), Some(1.0), Some(4.0)];
    SetExpression(before, X2, (t, h) => EvaluateRows(t, h, Square))
  }

  /** The builder after `columns[y] = x2.values.map { it?.plus(1) }`. */
  function WithY(): (o: Outcome<real>)
    ensures o.Ok() && WellFormed(o.state)
    ensures |o.state.columns| == 3
    ensures Headers(o.state.columns) == [X, X2, Y]
    ensures forall row :: GetOrNull(o.state, row, "y") == PlusOne(GetOrNull(o.state, row, "x2"))
    ensures o.state.columns[2].data == [Some(1.0), Some(2.0), Some(5.0)]
  {
    var before := WithX2().state;
    var values := Values(before, X2);
    GetOrNullReadsNamedColumn(before, 1, 0);
    assert values.Success?;
    ListValuesAreStoredCells(before.columns[1]);
    FindColumnDistinct(before.columns, 1);
    var data := seq(|values.value|, i requires 0 <= i < |values.value| => PlusOne(values.value[i]));
    assert data == [Some(1.0), Some(2.0), Some(5.0)];
    WithoutAbsentName(before.columns, "y");
    var o := SetData(before, Y, data);
    assert o.state.columns == before.columns + [Of(Y, data)];
    forall row ensures GetOrNull(o.state, row, "y") == PlusOne(GetOrNull(o.state, row, "x2")) {
      GetOrNullReadsNamedColumn(o.state, 1, row);
      GetOrNullReadsNamedColumn(o.state, 2, row);
    }
    o
  }

  /** Encoding a table with the finished builder's headers (its cells cast to
      the universal value) and decoding it gives back the names `x, x2, y` in
      that order, each with the value cell type. */
  lemma ScenarioHeaderRoundTrip(writeTextRows: ColumnTable<Value> -> seq<bv8>, cells: ColumnTable<Value>)
    requires |cells.columns| == |WithY().state.columns|
    requires cells.columns[0].Header() == WithY().state.columns[0].Header()
    requires cells.columns[1].Header() == WithY().state.columns[1].Header()
    requires cells.columns[2].Header() == WithY().state.columns[2].Header()
    ensures var r := ReadTextRows(ToTextEnvelope(cells, writeTextRows));
            && r.Success?
            && r.value.headers == [ColumnHeader("x", VALUE_TYPE, EMPTY), ColumnHeader("x2", VALUE_TYPE, EMPTY), ColumnHeader("y", VALUE_TYPE, EMPTY)]
  {
    var finished := WithY().state.columns;
    assert finished[0].Header() == X && finished[1].Header() == X2 && finished[2].Header() == Y;
    HeaderRoundTrip(cells, writeTextRows);
    var r := ReadTextRows(ToTextEnvelope(cells, writeTextRows));
    assert r.value.headers[0] == Decoded(X);
    assert r.value.headers[1] == Decoded(X2);
    assert r.value.headers[2] == Decoded(Y);
  }
}
