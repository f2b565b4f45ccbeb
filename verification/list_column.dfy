/** Columns: named, typed, fixed-length sequences of optional cells
    (`ListColumn`, its companion constructors and `Column.map`). */
module ListColumns {
  import opened Wrappers
  import opened Metadata

  /** Opaque stand-in for a Kotlin `KType`, identified by its qualified name. */
  datatype TypeTag = TypeTag(qualifiedName: string)

  /** A column's descriptor: its identity is the name. */
  datatype ColumnHeader = ColumnHeader(name: string, typeTag: TypeTag, meta: Meta)

  /** Errors the table layer throws (`require`, list index and list size checks). */
  datatype TableError =
    | SizeMismatch(required: int, found: int)
    | DuplicateName(name: string)
    | IndexOutOfBounds(index: int, size: int)
    | NegativeSize(size: int)
    | ColumnNotFound(name: string)

  /** A column backed by a list of nullable cells. */
  datatype Column<T> = ListColumn(name: string, data: seq<Option<T>>, typeTag: TypeTag, meta: Meta) {

    /** Number of rows; the length of the backing list. */
    function Size(): nat {
      |data|
    }

    function Header(): ColumnHeader {
      ColumnHeader(name, typeTag, meta)
    }

    /** Total lookup: any index outside the backing list yields `None`. */
    function GetOrNull(index: int): Option<T> {
      if 0 <= index < |data| then data[index] else None
    }
  }

  /** The values of a column read back cell by cell (`listValues`). */
  function ListValues<T>(c: Column<T>): seq<Option<T>> {
    seq(c.Size(), i requires 0 <= i < c.Size() => c.GetOrNull(i))
  }

  /** Headers of a column list, in column order. */
  function Headers<T>(columns: seq<Column<T>>): (r: seq<ColumnHeader>)
    ensures |r| == |columns|
    ensures forall i :: 0 <= i < |r| ==> r[i].name == columns[i].name && r[i].meta == columns[i].meta
  {
    seq(|columns|, i requires 0 <= i < |columns| => columns[i].Header())
  }

  /** Lookup is exact inside the column: `listValues` gives back the stored
      cells, nulls included. */
  lemma ListValuesAreStoredCells<T>(c: Column<T>)
    ensures |ListValues(c)| == c.Size()
    ensures ListValues(c) == c.data
  {
  }

  /** Lookup never fails: every index outside `[0, size)`, negative ones
      included, reads as absent. */
  lemma GetOrNullOutOfRange<T>(c: Column<T>, index: int)
    requires index < 0 || index >= c.Size()
    ensures c.GetOrNull(index) == None
  {
  }

  /** A column from a header and a list of cells (`ListColumn(header, data)`). */
  function Of<T>(header: ColumnHeader, data: seq<Option<T>>): (c: Column<T>)
    ensures c.Header() == header
    ensures forall i :: 0 <= i < |data| ==> c.GetOrNull(i) == data[i]
    ensures c.Size() == |data|
  {
    ListColumn(header.name, data, header.typeTag, header.meta)
  }

  /** `ListColumn(name, def, size, dataBuilder)`: `List(size, dataBuilder)`
      rejects a negative size, otherwise cell `i` is `dataBuilder(i)`. */
  function Generate<T>(header: ColumnHeader, size: int, dataBuilder: int -> Option<T>): (r: Result<Column<T>, TableError>)
    ensures r.Failure? <==> size < 0
    ensures r.Failure? ==> r.error == NegativeSize(size)
    ensures r.Success? ==> r.value.Header() == header && r.value.Size() == size
    ensures r.Success? ==> forall i :: 0 <= i < size ==> r.value.GetOrNull(i) == dataBuilder(i)
  {
    if size < 0 then Failure(NegativeSize(size))
    else Success(ListColumn(header.name, seq(size, i requires 0 <= i < size => dataBuilder(i)), header.typeTag, header.meta))
  }

  /** `Column.map(meta, block)`: a new column of the same length and name whose
      cell `i` is `block` applied to the source cell `i`, absent cells included.
      The metadata is the override when one is given, otherwise the source's. */
  function Map<T, R>(c: Column<T>, metaOverride: Option<Meta>, resultType: TypeTag, block: Option<T> -> R): (r: Column<R>)
    ensures r.Size() == c.Size()
    ensures r.name == c.name
    ensures r.typeTag == resultType
    ensures metaOverride.None? ==> r.meta == c.meta
    ensures metaOverride.Some? ==> r.meta == metaOverride.value
    ensures forall i :: 0 <= i < c.Size() ==> r.GetOrNull(i) == Some(block(c.data[i]))
    ensures forall i :: i < 0 || i >= c.Size() ==> r.GetOrNull(i) == None
  {
    var data := seq(c.Size(), i requires 0 <= i < c.Size() => Some(block(c.GetOrNull(i))));
    assert forall i | 0 <= i < c.Size() :: data[i] == Some(block(c.data[i])) by {
      forall i | 0 <= i < c.Size() ensures data[i] == Some(block(c.data[i])) {
        assert c.GetOrNull(i) == c.data[i];
      }
    }
    ListColumn(c.name, data, resultType, metaOverride.GetOr(c.meta))
  }
}
