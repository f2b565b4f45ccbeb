/** The header half of the text envelope codec (`toTextEnvelope` and
    `readTextRows`): column headers travel as indexed descriptors in the
    envelope metadata, and the row body is an opaque byte payload. */
module TextEnvelope {
  import opened Wrappers
  import opened Metadata
  import opened ListColumns
  import opened TableBuilder
  import opened IntText

  /** The universal scalar cell type of the text path. */
  datatype Value = Null | Boolean(b: bool) | Number(n: real) | Str(s: string)

  /** The cell type every decoded header is given. */
  const VALUE_TYPE: TypeTag := TypeTag("space.kscience.dataforge.values.Value")

  /** Type tag of every envelope `toTextEnvelope` produces. */
  const TABLE_VALUE_TYPE: string := "table.value"

  /** The metadata node of one column: its `name` and `meta` entries. */
  datatype Descriptor = Descriptor(name: Option<string>, meta: Option<Meta>)

  /** One entry of `getIndexed("column")`: the index token of the entry
      (`None` for a bare `column` entry) and the node under it, listed in
      the metadata tree's own order. */
  datatype IndexedItem = IndexedItem(key: Option<string>, item: Descriptor)

  /** The parts of an envelope the codec touches: the indexed column
      descriptors, the type tag and the byte payload. */
  datatype Envelope = Envelope(columns: seq<IndexedItem>, typeTag: string, data: Option<seq<bv8>>)

  /** What `readTextRows` returns: the rebuilt headers and the payload they
      describe. */
  datatype TextRows = TextRows(headers: seq<ColumnHeader>, data: seq<bv8>)

  /** `NumberFormatException` from `toInt` on a key, or the
      `NullPointerException` of `name!!`. */
  datatype DecodeError = BadIndexKey | MissingName

  // ---------------------------------------------------------------- encode

  /** The descriptor written for one header: the name always, the metadata
      only when it is not empty. */
  function DescriptorOf(h: ColumnHeader): (d: Descriptor)
    ensures d.name == Some(h.name)
    ensures d.meta.Some? <==> !h.meta.IsEmpty()
    ensures d.meta.Some? ==> d.meta.value == h.meta
  {
    Descriptor(Some(h.name), if h.meta.IsEmpty() then None else Some(h.meta))
  }

  /** The metadata block: the header at position `i` under `column[i]`. */
  function EncodeHeaders(headers: seq<ColumnHeader>): (r: seq<IndexedItem>)
    ensures |r| == |headers|
    ensures forall i :: 0 <= i < |r| ==> r[i].key == Some(NatToString(i))
    ensures forall i :: 0 <= i < |r| ==> r[i].item == DescriptorOf(headers[i])
  {
    seq(|headers|, i requires 0 <= i < |headers| => IndexedItem(Some(NatToString(i)), DescriptorOf(headers[i])))
  }

  /** `toTextEnvelope`: the descriptors of the table's headers, the fixed
      type tag, and the body produced by `writeTextRows`, which is not part
      of this model and is a parameter. */
  function ToTextEnvelope(t: ColumnTable<Value>, writeTextRows: ColumnTable<Value> -> seq<bv8>): (e: Envelope)
    ensures e.typeTag == TABLE_VALUE_TYPE
    ensures |e.columns| == |t.columns|
    ensures forall i :: 0 <= i < |e.columns| ==> e.columns[i].key == Some(NatToString(i))
    ensures forall i :: 0 <= i < |e.columns| ==> e.columns[i].item.name == Some(t.columns[i].name)
    ensures e.data == Some(writeTextRows(t))
  {
    Envelope(EncodeHeaders(Headers(t.columns)), TABLE_VALUE_TYPE, Some(writeTextRows(t)))
  }

  // ---------------------------------------------------------------- ordering

  /** The value `sortedBy { it.key?.toInt() }` compares: null for a bare
      entry, the parsed index otherwise. `BadKey` marks a key `toInt`
      rejects; it is only ever compared when the decode has already failed. */
  datatype SortKey = NullKey | IntKey(v: int) | BadKey

  function SortKeyOf(e: IndexedItem): SortKey {
    match e.key
    case None => NullKey
    case Some(s) =>
      match ParseInt(s)
      case None => BadKey
      case Some(v) => IntKey(v)
  }

  /** Kotlin's `compareValues`: null first, then integers in numeric order. */
  predicate KeyLe(a: SortKey, b: SortKey) {
    if a.IntKey? && b.IntKey? then a.v <= b.v else KeyClass(a) <= KeyClass(b)
  }

  function KeyClass(k: SortKey): int {
    match k
    case NullKey => 0
    case IntKey(_) => 1
    case BadKey => 2
  }

  predicate KeyLt(a: SortKey, b: SortKey) {
    KeyLe(a, b) && !KeyLe(b, a)
  }

  lemma KeyLeTotal(a: SortKey, b: SortKey)
    ensures KeyLe(a, b) || KeyLe(b, a)
  {
  }

  lemma KeyLeTransitive(a: SortKey, b: SortKey, c: SortKey)
    requires KeyLe(a, b) && KeyLe(b, c)
    ensures KeyLe(a, c)
  {
  }

  predicate Sorted(s: seq<IndexedItem>) {
    forall i, j :: 0 <= i < j < |s| ==> KeyLe(SortKeyOf(s[i]), SortKeyOf(s[j]))
  }

  predicate StrictlySorted(s: seq<IndexedItem>) {
    forall i, j :: 0 <= i < j < |s| ==> KeyLt(SortKeyOf(s[i]), SortKeyOf(s[j]))
  }

  /** Every entry of a multiset is at least `k`. */
  predicate AllAtLeast(k: SortKey, m: multiset<IndexedItem>) {
    forall y :: y in m ==> KeyLe(k, SortKeyOf(y))
  }

  /** A sorted list's head is a lower bound of its tail. */
  lemma HeadIsLowerBound(s: seq<IndexedItem>)
    requires Sorted(s) && |s| > 0
    ensures AllAtLeast(SortKeyOf(s[0]), multiset(s[1..]))
  {
    forall y | y in multiset(s[1..]) ensures KeyLe(SortKeyOf(s[0]), SortKeyOf(y)) {
      assert y in s[1..];
      var m :| 0 <= m < |s[1..]| && s[1..][m] == y;
      assert s[m + 1] == y;
    }
  }

  /** Prepending a lower bound of a sorted list keeps it sorted. */
  lemma PrependLowerBound(x: IndexedItem, s: seq<IndexedItem>)
    requires Sorted(s)
    requires AllAtLeast(SortKeyOf(x), multiset(s))
    ensures Sorted([x] + s)
  {
    var r := [x] + s;
    forall i, j | 0 <= i < j < |r| ensures KeyLe(SortKeyOf(r[i]), SortKeyOf(r[j])) {
      if i == 0 {
        assert r[j] == s[j - 1];
        assert r[j] in multiset(s);
      } else {
        assert r[i] == s[i - 1] && r[j] == s[j - 1];
      }
    }
  }

  /** Insert `x` into a sorted list, before the first entry whose key is not
      smaller than its own. */
  function InsertByKey(x: IndexedItem, s: seq<IndexedItem>): (r: seq<IndexedItem>)
    requires Sorted(s)
    ensures Sorted(r)
    ensures multiset(r) == multiset(s) + multiset{x}
    decreases |s|
  {
    if |s| == 0 then [x]
    else if KeyLe(SortKeyOf(x), SortKeyOf(s[0])) then
      InsertAtHead(x, s);
      [x] + s
    else
      var rest := InsertByKey(x, s[1..]);
      InsertAfterHead(x, s, rest);
      [s[0]] + rest
  }

  lemma InsertAtHead(x: IndexedItem, s: seq<IndexedItem>)
    requires Sorted(s) && |s| > 0
    requires KeyLe(SortKeyOf(x), SortKeyOf(s[0]))
    ensures Sorted([x] + s)
    ensures multiset([x] + s) == multiset(s) + multiset{x}
  {
    HeadIsLowerBound(s);
    forall y | y in multiset(s) ensures KeyLe(SortKeyOf(x), SortKeyOf(y)) {
      assert s == [s[0]] + s[1..];
      if y != s[0] {
        assert y in multiset(s[1..]);
        KeyLeTransitive(SortKeyOf(x), SortKeyOf(s[0]), SortKeyOf(y));
      }
    }
    PrependLowerBound(x, s);
  }

  lemma InsertAfterHead(x: IndexedItem, s: seq<IndexedItem>, rest: seq<IndexedItem>)
    requires Sorted(s) && |s| > 0
    requires !KeyLe(SortKeyOf(x), SortKeyOf(s[0]))
    requires Sorted(rest)
    requires multiset(rest) == multiset(s[1..]) + multiset{x}
    ensures Sorted([s[0]] + rest)
    ensures multiset([s[0]] + rest) == multiset(s) + multiset{x}
  {
    HeadIsLowerBound(s);
    KeyLeTotal(SortKeyOf(x), SortKeyOf(s[0]));
    assert AllAtLeast(SortKeyOf(s[0]), multiset(rest));
    PrependLowerBound(s[0], rest);
    assert s == [s[0]] + s[1..];
  }

  /** The stable sort `sortedBy` performs, as an insertion sort. */
  function SortByKey(s: seq<IndexedItem>): (r: seq<IndexedItem>)
    ensures Sorted(r)
    ensures multiset(r) == multiset(s)
    decreases |s|
  {
    if |s| == 0 then []
    else
      assert s == [s[0]] + s[1..];
      InsertByKey(s[0], SortByKey(s[1..]))
  }

  /** In a strictly sorted list no later entry has a key at or below the head's. */
  lemma StrictHeadIsUnique(a: seq<IndexedItem>, k: int)
    requires StrictlySorted(a)
    requires 0 <= k < |a|
    requires KeyLe(SortKeyOf(a[k]), SortKeyOf(a[0]))
    ensures k == 0
  {
  }

  /** Two arrangements of the same entries, the first strictly sorted and
      the second sorted, start with the same entry. */
  lemma SortedHeadsAgree(a: seq<IndexedItem>, b: seq<IndexedItem>)
    requires StrictlySorted(a)
    requires Sorted(b)
    requires multiset(a) == multiset(b)
    requires |a| > 0 && |b| > 0
    ensures a[0] == b[0]
  {
    assert a[0] in multiset(b);
    var j :| 0 <= j < |b| && b[j] == a[0];
    assert b[0] in multiset(a);
    var k :| 0 <= k < |a| && a[k] == b[0];
    assert KeyLe(SortKeyOf(b[0]), SortKeyOf(a[0])) by {
      if j > 0 {
        assert KeyLe(SortKeyOf(b[0]), SortKeyOf(b[j]));
      }
    }
    StrictHeadIsUnique(a, k);
  }

  lemma SortedTail(s: seq<IndexedItem>)
    requires Sorted(s) && |s| > 0
    ensures Sorted(s[1..])
  {
    forall i, j | 0 <= i < j < |s[1..]| ensures KeyLe(SortKeyOf(s[1..][i]), SortKeyOf(s[1..][j])) {
      assert s[1..][i] == s[i + 1] && s[1..][j] == s[j + 1];
    }
  }

  lemma StrictlySortedTail(s: seq<IndexedItem>)
    requires StrictlySorted(s) && |s| > 0
    ensures StrictlySorted(s[1..])
  {
    forall i, j | 0 <= i < j < |s[1..]| ensures KeyLt(SortKeyOf(s[1..][i]), SortKeyOf(s[1..][j])) {
      assert s[1..][i] == s[i + 1] && s[1..][j] == s[j + 1];
    }
  }

  lemma TailsSameEntries(a: seq<IndexedItem>, b: seq<IndexedItem>)
    requires multiset(a) == multiset(b)
    requires |a| > 0 && |b| > 0 && a[0] == b[0]
    ensures multiset(a[1..]) == multiset(b[1..])
  {
    assert a == [a[0]] + a[1..];
    assert b == [b[0]] + b[1..];
    assert multiset(a) == multiset([a[0]]) + multiset(a[1..]);
    assert multiset(b) == multiset([b[0]]) + multiset(b[1..]);
    assert multiset(a[1..]) == multiset(a) - multiset([a[0]]);
    assert multiset(b[1..]) == multiset(b) - multiset([b[0]]);
  }

  /** A strictly sorted list is the only sorted arrangement of its entries:
      the outcome of the sort cannot depend on the order the entries arrive in. */
  lemma {:induction false} SortedArrangementUnique(a: seq<IndexedItem>, b: seq<IndexedItem>)
    requires StrictlySorted(a)
    requires Sorted(b)
    requires multiset(a) == multiset(b)
    ensures a == b
    decreases |a|
  {
    assert |a| == |multiset(a)| == |multiset(b)| == |b|;
    if |a| > 0 {
      SortedHeadsAgree(a, b);
      TailsSameEntries(a, b);
      StrictlySortedTail(a);
      SortedTail(b);
      SortedArrangementUnique(a[1..], b[1..]);
      assert a == [a[0]] + a[1..] && b == [b[0]] + b[1..];
    }
  }

  // ---------------------------------------------------------------- decode

  /** The header rebuilt from one descriptor: the fixed cell type, and empty
      metadata when none was written. */
  function HeaderOf(d: Descriptor): ColumnHeader
    requires d.name.Some?
  {
    ColumnHeader(d.name.value, VALUE_TYPE, d.meta.GetOr(EMPTY))
  }

  /** `map { ... item["name"].string!! ... }` over the sorted entries: fails
      on the first entry without a name. */
  function HeadersOf(s: seq<IndexedItem>): (r: Result<seq<ColumnHeader>, DecodeError>)
    ensures r.Success? <==> forall i :: 0 <= i < |s| ==> s[i].item.name.Some?
    ensures r.Failure? ==> r.error == MissingName
    ensures r.Success? ==> |r.value| == |s|
    ensures r.Success? ==> forall i :: 0 <= i < |s| ==> r.value[i] == HeaderOf(s[i].item)
    decreases |s|
  {
    if |s| == 0 then Success([])
    else
      match s[0].item.name
      case None => Failure(MissingName)
      case Some(_) =>
        var rest :- HeadersOf(s[1..]);
        Success([HeaderOf(s[0].item)] + rest)
  }

  predicate HasBadKey(s: seq<IndexedItem>) {
    exists i :: 0 <= i < |s| && SortKeyOf(s[i]).BadKey?
  }

  predicate AllNamed(s: seq<IndexedItem>) {
    forall i :: 0 <= i < |s| ==> s[i].item.name.Some?
  }

  /** Being named is a property of the entries, not of their order. */
  lemma AllNamedOfArrangement(a: seq<IndexedItem>, b: seq<IndexedItem>)
    requires multiset(a) == multiset(b)
    ensures AllNamed(a) <==> AllNamed(b)
  {
    if AllNamed(a) {
      forall i | 0 <= i < |b| ensures b[i].item.name.Some? {
        assert b[i] in multiset(a);
      }
    }
    if AllNamed(b) {
      forall i | 0 <= i < |a| ensures a[i].item.name.Some? {
        assert a[i] in multiset(b);
      }
    }
  }

  /** `readTextRows`: sort the descriptors by the numeric value of their
      index key, then rebuild one header per descriptor. The keys are parsed
      only while comparing, so a key `toInt` rejects fails the decode only
      when there are at least two descriptors. A missing payload reads as
      empty. */
  function ReadTextRows(e: Envelope): (r: Result<TextRows, DecodeError>)
    ensures |e.columns| >= 2 && HasBadKey(e.columns) ==> r == Failure(BadIndexKey)
    ensures r.Success? <==> !(|e.columns| >= 2 && HasBadKey(e.columns)) && AllNamed(e.columns)
    ensures r.Success? ==> |r.value.headers| == |e.columns|
    ensures r.Success? ==> forall i :: 0 <= i < |r.value.headers| ==> r.value.headers[i].typeTag == VALUE_TYPE
    ensures r.Success? ==> exists sorted: seq<IndexedItem> :: Sorted(sorted) && multiset(sorted) == multiset(e.columns)
                                        && AllNamed(sorted) && |sorted| == |r.value.headers|
                                        && forall i :: 0 <= i < |sorted| ==> r.value.headers[i] == HeaderOf(sorted[i].item)
    ensures r.Success? ==> r.value.data == e.data.GetOr([])
  {
    if |e.columns| >= 2 && HasBadKey(e.columns) then Failure(BadIndexKey)
    else
      var sorted := SortByKey(e.columns);
      AllNamedOfArrangement(sorted, e.columns);
      var headers :- HeadersOf(sorted);
      Success(TextRows(headers, e.data.GetOr([])))
  }

  // ---------------------------------------------------------------- round trip

  /** What decoding gives back for a header: the same name, the value cell
      type, and the metadata (an empty one comes back as the empty tree). */
  function Decoded(h: ColumnHeader): (d: ColumnHeader)
    ensures d.name == h.name && d.typeTag == VALUE_TYPE
    ensures d.meta.IsEmpty() <==> h.meta.IsEmpty()
    ensures !h.meta.IsEmpty() ==> d.meta == h.meta
  {
    ColumnHeader(h.name, VALUE_TYPE, if h.meta.IsEmpty() then EMPTY else h.meta)
  }

  /** The encoded descriptors carry the keys `0, 1, 2, ...` in order. */
  lemma EncodedStrictlySorted(headers: seq<ColumnHeader>)
    requires |headers| <= INT_MAX + 1
    ensures forall i :: 0 <= i < |headers| ==> SortKeyOf(EncodeHeaders(headers)[i]) == IntKey(i)
    ensures StrictlySorted(EncodeHeaders(headers))
    ensures AllNamed(EncodeHeaders(headers))
  {
    forall i | 0 <= i < |headers| ensures SortKeyOf(EncodeHeaders(headers)[i]) == IntKey(i) {
      ParseIntOfNatToString(i);
    }
  }

  /** Decoding ignores the order the metadata tree lists its entries in: any
      arrangement of the encoded descriptors decodes to the original headers,
      in their original order. */
  lemma DecodeAnyArrangement(headers: seq<ColumnHeader>, items: seq<IndexedItem>, typeTag: string, data: Option<seq<bv8>>)
    requires |headers| <= INT_MAX + 1
    requires multiset(items) == multiset(EncodeHeaders(headers))
    ensures var r := ReadTextRows(Envelope(items, typeTag, data));
            && r.Success?
            && |r.value.headers| == |headers|
            && (forall i :: 0 <= i < |headers| ==> r.value.headers[i] == Decoded(headers[i]))
            && r.value.data == data.GetOr([])
  {
    var encoded := EncodeHeaders(headers);
    EncodedStrictlySorted(headers);
    assert |items| == |multiset(items)| == |encoded|;
    assert !HasBadKey(items) by {
      forall i | 0 <= i < |items| ensures !SortKeyOf(items[i]).BadKey? {
        assert items[i] in multiset(encoded);
      }
    }
    SortedArrangementUnique(encoded, SortByKey(items));
    AllNamedOfArrangement(items, encoded);
  }

  /** Header round trip: decoding the envelope of a table gives back its
      column names in column order, its metadata, the value cell type, and
      the payload. */
  lemma HeaderRoundTrip(t: ColumnTable<Value>, writeTextRows: ColumnTable<Value> -> seq<bv8>)
    requires |t.columns| <= INT_MAX + 1
    ensures var r := ReadTextRows(ToTextEnvelope(t, writeTextRows));
            && r.Success?
            && |r.value.headers| == |t.columns|
            && (forall i :: 0 <= i < |t.columns| ==> r.value.headers[i] == Decoded(t.columns[i].Header()))
            && r.value.data == writeTextRows(t)
  {
    var e := ToTextEnvelope(t, writeTextRows);
    DecodeAnyArrangement(Headers(t.columns), e.columns, e.typeTag, e.data);
  }

  /** The two keys of the example below, parsed. */
  lemma TenAndNineKeys()
    ensures ParseInt("10") == Some(10) && ParseInt("9") == Some(9)
  {
    ParseIntOfNatToString(9);
    ParseIntOfNatToString(10);
    assert NatToString(9) == "9";
    assert NatToString(10) == "10" by {
      assert NatToString(1) == "1" && NatToString(0) == "0";
    }
  }

  /** Once the keys raise no error, decoding is header rebuilding over the
      sorted descriptors. */
  lemma DecodeWithParsedKeys(e: Envelope)
    requires !(|e.columns| >= 2 && HasBadKey(e.columns))
    ensures ReadTextRows(e) == (match HeadersOf(SortByKey(e.columns))
                                case Success(hs) => Success(TextRows(hs, e.data.GetOr([])))
                                case Failure(err) => Failure(err))
  {
  }

  /** The descriptors of the example below, in the tree's order, sort as
      `9, 10`. */
  lemma SortTenNine(ten: IndexedItem, nine: IndexedItem)
    requires ten.key == Some("10") && nine.key == Some("9")
    ensures SortByKey([ten, nine]) == [nine, ten]
    ensures !HasBadKey([ten, nine])
  {
    TenAndNineKeys();
    assert SortKeyOf(ten) == IntKey(10);
    assert SortKeyOf(nine) == IntKey(9);
    assert [ten, nine][1..] == [nine];
    assert SortByKey([nine]) == [nine] by {
      assert [nine][1..] == [];
    }
    assert InsertByKey(ten, [nine]) == [nine] + InsertByKey(ten, []);
  }

  /** Keys compare as numbers: `column[10]` listed before `column[9]` still
      decodes after it, where string order would put it first. */
  lemma TenFollowsNine(data: Option<seq<bv8>>)
    ensures ReadTextRows(Envelope([IndexedItem(Some("10"), Descriptor(Some("k"), None)),
                                   IndexedItem(Some("9"), Descriptor(Some("j"), None))],
                                  TABLE_VALUE_TYPE, data))
            == Success(TextRows([ColumnHeader("j", VALUE_TYPE, EMPTY), ColumnHeader("k", VALUE_TYPE, EMPTY)], data.GetOr([])))
  {
    var ten := IndexedItem(Some("10"), Descriptor(Some("k"), None));
    var nine := IndexedItem(Some("9"), Descriptor(Some("j"), None));
    var items := [ten, nine];
    SortTenNine(ten, nine);
    var expected := [ColumnHeader("j", VALUE_TYPE, EMPTY), ColumnHeader("k", VALUE_TYPE, EMPTY)];
    var headers := HeadersOf([nine, ten]);
    assert headers.Success? && |headers.value| == 2;
    assert headers.value[0] == HeaderOf(nine.item) == expected[0];
    assert headers.value[1] == HeaderOf(ten.item) == expected[1];
    assert headers.value == expected;
    DecodeWithParsedKeys(Envelope(items, TABLE_VALUE_TYPE, data));
  }

  /** Keys are only parsed by comparisons: a single descriptor under a
      non-numeric key still decodes, two such descriptors do not. */
  lemma KeysParsedOnlyWhenCompared(d: Descriptor, data: Option<seq<bv8>>)
    requires d.name.Some?
    ensures ReadTextRows(Envelope([IndexedItem(Some("x"), d)], TABLE_VALUE_TYPE, data)).Success?
    ensures ReadTextRows(Envelope([IndexedItem(Some("x"), d), IndexedItem(Some("0"), d)], TABLE_VALUE_TYPE, data)) == Failure(BadIndexKey)
  {
    var bad := IndexedItem(Some("x"), d);
    assert SortKeyOf(bad) == BadKey;
    assert [bad, IndexedItem(Some("0"), d)][0] == bad;
  }
}
