/** The metadata tree attached to column headers. Apart from emptiness its
    structure is opaque to the table code, so it is kept minimal here. */
module Metadata {
  import opened Wrappers

  /** A node of the tree: an optional value and named children. */
  datatype Meta = Meta(value: Option<string>, items: seq<MetaItem>) {

    /** A node is empty when it carries no value and all of its children are
        empty; the empty node and a tree of empty nodes are both empty. */
    predicate IsEmpty() {
      && value.None?
      && forall i | 0 <= i < |items| :: items[i].meta.IsEmpty()
    }
  }

  /** One named child of a metadata node. */
  datatype MetaItem = MetaItem(token: string, meta: Meta)

  /** The shared empty tree. */
  const EMPTY: Meta := Meta(None, [])
}
