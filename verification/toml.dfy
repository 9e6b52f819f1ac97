/** The key/value tree of a TOML v1.0.0 manifest as toml_edit exposes it:
    standard tables hold items, inline tables and arrays hold values.
    Formatting and decoration are not part of the tree. */
module Toml {
  import opened Wrappers
  import Assoc

  datatype Value =
    | Str(s: string)
    | Int(i: int)
    | Bool(b: bool)
    | Arr(items: seq<Value>)
    | Inline(entries: seq<(string, Value)>)

  datatype Item = Val(v: Value) | Tbl(entries: seq<(string, Item)>)

  type Table = seq<(string, Item)>
  type InlineTable = seq<(string, Value)>

  /** `v.is_table() || v.is_inline_table()` on an item. */
  predicate IsTableLike(it: Item) {
    it.Tbl? || (it.Val? && it.v.Inline?)
  }

  /** `Value::as_str`. */
  function ValueStr(v: Value): Option<string> {
    if v.Str? then Some(v.s) else None
  }

  /** `Item::as_str`: only a string value has one. */
  function ItemStr(it: Item): Option<string> {
    if it.Val? then ValueStr(it.v) else None
  }

  /** The sub-table stored under `k`, if that entry is a standard table. */
  function SubTable(t: Table, k: string): Option<Table> {
    var found: Option<Item> := Assoc.Get(t, k);
    if found.Some? && found.value.Tbl? then Some(found.value.entries) else None
  }
}
