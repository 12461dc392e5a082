/** The map of a Datadog leaf: keys rendered to text, several of which may render the same. */
module LeafMaps {
  import opened Wrappers
  import opened Json

  /** A map key: text in YAML, a boolean or number rendered to text, or null. `written` is the key as it
      stands in the document. */
  datatype Key =
    | TextKey(written: string)
    | TypedKey(written: string, rendered: string)
    | NullKey(written: string)
  {
    function Text(): string {
      if TypedKey? then rendered else written
    }
  }

  datatype Item = Item(key: Key, value: Value)

  /** The last value that is not null under a key that renders to `text`: among the keys that are text
      already, or among the typed ones. */
  function Last(items: seq<Item>, text: string, typed: bool): Option<Value> {
    if items == [] then None
    else
      var n := |items| - 1;
      var item := items[n];
      if item.key.Text() == text && item.key.TypedKey? == typed && item.value != Null then Some(item.value)
      else Last(items[..n], text, typed)
  }

  /** The value `text` keeps: the last one written as that text, else the last one rendered to it, else null. */
  function Kept(items: seq<Item>, text: string): Value {
    if Last(items, text, false).Some? then Last(items, text, false).value
    else if Last(items, text, true).Some? then Last(items, text, true).value
    else Null
  }

  function Texts(items: seq<Item>): set<string> {
    set i | 0 <= i < |items| :: items[i].key.Text()
  }

  function LeafMap(items: seq<Item>): map<string, Value> {
    map text | text in Texts(items) :: Kept(items, text)
  }

  predicate HasNullKey(items: seq<Item>) {
    exists i :: 0 <= i < |items| && items[i].key.NullKey?
  }

  lemma {:induction false} UntouchedIsNull(items: seq<Item>, text: string)
    requires text !in Texts(items)
    ensures Last(items, text, false) == None && Last(items, text, true) == None
  {
    if items != [] {
      var n := |items| - 1;
      assert items[n].key.Text() in Texts(items);
      assert forall j :: 0 <= j < n ==> items[..n][j] == items[j];
      UntouchedIsNull(items[..n], text);
    }
  }

  // ---------- the reading loop ----------

  /** The texts a value has been kept under that was written as that text. */
  function NextWritten(written: set<string>, item: Item): set<string> {
    if item.value != Null && !item.key.TypedKey? then written + {item.key.Text()} else written
  }

  function NextEntries(entries: map<string, Value>, written: set<string>, item: Item): map<string, Value> {
    var text := item.key.Text();
    if item.value == Null then if text in entries then entries else entries[text := Null]
    else if !item.key.TypedKey? || text !in written then entries[text := item.value]
    else entries
  }

  lemma {:induction false} LastSnoc(items: seq<Item>, item: Item, text: string, typed: bool)
    ensures Last(items + [item], text, typed) ==
            if item.key.Text() == text && item.key.TypedKey? == typed && item.value != Null then Some(item.value)
            else Last(items, text, typed)
  {
    assert (items + [item])[..|items|] == items;
  }

  lemma TextsSnoc(items: seq<Item>, item: Item)
    ensures Texts(items + [item]) == Texts(items) + {item.key.Text()}
  {
    assert (items + [item])[|items|] == item && forall j :: 0 <= j < |items| ==> (items + [item])[j] == items[j];
  }

  ghost predicate WrittenAre(items: seq<Item>, written: set<string>) {
    forall text :: text in written <==> Last(items, text, false).Some?
  }

  lemma {:induction false} KeptSnoc(items: seq<Item>, item: Item, written: set<string>, text: string)
    requires WrittenAre(items, written) && text in Texts(items) + {item.key.Text()}
    ensures text in NextEntries(LeafMap(items), written, item)
    ensures NextEntries(LeafMap(items), written, item)[text] == Kept(items + [item], text)
  {
    LastSnoc(items, item, text, false);
    LastSnoc(items, item, text, true);
    if text !in Texts(items) {
      UntouchedIsNull(items, text);
    }
  }

  lemma {:induction false} WrittenSnoc(items: seq<Item>, item: Item, written: set<string>)
    requires WrittenAre(items, written)
    ensures WrittenAre(items + [item], NextWritten(written, item))
  {
    forall text { LastSnoc(items, item, text, false); }
  }

  lemma IsLeafMap(items: seq<Item>, texts: set<string>, entries: map<string, Value>)
    requires texts == Texts(items) == entries.Keys && forall text :: text in texts ==> entries[text] == Kept(items, text)
    ensures entries == LeafMap(items)
  {}

  /** One more item leaves the entries that the items so far should have. */
  lemma {:induction false} LeafMapSnoc(items: seq<Item>, item: Item, written: set<string>)
    requires WrittenAre(items, written)
    ensures NextEntries(LeafMap(items), written, item) == LeafMap(items + [item])
  {
    TextsSnoc(items, item);
    var texts := Texts(items) + {item.key.Text()};
    forall text | text in texts
      ensures text in NextEntries(LeafMap(items), written, item)
      ensures NextEntries(LeafMap(items), written, item)[text] == Kept(items + [item], text)
    {
      KeptSnoc(items, item, written, text);
    }
    IsLeafMap(items + [item], texts, NextEntries(LeafMap(items), written, item));
  }

  /** The reading loop. A null key fails the read; otherwise every text keeps the value it should. */
  method ReadLeafMap(items: seq<Item>) returns (result: Option<map<string, Value>>)
    ensures result == if HasNullKey(items) then None else Some(LeafMap(items))
  {
    var written: set<string> := {};
    var entries: map<string, Value> := map[];
    for i := 0 to |items|
      invariant forall j :: 0 <= j < i ==> !items[j].key.NullKey?
      invariant WrittenAre(items[..i], written) && entries == LeafMap(items[..i])
    {
      var Item(key, value) := items[i];
      if key.NullKey? {
        return None;
      }
      LeafMapSnoc(items[..i], items[i], written);
      WrittenSnoc(items[..i], items[i], written);
      assert items[..i + 1] == items[..i] + [items[i]];
      var text := key.Text();
      if value == Null {
        entries := if text in entries then entries else entries[text := Null];
      } else if key.TextKey? {
        written := written + {text};
        entries := entries[text := value];
      } else if text !in written {
        entries := entries[text := value];
      }
    }
    assert items[..|items|] == items;
    result := Some(entries);
  }
}
