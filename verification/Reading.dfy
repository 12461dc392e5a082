/** Reading a parsed YAML document into sections and values, and from there into the base value. */
module Reading {
  import opened Wrappers
  import opened Json
  import opened Resolution
  import opened Documents
  import opened LeafMaps
  import opened KeyResolution
  import opened Stability

  /** A parsed document. A scalar is any value that is neither a list nor a map. */
  datatype Yaml = Scalar(value: Value) | Sequence(items: seq<Yaml>) | Mapping(entries: seq<YamlEntry>)
  datatype YamlEntry = YamlEntry(key: Key, node: Yaml)

  /** What the parser guarantees: no map repeats a key, and scalars are scalars. */
  ghost predicate Parsed(y: Yaml)
    decreases y
  {
    match y
    case Scalar(value) => !value.Object?
    case Sequence(items) => forall i :: 0 <= i < |items| ==> Parsed(items[i])
    case Mapping(entries) =>
      && (forall i, j :: 0 <= i < j < |entries| ==> entries[i].key.written != entries[j].key.written)
      && (forall i :: 0 <= i < |entries| ==> Parsed(entries[i].node))
  }

  // ---------- outside the schema: every key as written ----------

  function Plain(y: Yaml): Value
    decreases y
  {
    match y
    case Scalar(value) => value
    case Sequence(items) => List(PlainList(items))
    case Mapping(entries) => Object(PlainFields(entries))
  }

  function PlainList(items: seq<Yaml>): seq<Value>
    decreases items
  {
    if items == [] then []
    else
      var n := |items| - 1;
      PlainList(items[..n]) + [Plain(items[n])]
  }

  function PlainFields(entries: seq<YamlEntry>): map<string, Value>
    decreases entries
  {
    if entries == [] then map[]
    else
      var n := |entries| - 1;
      PlainFields(entries[..n])[entries[n].key.written := PlainEntry(entries[n])]
  }

  function PlainEntry(entry: YamlEntry): Value
    decreases entry
  {
    Plain(entry.node)
  }

  // ---------- inside a leaf: every key rendered ----------

  function LeafValue(y: Yaml): Option<Value>
    decreases y
  {
    match y
    case Scalar(value) => Some(value)
    case Sequence(items) => (match LeafList(items) case None => None case Some(values) => Some(List(values)))
    case Mapping(entries) =>
      match LeafItems(entries)
      case None => None
      case Some(items) => if HasNullKey(items) then None else Some(Object(LeafMap(items)))
  }

  function LeafList(items: seq<Yaml>): Option<seq<Value>>
    decreases items
  {
    if items == [] then Some([])
    else
      var n := |items| - 1;
      match (LeafList(items[..n]), LeafValue(items[n]))
      case (Some(values), Some(value)) => Some(values + [value])
      case _ => None
  }

  function LeafItems(entries: seq<YamlEntry>): Option<seq<Item>>
    decreases entries
  {
    if entries == [] then Some([])
    else
      var n := |entries| - 1;
      match (LeafItems(entries[..n]), LeafEntry(entries[n]))
      case (Some(items), Some(value)) => Some(items + [Item(entries[n].key, value)])
      case _ => None
  }

  function LeafEntry(entry: YamlEntry): Option<Value>
    decreases entry
  {
    LeafValue(entry.node)
  }

  // ---------- sections ----------

  /** Reads an entry of the section at `section`, as the shape its canonical path calls for. */
  function ReadEntry(schema: Schema, section: Path, entry: YamlEntry): Option<Node>
    decreases entry
  {
    var path := schema.CanonicalPath(section, entry.key.written);
    match schema.Kind(path)
    case None => Some(Held(Plain(entry.node)))
    case Some(LeafPath) => (match LeafValue(entry.node) case None => None case Some(value) => Some(Held(value)))
    case Some(SectionPath) => ReadSection(schema, path, entry.node)
  }

  /** A map where a section belongs is the section; anything else is outside the schema. */
  function ReadSection(schema: Schema, section: Path, y: Yaml): Option<Node>
    decreases y
  {
    match y
    case Mapping(entries) =>
      (match ReadEntries(schema, section, entries) case None => None case Some(read) => Some(Section(read)))
    case _ => Some(Held(Plain(y)))
  }

  function ReadEntries(schema: Schema, section: Path, entries: seq<YamlEntry>): Option<seq<Entry>>
    decreases entries
  {
    if entries == [] then Some([])
    else
      var n := |entries| - 1;
      match (ReadEntries(schema, section, entries[..n]), ReadEntry(schema, section, entries[n]))
      case (Some(read), Some(node)) => Some(read + [Entry(entries[n].key.written, node)])
      case _ => None
  }

  /** The base value of a document, or nothing if a leaf's map has a null key. */
  function FromDocument(schema: Schema, y: Yaml): Option<Value> {
    match y
    case Mapping(entries) =>
      (match ReadEntries(schema, [], entries)
       case None => None
       case Some(read) => Some(Object(Resolve(schema, read))))
    case _ => Some(Plain(y))
  }

  // ---------- what reading guarantees ----------

  lemma {:induction false} ReadKeys(schema: Schema, section: Path, entries: seq<YamlEntry>)
    requires ReadEntries(schema, section, entries).Some?
    ensures
      var read := ReadEntries(schema, section, entries).value;
      |read| == |entries| && forall i :: 0 <= i < |read| ==> read[i].key == entries[i].key.written
  {
    if entries != [] {
      ReadKeys(schema, section, entries[..|entries| - 1]);
    }
  }

  lemma {:induction false} EntriesWellRead(schema: Schema, written: Path, entries: seq<YamlEntry>)
    requires Parsed(Mapping(entries)) && ReadEntries(schema, schema.Canon(written), entries).Some?
    ensures
      var read := ReadEntries(schema, schema.Canon(written), entries).value;
      forall i :: 0 <= i < |read| ==> WellRead(schema, read[i].node, written + [read[i].key])
    decreases entries
  {
    if entries != [] {
      var n := |entries| - 1;
      assert Parsed(Mapping(entries[..n]));
      EntriesWellRead(schema, written, entries[..n]);
      EntryWellRead(schema, written, entries[n]);
    }
  }

  lemma {:induction false} EntryWellRead(schema: Schema, written: Path, entry: YamlEntry)
    requires Parsed(entry.node) && ReadEntry(schema, schema.Canon(written), entry).Some?
    ensures WellRead(schema, ReadEntry(schema, schema.Canon(written), entry).value, written + [entry.key.written])
    decreases entry
  {
    var key := entry.key.written;
    assert (written + [key])[..|written|] == written;
    var path := schema.CanonicalPath(schema.Canon(written), key);
    assert path == schema.Canon(written + [key]);
    if entry.node.Mapping? && schema.Kind(path) == Some(SectionPath) {
      MappingWellRead(schema, written + [key], entry.node);
    }
  }

  lemma {:induction false} MappingWellRead(schema: Schema, written: Path, y: Yaml)
    requires Parsed(y) && y.Mapping? && ReadEntries(schema, schema.Canon(written), y.entries).Some?
    requires written == [] || schema.IsSection(schema.Canon(written))
    ensures WellRead(schema, Section(ReadEntries(schema, schema.Canon(written), y.entries).value), written)
    decreases y
  {
    EntriesWellRead(schema, written, y.entries);
    ReadKeys(schema, schema.Canon(written), y.entries);
  }

  /** Whatever the parser accepts is read as a document the resolution theorems are about. */
  lemma ReadIsDocument(schema: Schema, entries: seq<YamlEntry>)
    requires schema.Valid() && Parsed(Mapping(entries)) && ReadEntries(schema, [], entries).Some?
    ensures IsDocument(schema, ReadEntries(schema, [], entries).value)
  {
    MappingWellRead(schema, [], Mapping(entries));
  }

  // ---------- documents without Datadog paths ----------

  lemma {:induction false} HeldLast(init: seq<Entry>, last: Entry)
    requires last.node.Held?
    ensures FieldsAsWritten(init + [last]) == FieldsAsWritten(init)[last.key := last.node.value]
    ensures Values(init + [last], []) == Values(init, []) + [Placed([last.key], last.node.value)]
    ensures Sections(init + [last], []) == Sections(init, [])
  {
    assert (init + [last])[..|init|] == init;
    assert [] + [last.key] == [last.key];
  }

  lemma {:induction false} UnknownStays(schema: Schema, key: string)
    requires schema.Kind(schema.CanonicalPath([], key)) == None
    ensures schema.Stays([key])
  {}

  lemma {:induction false} PlainEntries(schema: Schema, entries: seq<YamlEntry>)
    requires forall i :: 0 <= i < |entries| ==> schema.Kind(schema.CanonicalPath([], entries[i].key.written)) == None
    ensures ReadEntries(schema, [], entries).Some?
    ensures
      var read := ReadEntries(schema, [], entries).value;
      && FieldsAsWritten(read) == PlainFields(entries)
      && (forall v :: v in Values(read, []) ==> schema.Stays(v.path))
      && Sections(read, []) == []
    decreases entries
  {
    if entries != [] {
      var n := |entries| - 1;
      PlainEntries(schema, entries[..n]);
      var init := ReadEntries(schema, [], entries[..n]).value;
      var last := Entry(entries[n].key.written, Held(Plain(entries[n].node)));
      assert ReadEntries(schema, [], entries) == Some(init + [last]);
      HeldLast(init, last);
      UnknownStays(schema, last.key);
    }
  }

  /** A document with no Datadog path is read exactly as written. */
  lemma NoDatadogPath(schema: Schema, entries: seq<YamlEntry>)
    requires schema.Valid() && Parsed(Mapping(entries))
    requires forall i :: 0 <= i < |entries| ==> schema.Kind(schema.CanonicalPath([], entries[i].key.written)) == None
    ensures FromDocument(schema, Mapping(entries)) == Some(Plain(Mapping(entries)))
  {
    PlainEntries(schema, entries);
    ReadIsDocument(schema, entries);
    AsWrittenWhenUnrespelled(schema, ReadEntries(schema, [], entries).value);
  }
}
