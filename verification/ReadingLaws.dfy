/** What a parsed document comes to, said of the document itself: which of its nodes are gathered, what each is
    worth, and where it is found in the base value. */
module ReadingLaws {
  import opened Wrappers
  import opened Json
  import opened Resolution
  import opened Documents
  import opened LeafMaps
  import opened KeyResolution
  import opened Reading
  import opened Spellings

  // ---------- outside the schema ----------

  lemma {:induction false} PlainItems(items: seq<Yaml>)
    ensures |PlainList(items)| == |items| && forall i :: 0 <= i < |items| ==> PlainList(items)[i] == Plain(items[i])
  {
    if items != [] {
      PlainItems(items[..|items| - 1]);
    }
  }

  lemma {:induction false} PlainKeys(entries: seq<YamlEntry>)
    ensures PlainFields(entries).Keys == set i | 0 <= i < |entries| :: entries[i].key.written
  {
    if entries != [] {
      var n := |entries| - 1;
      PlainKeys(entries[..n]);
      assert forall i :: 0 <= i < n ==> entries[..n][i] == entries[i];
    }
  }

  lemma {:induction false} PlainField(entries: seq<YamlEntry>, i: nat)
    requires Parsed(Mapping(entries)) && i < |entries|
    ensures entries[i].key.written in PlainFields(entries)
    ensures PlainFields(entries)[entries[i].key.written] == Plain(entries[i].node)
  {
    var n := |entries| - 1;
    if i < n {
      assert Parsed(Mapping(entries[..n]));
      PlainField(entries[..n], i);
      assert entries[i].key.written != entries[n].key.written;
    }
  }

  /** What a document holds at a path, every key as written. */
  ghost predicate HeldAt(y: Yaml, p: Path, x: Yaml)
    decreases |p|
  {
    if p == [] then y == x
    else y.Mapping? && exists i :: 0 <= i < |y.entries| && y.entries[i].key.written == p[0] && HeldAt(y.entries[i].node, p[1..], x)
  }

  /** Outside the schema the value of a document is the document, path by path. */
  lemma {:induction false} PlainAt(y: Yaml, p: Path, x: Yaml)
    requires Parsed(y) && HeldAt(y, p, x)
    ensures At(Plain(y), p) == Some(Plain(x))
    decreases |p|
  {
    if p != [] {
      var i :| 0 <= i < |y.entries| && y.entries[i].key.written == p[0] && HeldAt(y.entries[i].node, p[1..], x);
      PlainField(y.entries, i);
      PlainAt(y.entries[i].node, p[1..], x);
    }
  }

  /** And nothing else is in it. */
  lemma {:induction false} PlainOnly(y: Yaml, p: Path) returns (x: Yaml)
    requires Parsed(y) && At(Plain(y), p).Some?
    ensures HeldAt(y, p, x)
    decreases |p|
  {
    if p == [] {
      x := y;
    } else {
      PlainKeys(y.entries);
      var i :| 0 <= i < |y.entries| && y.entries[i].key.written == p[0];
      PlainField(y.entries, i);
      x := PlainOnly(y.entries[i].node, p[1..]);
    }
  }

  // ---------- inside a leaf ----------

  lemma {:induction false} LeafElements(items: seq<Yaml>)
    ensures LeafList(items).Some? <==> forall i :: 0 <= i < |items| ==> LeafValue(items[i]).Some?
    ensures LeafList(items).Some? ==> |LeafList(items).value| == |items|
    ensures LeafList(items).Some? ==> forall i :: 0 <= i < |items| ==> LeafValue(items[i]) == Some(LeafList(items).value[i])
  {
    if items != [] {
      var n := |items| - 1;
      LeafElements(items[..n]);
      assert forall i :: 0 <= i < n ==> items[..n][i] == items[i];
    }
  }

  lemma {:induction false} LeafEntries(entries: seq<YamlEntry>)
    ensures LeafItems(entries).Some? <==> forall i :: 0 <= i < |entries| ==> LeafValue(entries[i].node).Some?
    ensures LeafItems(entries).Some? ==> |LeafItems(entries).value| == |entries|
    ensures LeafItems(entries).Some? ==>
              forall i :: 0 <= i < |entries| ==>
                LeafItems(entries).value[i].key == entries[i].key &&
                LeafValue(entries[i].node) == Some(LeafItems(entries).value[i].value)
  {
    if entries != [] {
      var n := |entries| - 1;
      LeafEntries(entries[..n]);
      assert forall i :: 0 <= i < n ==> entries[..n][i] == entries[i];
    }
  }

  /** Some map at any depth has a null key. */
  ghost predicate NullKeyed(y: Yaml)
    decreases y
  {
    match y
    case Scalar(_) => false
    case Sequence(items) => exists i :: 0 <= i < |items| && NullKeyed(items[i])
    case Mapping(entries) => exists i :: 0 <= i < |entries| && (entries[i].key.NullKey? || NullKeyed(entries[i].node))
  }

  /** A leaf can be read exactly if no map in it has a null key. */
  lemma {:induction false} LeafReadsIff(y: Yaml)
    ensures LeafValue(y).Some? <==> !NullKeyed(y)
    decreases y
  {
    match y
    case Scalar(_) =>
    case Sequence(items) =>
      LeafElements(items);
      forall i | 0 <= i < |items| ensures LeafValue(items[i]).Some? <==> !NullKeyed(items[i]) {
        LeafReadsIff(items[i]);
      }
    case Mapping(entries) =>
      LeafEntries(entries);
      forall i | 0 <= i < |entries| ensures LeafValue(entries[i].node).Some? <==> !NullKeyed(entries[i].node) {
        LeafReadsIff(entries[i].node);
      }
  }

  /** Every key at any depth is text already. */
  ghost predicate TextKeyed(y: Yaml)
    decreases y
  {
    match y
    case Scalar(_) => true
    case Sequence(items) => forall i :: 0 <= i < |items| ==> TextKeyed(items[i])
    case Mapping(entries) => forall i :: 0 <= i < |entries| ==> entries[i].key.TextKey? && TextKeyed(entries[i].node)
  }

  lemma {:induction false} OnlyKey(items: seq<Item>, i: nat)
    requires i < |items| && items[i].key.TextKey?
    requires forall j, k :: 0 <= j < k < |items| ==> items[j].key.Text() != items[k].key.Text()
    ensures LeafMaps.Kept(items, items[i].key.Text()) == items[i].value
  {
    var text := items[i].key.Text();
    LastOnly(items, i, false);
    LastOnly(items, i, true);
  }

  lemma {:induction false} LastOnly(items: seq<Item>, i: nat, typed: bool)
    requires i < |items| && forall j :: 0 <= j < |items| && j != i ==> items[j].key.Text() != items[i].key.Text()
    ensures Last(items, items[i].key.Text(), typed) ==
            if items[i].key.TypedKey? == typed && items[i].value != Null then Some(items[i].value) else None
  {
    var n := |items| - 1;
    if i < n {
      LastOnly(items[..n], i, typed);
    } else {
      UntouchedIsNull(items[..n], items[i].key.Text());
    }
  }

  /** A leaf whose keys are all text is read as it stands. */
  lemma {:induction false} LeafAsWritten(y: Yaml)
    requires Parsed(y) && TextKeyed(y)
    ensures LeafValue(y) == Some(Plain(y))
    decreases y
  {
    match y
    case Scalar(_) =>
    case Sequence(items) =>
      forall i | 0 <= i < |items| ensures LeafValue(items[i]) == Some(Plain(items[i])) {
        LeafAsWritten(items[i]);
      }
      LeafElements(items);
      PlainItems(items);
      assert LeafList(items).value == PlainList(items);
    case Mapping(entries) =>
      forall i | 0 <= i < |entries| ensures LeafValue(entries[i].node) == Some(Plain(entries[i].node)) {
        LeafAsWritten(entries[i].node);
      }
      LeafEntries(entries);
      TextMap(entries);
  }

  lemma {:induction false} TextKept(entries: seq<YamlEntry>, items: seq<Item>, i: nat)
    requires Parsed(Mapping(entries)) && LeafItems(entries) == Some(items)
    requires forall j :: 0 <= j < |entries| ==> entries[j].key.TextKey?
    requires i < |entries| && LeafValue(entries[i].node) == Some(Plain(entries[i].node))
    ensures |items| == |entries| && items[i].key == entries[i].key
    ensures LeafMaps.Kept(items, entries[i].key.written) == Plain(entries[i].node)
  {
    LeafEntries(entries);
    OnlyKey(items, i);
  }

  lemma {:induction false} TextMap(entries: seq<YamlEntry>)
    requires Parsed(Mapping(entries)) && LeafItems(entries).Some?
    requires forall i :: 0 <= i < |entries| ==> entries[i].key.TextKey?
    requires forall i :: 0 <= i < |entries| ==> LeafValue(entries[i].node) == Some(Plain(entries[i].node))
    ensures !HasNullKey(LeafItems(entries).value) && LeafMap(LeafItems(entries).value) == PlainFields(entries)
  {
    var items, fields := LeafItems(entries).value, PlainFields(entries);
    LeafEntries(entries);
    PlainKeys(entries);
    assert forall i :: 0 <= i < |items| ==> items[i].key.Text() == entries[i].key.written;
    assert Texts(items) == fields.Keys;
    forall text | text in Texts(items) ensures fields[text] == LeafMaps.Kept(items, text) {
      var i :| 0 <= i < |items| && items[i].key.Text() == text;
      TextKept(entries, items, i);
      PlainField(entries, i);
    }
    IsLeafMap(items, Texts(items), fields);
  }

  lemma {:induction false} LastIs(items: seq<Item>, i: nat)
    requires i < |items| && items[i].value != Null
    requires forall j :: i < j < |items| && items[j].value != Null && items[j].key.TypedKey? == items[i].key.TypedKey? ==>
               items[j].key.Text() != items[i].key.Text()
    ensures Last(items, items[i].key.Text(), items[i].key.TypedKey?) == Some(items[i].value)
  {
    var n := |items| - 1;
    if i < n {
      LastIs(items[..n], i);
    }
  }

  lemma {:induction false} LastIsNone(items: seq<Item>, text: string)
    requires forall j :: 0 <= j < |items| && items[j].key.Text() == text && !items[j].key.TypedKey? ==> items[j].value == Null
    ensures Last(items, text, false) == None
  {
    if items != [] {
      LastIsNone(items[..|items| - 1], text);
    }
  }

  /** An entry under `text`: written as that text, or typed and rendered to it. */
  predicate Renders(entry: YamlEntry, text: string, typed: bool) {
    match entry.key
    case TextKey(written) => !typed && written == text
    case TypedKey(_, rendered) => typed && rendered == text
    case NullKey(_) => false
  }

  /** The map of a leaf keeps, under each text, what is written as that text; else what is rendered to it last. */
  lemma {:induction false} LeafKeeps(entries: seq<YamlEntry>, i: nat, text: string, typed: bool, v: Value)
    requires LeafValue(Mapping(entries)).Some?
    requires i < |entries| && Renders(entries[i], text, typed) && LeafValue(entries[i].node) == Some(v) && v != Null
    requires forall j :: i < j < |entries| && Renders(entries[j], text, typed) ==> LeafValue(entries[j].node) == Some(Null)
    requires typed ==> forall j :: 0 <= j < |entries| && Renders(entries[j], text, false) ==> LeafValue(entries[j].node) == Some(Null)
    ensures At(LeafValue(Mapping(entries)).value, [text]) == Some(v)
  {
    var items := LeafItems(entries).value;
    LeafEntries(entries);
    LastIs(items, i);
    if typed {
      LastIsNone(items, text);
    }
    assert text in Texts(items);
    AtCons(Object(LeafMap(items)), text, []);
    assert [text] + [] == [text];
  }

  // ---------- the nodes that are gathered ----------

  /** What reading the map at `written` comes to at `p` below it: every key on the way spells a section. */
  ghost predicate Reached(schema: Schema, written: Path, entries: seq<YamlEntry>, p: Path, x: Yaml)
    decreases |p|, 1
  {
    p != [] && exists i :: 0 <= i < |entries| && ReachedIn(schema, written, entries[i], p, x)
  }

  ghost predicate ReachedIn(schema: Schema, written: Path, entry: YamlEntry, p: Path, x: Yaml)
    requires p != []
    decreases |p|, 0
  {
    && entry.key.written == p[0]
    && if |p| == 1 then entry.node == x
       else NamesSection(schema, written + [p[0]]) && entry.node.Mapping? &&
            Reached(schema, written + [p[0]], entry.node.entries, p[1..], x)
  }

  /** A map where a section belongs is no value. */
  ghost predicate IsValue(schema: Schema, w: Path, x: Yaml) {
    NamesSection(schema, w) ==> !x.Mapping?
  }

  /** What a node is worth as a value: a leaf with its keys rendered, or anything else as written. */
  ghost predicate Worth(schema: Schema, w: Path, x: Yaml, value: Value) {
    if NamesLeaf(schema, w) then LeafValue(x) == Some(value) else value == Plain(x)
  }

  lemma {:induction false} ReadAt(schema: Schema, section: Path, entries: seq<YamlEntry>, i: nat)
    requires ReadEntries(schema, section, entries).Some? && i < |entries|
    ensures
      var read := ReadEntries(schema, section, entries).value;
      && |read| == |entries| && read[i].key == entries[i].key.written
      && ReadEntry(schema, section, entries[i]) == Some(read[i].node)
  {
    var n := |entries| - 1;
    ReadKeys(schema, section, entries);
    ReadKeys(schema, section, entries[..n]);
    if i < n {
      ReadAt(schema, section, entries[..n], i);
    }
  }

  /** An entry where a section belongs is read as the entries of its map. */
  lemma {:induction false} SectionRead(schema: Schema, written: Path, entry: YamlEntry)
    requires schema.Valid() && !IsValue(schema, written + [entry.key.written], entry.node)
    ensures
      var w := written + [entry.key.written];
      var read, inside := ReadEntry(schema, schema.Canon(written), entry), ReadEntries(schema, schema.Canon(w), entry.node.entries);
      && read.Some? == inside.Some?
      && (inside.Some? ==> NodeValues(read.value, w) == Values(inside.value, w))
  {
    var w := written + [entry.key.written];
    assert w[..|written|] == written;
    assert schema.Canon(w) == schema.CanonicalPath(schema.Canon(written), entry.key.written);
    KindByName(schema, w);
  }

  /** Any other entry is read as one value, unless it is a leaf with a null key in it. */
  lemma {:induction false} ValueRead(schema: Schema, written: Path, entry: YamlEntry, value: Value)
    requires schema.Valid() && IsValue(schema, written + [entry.key.written], entry.node)
    ensures
      var w := written + [entry.key.written];
      var read := ReadEntry(schema, schema.Canon(written), entry);
      && (read.None? <==> NamesLeaf(schema, w) && LeafValue(entry.node).None?)
      && (read.Some? && Worth(schema, w, entry.node, value) ==> NodeValues(read.value, w) == [Placed(w, value)])
      && (read.Some? ==> |NodeValues(read.value, w)| == 1 && NodeValues(read.value, w)[0].path == w &&
                         Worth(schema, w, entry.node, NodeValues(read.value, w)[0].value))
  {
    var w := written + [entry.key.written];
    assert w[..|written|] == written;
    assert schema.Canon(w) == schema.CanonicalPath(schema.Canon(written), entry.key.written);
    KindByName(schema, w);
  }

  /** Every value a document reaches is gathered, at the path it is written at. */
  lemma {:induction false} ReachedIsGathered(schema: Schema, written: Path, entries: seq<YamlEntry>, p: Path, x: Yaml, value: Value)
    requires schema.Valid() && ReadEntries(schema, schema.Canon(written), entries).Some?
    requires Reached(schema, written, entries, p, x) && IsValue(schema, written + p, x) && Worth(schema, written + p, x, value)
    ensures Placed(written + p, value) in Values(ReadEntries(schema, schema.Canon(written), entries).value, written)
    decreases |p|, 1
  {
    var i :| 0 <= i < |entries| && ReachedIn(schema, written, entries[i], p, x);
    ReadAt(schema, schema.Canon(written), entries, i);
    EntryIsGathered(schema, written, entries[i], p, x, value);
    EntryValue(ReadEntries(schema, schema.Canon(written), entries).value, written, i, Placed(written + p, value));
  }

  lemma {:induction false} EntryIsGathered(schema: Schema, written: Path, entry: YamlEntry, p: Path, x: Yaml, value: Value)
    requires schema.Valid() && ReadEntry(schema, schema.Canon(written), entry).Some?
    requires p != [] && ReachedIn(schema, written, entry, p, x)
    requires IsValue(schema, written + p, x) && Worth(schema, written + p, x, value)
    ensures Placed(written + p, value) in NodeValues(ReadEntry(schema, schema.Canon(written), entry).value, written + [entry.key.written])
    decreases |p|, 0
  {
    if |p| == 1 {
      assert p == [p[0]];
      ValueRead(schema, written, entry, value);
    } else {
      assert written + [p[0]] + p[1..] == written + p;
      SectionRead(schema, written, entry);
      ReachedIsGathered(schema, written + [p[0]], entry.node.entries, p[1..], x, value);
    }
  }

  lemma {:induction false} ReachedDeeper(schema: Schema, written: Path, entry: YamlEntry, q: Path, x: Yaml)
    requires !IsValue(schema, written + [entry.key.written], entry.node)
    requires Reached(schema, written + [entry.key.written], entry.node.entries, q, x)
    ensures ReachedIn(schema, written, entry, [entry.key.written] + q, x)
    ensures written + [entry.key.written] + q == written + ([entry.key.written] + q)
  {
    assert ([entry.key.written] + q)[1..] == q;
  }

  /** Every value that is gathered is one the document reaches. */
  lemma {:induction false} GatheredIsReached(schema: Schema, written: Path, entries: seq<YamlEntry>, v: Placed)
    returns (p: Path, x: Yaml)
    requires schema.Valid() && ReadEntries(schema, schema.Canon(written), entries).Some?
    requires v in Values(ReadEntries(schema, schema.Canon(written), entries).value, written)
    ensures v.path == written + p && Reached(schema, written, entries, p, x)
    ensures IsValue(schema, written + p, x) && Worth(schema, written + p, x, v.value)
    decreases entries
  {
    var read := ReadEntries(schema, schema.Canon(written), entries).value;
    ReadKeys(schema, schema.Canon(written), entries);
    var i := ValueEntry(read, written, v);
    ReadAt(schema, schema.Canon(written), entries, i);
    p, x := EntryIsReached(schema, written, entries[i], v);
  }

  lemma {:induction false} EntryIsReached(schema: Schema, written: Path, entry: YamlEntry, v: Placed)
    returns (p: Path, x: Yaml)
    requires schema.Valid() && ReadEntry(schema, schema.Canon(written), entry).Some?
    requires v in NodeValues(ReadEntry(schema, schema.Canon(written), entry).value, written + [entry.key.written])
    ensures v.path == written + p && p != [] && ReachedIn(schema, written, entry, p, x)
    ensures IsValue(schema, written + p, x) && Worth(schema, written + p, x, v.value)
    decreases entry
  {
    var key, node := entry.key.written, entry.node;
    if IsValue(schema, written + [key], node) {
      ValueRead(schema, written, entry, v.value);
      p, x := [key], node;
    } else {
      SectionRead(schema, written, entry);
      var q;
      q, x := GatheredIsReached(schema, written + [key], node.entries, v);
      ReachedDeeper(schema, written, entry, q, x);
      p := [key] + q;
    }
  }

  // ---------- documents that cannot be read ----------

  lemma {:induction false} ReadsEach(schema: Schema, section: Path, entries: seq<YamlEntry>)
    ensures ReadEntries(schema, section, entries).Some? <==>
            forall i :: 0 <= i < |entries| ==> ReadEntry(schema, section, entries[i]).Some?
  {
    if entries != [] {
      var n := |entries| - 1;
      ReadsEach(schema, section, entries[..n]);
      assert forall i :: 0 <= i < n ==> entries[..n][i] == entries[i];
    }
  }

  /** The document reaches a setting that has a null key in it. */
  ghost predicate Fault(schema: Schema, written: Path, entries: seq<YamlEntry>, p: Path, x: Yaml) {
    Reached(schema, written, entries, p, x) && NamesLeaf(schema, written + p) && NullKeyed(x)
  }

  lemma {:induction false} LeafIsNoSection(schema: Schema, w: Path)
    requires schema.Valid() && w != [] && NamesLeaf(schema, w)
    ensures !NamesSection(schema, w)
  {
    KindByName(schema, w);
  }

  lemma {:induction false} FaultFails(schema: Schema, written: Path, entries: seq<YamlEntry>, p: Path, x: Yaml)
    requires schema.Valid() && Fault(schema, written, entries, p, x)
    ensures ReadEntries(schema, schema.Canon(written), entries).None?
    decreases |p|
  {
    var i :| 0 <= i < |entries| && ReachedIn(schema, written, entries[i], p, x);
    if |p| == 1 {
      assert p == [p[0]];
      LeafIsNoSection(schema, written + p);
      LeafReadsIff(x);
      ValueRead(schema, written, entries[i], Null);
    } else {
      assert written + [p[0]] + p[1..] == written + p;
      SectionRead(schema, written, entries[i]);
      FaultFails(schema, written + [p[0]], entries[i].node.entries, p[1..], x);
    }
    ReadsEach(schema, schema.Canon(written), entries);
  }

  lemma {:induction false} FailureFound(schema: Schema, written: Path, entries: seq<YamlEntry>) returns (p: Path, x: Yaml)
    requires schema.Valid() && ReadEntries(schema, schema.Canon(written), entries).None?
    ensures Fault(schema, written, entries, p, x)
    decreases entries
  {
    ReadsEach(schema, schema.Canon(written), entries);
    var i :| 0 <= i < |entries| && ReadEntry(schema, schema.Canon(written), entries[i]).None?;
    p, x := EntryFailure(schema, written, entries[i]);
  }

  lemma {:induction false} EntryFailure(schema: Schema, written: Path, entry: YamlEntry) returns (p: Path, x: Yaml)
    requires schema.Valid() && ReadEntry(schema, schema.Canon(written), entry).None?
    ensures p != [] && ReachedIn(schema, written, entry, p, x) && NamesLeaf(schema, written + p) && NullKeyed(x)
    decreases entry
  {
    var key, node := entry.key.written, entry.node;
    if IsValue(schema, written + [key], node) {
      ValueRead(schema, written, entry, Null);
      LeafReadsIff(node);
      p, x := [key], node;
    } else {
      SectionRead(schema, written, entry);
      var q;
      q, x := FailureFound(schema, written + [key], node.entries);
      ReachedDeeper(schema, written, entry, q, x);
      p := [key] + q;
    }
  }

  /** A document cannot be read exactly if some setting in it has a null key, at any depth. */
  lemma {:induction false} UnreadableIff(schema: Schema, entries: seq<YamlEntry>)
    requires schema.Valid()
    ensures FromDocument(schema, Mapping(entries)).None? <==> exists p, x :: Fault(schema, [], entries, p, x)
  {
    assert schema.Canon([]) == [];
    if p, x :| Fault(schema, [], entries, p, x) {
      FaultFails(schema, [], entries, p, x);
    } else if FromDocument(schema, Mapping(entries)).None? {
      var p, x := FailureFound(schema, [], entries);
    }
  }

  // ---------- the base value ----------

  /** Whatever spells a setting and can be read is gathered, with its keys rendered. */
  lemma {:induction false} SettingGathered(schema: Schema, entries: seq<YamlEntry>, w: Path, l: Path, x: Yaml)
    requires schema.Valid() && l in schema.leaves && ReadEntries(schema, [], entries).Some?
    requires Reached(schema, [], entries, w, x) && Name(schema, w) == Joined(l) && LeafValue(x).Some?
    ensures Placed(w, LeafValue(x).value) in Values(ReadEntries(schema, [], entries).value, [])
  {
    assert schema.Canon([]) == [] && [] + w == w;
    assert NamesLeaf(schema, w);
    KindByName(schema, w);
    ReachedIsGathered(schema, [], entries, w, x, LeafValue(x).value);
  }

  lemma {:induction false} LeafSpellsItself(schema: Schema, l: Path)
    requires schema.Valid() && l in schema.leaves
    ensures Name(schema, l) == Joined(l) && schema.Stays(l)
  {
    CanonFixed(schema, l, l);
    CanonIsName(schema, l);
    GoesToLeafIff(schema, l, l);
  }

  /** A setting written at its own path, in any sections it lies in, is what the base value holds there. */
  lemma {:induction false} SettingReads(schema: Schema, entries: seq<YamlEntry>, l: Path, x: Yaml)
    requires schema.Valid() && Parsed(Mapping(entries)) && l in schema.leaves
    requires FromDocument(schema, Mapping(entries)).Some? && Reached(schema, [], entries, l, x)
    requires LeafValue(x).Some? && LeafValue(x) != Some(Null)
    ensures At(FromDocument(schema, Mapping(entries)).value, l) == LeafValue(x)
  {
    var read := ReadEntries(schema, [], entries).value;
    LeafSpellsItself(schema, l);
    SettingGathered(schema, entries, l, l, x);
    ReadIsDocument(schema, entries);
    InPlaceReadsBack(schema, read, Placed(l, LeafValue(x).value));
  }

  /** In particular a scalar is itself, and a setting whose keys are all text is what is written. */
  lemma {:induction false} WrittenSettingReads(schema: Schema, entries: seq<YamlEntry>, l: Path, x: Yaml)
    requires schema.Valid() && Parsed(Mapping(entries)) && Parsed(x) && l in schema.leaves
    requires FromDocument(schema, Mapping(entries)).Some? && Reached(schema, [], entries, l, x)
    ensures forall v :: x == Yaml.Scalar(v) && v != Null ==> At(FromDocument(schema, Mapping(entries)).value, l) == Some(v)
    ensures TextKeyed(x) && Plain(x) != Null ==> At(FromDocument(schema, Mapping(entries)).value, l) == Some(Plain(x))
  {
    if TextKeyed(x) && Plain(x) != Null {
      LeafAsWritten(x);
      SettingReads(schema, entries, l, x);
    }
  }

  lemma {:induction false} UnknownGathered(schema: Schema, entries: seq<YamlEntry>, w: Path, x: Yaml)
    requires schema.Valid() && ReadEntries(schema, [], entries).Some?
    requires Reached(schema, [], entries, w, x) && Unknown(schema, w)
    ensures Placed(w, Plain(x)) in Values(ReadEntries(schema, [], entries).value, [])
  {
    assert schema.Canon([]) == [] && [] + w == w;
    ReachedIsGathered(schema, [], entries, w, x, Plain(x));
  }

  lemma {:induction false} UnknownStays(schema: Schema, w: Path)
    requires schema.Valid() && Unknown(schema, w)
    requires Dotless(w[..|w| - 1]) && Joined(w[..|w| - 1]) == Name(schema, w[..|w| - 1])
    ensures schema.Stays(w)
  {
    assert w == w[..|w| - 1] + [w[|w| - 1]];
    GoesWithSection(schema, w, w[..|w| - 1]);
  }

  /** A key that spells neither a setting nor a section, written where its section belongs, is what is written. */
  lemma {:induction false} UnknownReads(schema: Schema, entries: seq<YamlEntry>, w: Path, x: Yaml)
    requires schema.Valid() && Parsed(Mapping(entries)) && FromDocument(schema, Mapping(entries)).Some?
    requires Reached(schema, [], entries, w, x) && Unknown(schema, w) && Plain(x) != Null
    requires Dotless(w[..|w| - 1]) && Joined(w[..|w| - 1]) == Name(schema, w[..|w| - 1])
    ensures At(FromDocument(schema, Mapping(entries)).value, w) == Some(Plain(x))
  {
    var read := ReadEntries(schema, [], entries).value;
    UnknownGathered(schema, entries, w, x);
    UnknownStays(schema, w);
    ReadIsDocument(schema, entries);
    InPlaceReadsBack(schema, read, Placed(w, Plain(x)));
  }

  /** A path on the way to a setting spells a section. */
  lemma {:induction false} AboveNamesSection(schema: Schema, u: Path, l: Path)
    requires schema.Valid() && l in schema.leaves && u != [] && u < l
    ensures NamesSection(schema, u) && !NamesLeaf(schema, u)
  {
    CanonFixed(schema, u, l);
    KindByName(schema, u);
    assert schema.IsSection(u);
  }

  /** Nothing else the document reaches spells the setting at `l` or is written above it, but for nulls. */
  ghost predicate Unrivalled(schema: Schema, entries: seq<YamlEntry>, w: Path, l: Path) {
    forall u, z :: Reached(schema, [], entries, u, z) && u != w ==>
      && (Name(schema, u) == Joined(l) ==> LeafValue(z) == Some(Null))
      && (u < l ==> z.Mapping? || z == Yaml.Scalar(Null))
  }

  lemma {:induction false} RivalIsNull(schema: Schema, entries: seq<YamlEntry>, w: Path, l: Path, u: Placed)
    requires schema.Valid() && l in schema.leaves && ReadEntries(schema, [], entries).Some?
    requires u in Values(ReadEntries(schema, [], entries).value, []) && u.path != w && u.path != []
    requires Unrivalled(schema, entries, w, l)
    requires Name(schema, u.path) == Joined(l) || u.path < l
    ensures u.value == Null
  {
    assert schema.Canon([]) == [];
    var p, z := GatheredIsReached(schema, [], entries, u);
    assert [] + p == p;
    if Name(schema, u.path) == Joined(l) {
      assert NamesLeaf(schema, u.path);
    } else {
      AboveNamesSection(schema, u.path, l);
    }
  }

  /** A setting spelled in any case and with any dots is what the base value holds at its path, unless the document
      also reaches another value that spells it, or one that is written above it. */
  lemma {:induction false} SpelledReads(schema: Schema, entries: seq<YamlEntry>, w: Path, l: Path, x: Yaml)
    requires schema.Valid() && Parsed(Mapping(entries)) && l in schema.leaves
    requires FromDocument(schema, Mapping(entries)).Some? && Reached(schema, [], entries, w, x) && Name(schema, w) == Joined(l)
    requires LeafValue(x).Some? && LeafValue(x) != Some(Null) && Unrivalled(schema, entries, w, l)
    ensures At(FromDocument(schema, Mapping(entries)).value, l) == LeafValue(x)
  {
    var read := ReadEntries(schema, [], entries).value;
    var v := Placed(w, LeafValue(x).value);
    SettingGathered(schema, entries, w, l, x);
    ReadIsDocument(schema, entries);
    ValuesNamed(schema, read);
    forall u | u in Values(read, []) && u != v && u.value != Null ensures Name(schema, u.path) != Joined(l) && !(u.path < l) {
      ValuesApart(schema, read, [], v, []);
      if Name(schema, u.path) == Joined(l) || u.path < l {
        RivalIsNull(schema, entries, w, l, u);
      }
    }
    SpelledLands(schema, read, v, l);
  }
}
