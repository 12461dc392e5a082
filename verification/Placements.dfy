/** The gathering and writing of a document's values as the loops they are. */
module Placements {
  import opened Json
  import opened Resolution
  import opened Documents
  import KeyResolution

  lemma {:induction false} GatheredConcat(schema: Schema, a: seq<Placed>, b: seq<Placed>)
    ensures InPlace(schema, a + b) == InPlace(schema, a) + InPlace(schema, b)
    ensures Moved(schema, a + b) == Moved(schema, a) + Moved(schema, b)
    ensures Nulls(schema, a + b) == Nulls(schema, a) + Nulls(schema, b)
    decreases |b|
  {
    if b == [] {
      assert a + b == a;
    } else {
      var n := |b| - 1;
      assert (a + b)[..|a + b| - 1] == a + b[..n];
      GatheredConcat(schema, a, b[..n]);
    }
  }

  lemma CanonicalConcat(schema: Schema, a: seq<Path>, b: seq<Path>)
    ensures Canonical(schema, a + b) == Canonical(schema, a) + Canonical(schema, b)
  {}

  lemma CollectStep(schema: Schema, entries: seq<Entry>, i: nat, written: Path)
    requires i < |entries|
    ensures
      var before, all := Values(entries[..i], written), Values(entries[..i + 1], written);
      var own := NodeValues(entries[i].node, written + [entries[i].key]);
      && InPlace(schema, all) == InPlace(schema, before) + InPlace(schema, own)
      && Moved(schema, all) == Moved(schema, before) + Moved(schema, own)
      && Nulls(schema, all) == Nulls(schema, before) + Nulls(schema, own)
    ensures Canonical(schema, Sections(entries[..i + 1], written)) ==
            Canonical(schema, Sections(entries[..i], written)) +
            Canonical(schema, NodeSections(entries[i].node, written + [entries[i].key]))
  {
    assert entries[..i + 1][..i] == entries[..i];
    GatheredConcat(schema, Values(entries[..i], written), NodeValues(entries[i].node, written + [entries[i].key]));
    CanonicalConcat(schema, Sections(entries[..i], written), NodeSections(entries[i].node, written + [entries[i].key]));
  }

  lemma Regroup<T>(a: seq<T>, b: seq<T>, c: seq<T>)
    ensures (a + b) + c == a + (b + c)
    ensures a + [] == a
  {}

  lemma CanonStep(schema: Schema, written: Path, key: string)
    ensures schema.Canon(written + [key]) == schema.CanonicalPath(schema.Canon(written), key)
    ensures schema.Target(written + [key]) == schema.Destination(schema.Canon(written), written, key)
  {}

  lemma GatheredOne(schema: Schema, v: Placed, path: Path)
    requires path == schema.Target(v.path)
    ensures InPlace(schema, [v]) == if path == v.path && v.value != Null then [v] else []
    ensures Moved(schema, [v]) == if path != v.path && v.value != Null then [Placed(path, v.value)] else []
    ensures Nulls(schema, [v]) == if path == v.path && v.value == Null then [v.path] else []
  {}

  /** What has been gathered from a document so far, in the order it was met. */
  class Placements {
    var inPlace: seq<Placed>
    var moved: seq<Placed>
    var nulls: seq<Path>
    var sections: seq<Path>

    constructor ()
      ensures inPlace == [] && moved == [] && nulls == [] && sections == []
    {
      inPlace, moved, nulls, sections := [], [], [], [];
    }

    /** Adds everything under one map, which stands at `written` and means `section`. */
    method Collect(schema: Schema, entries: seq<Entry>, section: Path, written: Path)
      requires section == schema.Canon(written)
      modifies this
      ensures inPlace == old(inPlace) + InPlace(schema, Values(entries, written))
      ensures moved == old(moved) + Moved(schema, Values(entries, written))
      ensures nulls == old(nulls) + Nulls(schema, Values(entries, written))
      ensures sections == old(sections) + Canonical(schema, Sections(entries, written))
      decreases entries
    {
      for i := 0 to |entries|
        invariant inPlace == old(inPlace) + InPlace(schema, Values(entries[..i], written))
        invariant moved == old(moved) + Moved(schema, Values(entries[..i], written))
        invariant nulls == old(nulls) + Nulls(schema, Values(entries[..i], written))
        invariant sections == old(sections) + Canonical(schema, Sections(entries[..i], written))
      {
        CollectEntry(schema, entries[i], section, written);
        CollectStep(schema, entries, i, written);
        Regroup(old(inPlace), InPlace(schema, Values(entries[..i], written)),
                InPlace(schema, NodeValues(entries[i].node, written + [entries[i].key])));
        Regroup(old(moved), Moved(schema, Values(entries[..i], written)),
                Moved(schema, NodeValues(entries[i].node, written + [entries[i].key])));
        Regroup(old(nulls), Nulls(schema, Values(entries[..i], written)),
                Nulls(schema, NodeValues(entries[i].node, written + [entries[i].key])));
        Regroup(old(sections), Canonical(schema, Sections(entries[..i], written)),
                Canonical(schema, NodeSections(entries[i].node, written + [entries[i].key])));
      }
      assert entries[..|entries|] == entries;
    }

    /** Gathers one entry: a section's children and then the section itself, or one value. */
    method CollectEntry(schema: Schema, entry: Entry, section: Path, written: Path)
      requires section == schema.Canon(written)
      modifies this
      ensures inPlace == old(inPlace) + InPlace(schema, NodeValues(entry.node, written + [entry.key]))
      ensures moved == old(moved) + Moved(schema, NodeValues(entry.node, written + [entry.key]))
      ensures nulls == old(nulls) + Nulls(schema, NodeValues(entry.node, written + [entry.key]))
      ensures sections == old(sections) + Canonical(schema, NodeSections(entry.node, written + [entry.key]))
      decreases entry
    {
      var writtenPath := written + [entry.key];
      var canonical := schema.CanonicalPath(section, entry.key);
      CanonStep(schema, written, entry.key);
      match entry.node {
        case Section(children) =>
          Collect(schema, children, canonical, writtenPath);
          sections := sections + [canonical];
          CanonicalConcat(schema, Sections(children, writtenPath), [writtenPath]);
          assert Canonical(schema, [writtenPath]) == [canonical];
        case Held(value) =>
          Place(schema, entry.key, value, section, written);
      }
    }

    /** Gathers one value. */
    method Place(schema: Schema, key: string, value: Value, section: Path, written: Path)
      requires section == schema.Canon(written)
      modifies this
      ensures inPlace == old(inPlace) + InPlace(schema, [Placed(written + [key], value)])
      ensures moved == old(moved) + Moved(schema, [Placed(written + [key], value)])
      ensures nulls == old(nulls) + Nulls(schema, [Placed(written + [key], value)])
      ensures sections == old(sections)
    {
      CanonStep(schema, written, key);
      var path := schema.Destination(section, written, key);
      Push(path, written + [key], value);
      GatheredOne(schema, Placed(written + [key], value), path);
    }

    /** Files one value by whether it is null and whether it moved. */
    method Push(path: Path, writtenPath: Path, value: Value)
      modifies this
      ensures inPlace == old(inPlace) + if path == writtenPath && value != Null then [Placed(path, value)] else []
      ensures moved == old(moved) + if path != writtenPath && value != Null then [Placed(path, value)] else []
      ensures nulls == old(nulls) + if path == writtenPath && value == Null then [path] else []
      ensures sections == old(sections)
    {
      if path == writtenPath {
        if value == Null {
          nulls := nulls + [path];
        } else {
          inPlace := inPlace + [Placed(path, value)];
        }
      } else if value != Null {
        moved := moved + [Placed(path, value)];
      }
    }

    /** Turns what was gathered into the resolved tree, one pass after another. */
    method Resolve() returns (root: map<string, Value>)
      ensures root == Resolved(inPlace, moved, sections, nulls)
    {
      root := map[];
      for i := 0 to |inPlace|
        invariant root == WriteInPlace(map[], inPlace[..i])
      {
        assert inPlace[..i + 1][..i] == inPlace[..i];
        root := WriteAt(root, inPlace[i].path, inPlace[i].value);
      }
      assert inPlace[..|inPlace|] == inPlace;
      root := ResolveMoved(root);
      root := WriteVacant(root, sections, Object(map[]));
      root := WriteVacant(root, nulls, Null);
    }

    method ResolveMoved(start: map<string, Value>) returns (root: map<string, Value>)
      ensures root == WriteMoved(start, moved)
    {
      root := start;
      var i := |moved|;
      assert moved[..i] == moved;
      while i > 0
        invariant 0 <= i <= |moved|
        invariant WriteMoved(start, moved) == WriteMoved(root, moved[..i])
      {
        i := i - 1;
        assert moved[..i + 1][..i] == moved[..i];
        var vacant := CheckVacant(root, moved[i].path);
        if vacant {
          root := WriteAt(root, moved[i].path, moved[i].value);
        }
      }
    }
  }

  method WriteVacant(start: map<string, Value>, paths: seq<Path>, value: Value) returns (root: map<string, Value>)
    ensures root == WriteEach(start, paths, value)
  {
    root := start;
    for i := 0 to |paths|
      invariant root == WriteEach(start, paths[..i], value)
    {
      assert paths[..i + 1][..i] == paths[..i];
      var vacant := CheckVacant(root, paths[i]);
      if vacant {
        root := WriteAt(root, paths[i], value);
      }
    }
    assert paths[..|paths|] == paths;
  }

  /** Gathers and writes a whole document. */
  method ResolveDocument(schema: Schema, entries: seq<Entry>) returns (root: map<string, Value>)
    ensures root == KeyResolution.Resolve(schema, entries)
  {
    var placements := new Placements();
    placements.Collect(schema, entries, [], []);
    assert placements.inPlace == InPlace(schema, Values(entries, []));
    assert placements.moved == Moved(schema, Values(entries, []));
    assert placements.nulls == Nulls(schema, Values(entries, []));
    assert placements.sections == Canonical(schema, Sections(entries, []));
    root := placements.Resolve();
  }
}
