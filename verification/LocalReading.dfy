/** The local sources: one file read under two readings of its keys, nulls dropped, and the reading that
    translates selected. */
module LocalReading {
  import opened Wrappers
  import opened Json
  import opened SourceTrees
  import Resolution
  import Documents
  import KeyResolution
  import Y = Reading
  import ReadingLaws
  import Spellings

  // ---------- dropping nulls ----------

  /** Every object entry that is null removed, at every depth outside lists. */
  function DropNulls(v: Value): Value
    decreases v
  {
    if v.Object? then Object(map k | k in v.fields && v.fields[k] != Null :: DropNulls(v.fields[k])) else v
  }

  /** The entries that are not null, all but those of `rest` pruned already. */
  ghost function Pruned(fields: map<string, Value>, rest: set<string>): map<string, Value> {
    map k | k in fields && fields[k] != Null :: if k in rest then fields[k] else DropNulls(fields[k])
  }

  lemma PruneOne(fields: map<string, Value>, rest: set<string>, k: string)
    requires k in rest && k in fields && fields[k] != Null
    ensures Pruned(fields, rest)[k := DropNulls(fields[k])] == Pruned(fields, rest - {k})
  {}

  method DropNullsInPlace(value: Value) returns (r: Value)
    ensures r == DropNulls(value)
    decreases value
  {
    if !value.Object? {
      return value;
    }
    var fields := map k | k in value.fields && value.fields[k] != Null :: value.fields[k];
    var rest := fields.Keys;
    assert fields == Pruned(value.fields, rest);
    while rest != {}
      invariant rest <= fields.Keys && fields == Pruned(value.fields, rest)
      decreases |rest|
    {
      var k :| k in rest;
      PruneOne(value.fields, rest, k);
      var pruned := DropNullsInPlace(value.fields[k]);
      fields, rest := fields[k := pruned], rest - {k};
    }
    r := Object(fields);
  }

  /** What is left at a path: an entry that was null is gone, and anything else is pruned in turn. */
  lemma {:induction false} DropNullsAt(v: Value, p: Path)
    ensures At(DropNulls(v), p) ==
            match At(v, p)
            case None => None
            case Some(x) => if p != [] && x == Null then None else Some(DropNulls(x))
    decreases |p|
  {
    if p != [] && v.Object? && p[0] in v.fields {
      DropNullsAt(v.fields[p[0]], p[1..]);
      assert v.fields[p[0]] == Null ==> At(v, p) == if |p| == 1 then Some(Null) else None;
    }
  }

  /** Dropping nulls removes exactly the null entries: every other path shows what it showed. */
  lemma DropNullsShapes(v: Value, p: Path)
    ensures ShapeAt(DropNulls(v), p) == if p != [] && ShapeAt(v, p) == Scalar(Null) then Absent else ShapeAt(v, p)
  {
    DropNullsAt(v, p);
  }

  lemma DropNullsTwice(v: Value)
    ensures DropNulls(DropNulls(v)) == DropNulls(v)
  {}

  // ---------- building one reading's layer ----------

  /** The value a reading leaves: nulls dropped, and an empty file an empty object. */
  function Base(parsed: Value): Value {
    if DropNulls(parsed) == Null then Object(map[]) else DropNulls(parsed)
  }

  /** The environment never sees a null: an empty file is an empty object, and anything else keeps its shape but for
      the nulls in it. */
  lemma BaseShapes(parsed: Value, p: Path)
    ensures Base(parsed) != Null
    ensures ShapeAt(Base(parsed), p) ==
            if parsed == Null then (if p == [] then Branch else Absent)
            else if p != [] && ShapeAt(parsed, p) == Scalar(Null) then Absent
            else ShapeAt(parsed, p)
  {
    DropNullsShapes(parsed, p);
    assert DropNulls(parsed) == Null <==> parsed == Null;
  }

  /** The layer of one reading. `environment` overlays the environment variables. */
  function Build<E>(sections: set<Path>, environment: Value -> Result<Value, E>, parsed: Result<Value, E>): Result<Node, E> {
    match parsed
    case Err(error) => Err(error)
    case Ok(value) =>
      match environment(Base(value))
      case Err(error) => Err(error)
      case Ok(base) => Ok(FromValue(sections, base, []))
  }

  // ---------- selecting the reading ----------

  /** The base of the reading in use, what it translates to, and the error that made every key be read as
      written. */
  datatype Reading<+C, +E> = Reading(base: Node, local: Result<C, E>, fallbackError: Option<E>)

  function ReadLocal<C, E>(datadog: Result<Node, E>, asWritten: Result<Node, E>, translate: Node -> Result<C, E>): Result<Reading<C, E>, E> {
    if datadog.Ok? && translate(datadog.value).Ok? then
      Ok(Reading(datadog.value, translate(datadog.value), None))
    else
      var error := if datadog.Ok? then translate(datadog.value).error else datadog.error;
      if asWritten.Ok? && !(datadog.Ok? && datadog.value == asWritten.value) && translate(asWritten.value).Ok? then
        Ok(Reading(asWritten.value, translate(asWritten.value), Some(error)))
      else if datadog.Ok? then Ok(Reading(datadog.value, Err(error), None))
      else Err(error)
  }

  /** A reading built, and its base made a configuration. */
  predicate Translates<C, E>(built: Result<Node, E>, translate: Node -> Result<C, E>) {
    built.Ok? && translate(built.value).Ok?
  }

  /** There is a configuration exactly when one of the two readings translates, and it is the translation of
      the base that is kept. */
  lemma ConfigurationIff<C, E>(datadog: Result<Node, E>, asWritten: Result<Node, E>, translate: Node -> Result<C, E>)
    ensures
      var r := ReadLocal(datadog, asWritten, translate);
      && ((r.Ok? && r.value.local.Ok?) <==> (Translates(datadog, translate) || Translates(asWritten, translate)))
      && (r.Ok? ==> r.value.local == translate(r.value.base))
      && (r.Ok? ==> Ok(r.value.base) == datadog || Ok(r.value.base) == asWritten)
  {}

  /** The error is kept exactly when the as-written reading is used, which is exactly when only that reading
      translates; it is then why the Agent-style reading was not used. */
  lemma FallbackIff<C, E>(datadog: Result<Node, E>, asWritten: Result<Node, E>, translate: Node -> Result<C, E>)
    ensures
      var r := ReadLocal(datadog, asWritten, translate);
      && ((r.Ok? && r.value.fallbackError.Some?) <==> (!Translates(datadog, translate) && Translates(asWritten, translate)))
      && (r.Ok? && r.value.fallbackError.Some? ==>
            && Ok(r.value.base) == asWritten && datadog != asWritten
            && Err(r.value.fallbackError.value) == if datadog.Ok? then translate(datadog.value) else Err(datadog.error))
      && (r.Ok? && r.value.fallbackError.None? ==> Ok(r.value.base) == datadog)
      && (r.Err? <==> datadog.Err? && !Translates(asWritten, translate))
      && (r.Err? ==> Err(r.error) == datadog)
  {}

  // ---------- from the document to the local layer ----------

  /** An entry of the value becomes a leaf of the layer if only sections lie above it and it is not split. */
  lemma {:induction false} LeafOfLayer(sections: set<Path>, v: Value, path: Path, p: Path)
    requires At(v, p).Some? && ((path + p != [] && path + p !in sections) || !At(v, p).value.Object?)
    requires forall u :: u < p && path + u != [] ==> path + u in sections
    ensures Get(FromValue(sections, v, path), p) == Some(Leaf(At(v, p).value, Explicit))
    decreases |p|
  {
    if p == [] {
      assert path + p == path;
    } else {
      var k := p[0];
      assert path + [] == path;
      assert forall u {:trigger path + [k] + u} :: path + [k] + u == path + ([k] + u);
      assert p == [k] + p[1..];
      forall u | u < p[1..] && path + [k] + u != [] ensures path + [k] + u in sections {
        assert [k] + u < p;
      }
      LeafOfLayer(sections, v.fields[k], path + [k], p[1..]);
    }
  }

  /** A setting's own path is where it stays, with only sections above it. */
  lemma SettingPath(schema: Documents.Schema, l: Path)
    requires schema.Valid() && l in schema.leaves
    ensures schema.Stays(l)
    ensures forall u :: u != [] && u < l ==> schema.IsSection(u)
  {
    Documents.CanonFixed(schema, l, l);
    Documents.CanonFixed(schema, l[..|l| - 1], l);
  }

  lemma SettingOfLayer(schema: Documents.Schema, sections: set<Path>, base: Value, l: Path)
    requires schema.Valid() && l in schema.leaves && l !in sections
    requires forall s :: schema.IsSection(s) ==> s in sections
    requires At(base, l).Some?
    ensures Get(FromValue(sections, base, []), l) == Some(Leaf(At(base, l).value, Explicit))
  {
    SettingPath(schema, l);
    assert forall u: Path {:trigger [] + u} :: [] + u == u;
    assert [] + l == l;
    LeafOfLayer(sections, base, [], l);
  }

  /** What the environment leaves at a setting is an explicit leaf of the local layer. */
  lemma LayerHolds<E>(schema: Documents.Schema, sections: set<Path>, l: Path, parsed: Value, environment: Value -> Result<Value, E>)
    requires schema.Valid() && l in schema.leaves && l !in sections && forall s :: schema.IsSection(s) ==> s in sections
    ensures
      var left, layer := environment(Base(parsed)), Build(sections, environment, Ok(parsed));
      && layer.Ok? == left.Ok?
      && (left.Ok? && At(left.value, l).Some? ==> Get(layer.value, l) == Some(Leaf(At(left.value, l).value, Explicit)))
  {
    var left := environment(Base(parsed));
    if left.Ok? && At(left.value, l).Some? {
      SettingOfLayer(schema, sections, left.value, l);
    }
  }

  /** A setting written at its canonical place reaches the environment whole, but for the nulls inside it, whatever
      else the document holds; and whatever the environment leaves there is an explicit leaf of the local layer. */
  lemma WrittenReachesLayer<E>(schema: Documents.Schema, entries: seq<Documents.Entry>, sections: set<Path>, v: Resolution.Placed,
                               environment: Value -> Result<Value, E>)
    requires KeyResolution.IsDocument(schema, entries)
    requires v in Documents.Values(entries, []) && v.path in schema.leaves && v.value != Null
    requires v.path !in sections && forall s :: schema.IsSection(s) ==> s in sections
    ensures
      var parsed := Object(KeyResolution.Resolve(schema, entries));
      var left, layer := environment(Base(parsed)), Build(sections, environment, Ok(parsed));
      && At(Base(parsed), v.path) == Some(DropNulls(v.value))
      && layer.Ok? == left.Ok?
      && (left.Ok? && At(left.value, v.path).Some? ==> Get(layer.value, v.path) == Some(Leaf(At(left.value, v.path).value, Explicit)))
  {
    SettingPath(schema, v.path);
    KeyResolution.InPlaceReadsBack(schema, entries, v);
    var parsed := Object(KeyResolution.Resolve(schema, entries));
    DropNullsAt(parsed, v.path);
    LayerHolds(schema, sections, v.path, parsed, environment);
  }

  /** A setting of a parsed file, spelled in any case and with any dots and unrivalled in the file, reaches the environment
      with its keys rendered and pruned of nulls, and what the environment leaves there is an explicit leaf of the layer. */
  lemma SpelledReachesLayer<E>(schema: Documents.Schema, entries: seq<Y.YamlEntry>, sections: set<Path>, w: Path, l: Path,
                               x: Y.Yaml, environment: Value -> Result<Value, E>)
    requires schema.Valid() && Y.Parsed(Y.Mapping(entries)) && l in schema.leaves
    requires Y.FromDocument(schema, Y.Mapping(entries)).Some?
    requires ReadingLaws.Reached(schema, [], entries, w, x) && Spellings.Name(schema, w) == Joined(l)
    requires Y.LeafValue(x).Some? && Y.LeafValue(x) != Some(Null) && ReadingLaws.Unrivalled(schema, entries, w, l)
    requires l !in sections && forall s :: schema.IsSection(s) ==> s in sections
    ensures
      var parsed := Y.FromDocument(schema, Y.Mapping(entries)).value;
      var left, layer := environment(Base(parsed)), Build(sections, environment, Ok(parsed));
      && At(Base(parsed), l) == Some(DropNulls(Y.LeafValue(x).value))
      && layer.Ok? == left.Ok?
      && (left.Ok? && At(left.value, l).Some? ==> Get(layer.value, l) == Some(Leaf(At(left.value, l).value, Explicit)))
  {
    var parsed := Y.FromDocument(schema, Y.Mapping(entries)).value;
    ReadingLaws.SpelledReads(schema, entries, w, l, x);
    DropNullsAt(parsed, l);
    LayerHolds(schema, sections, l, parsed, environment);
  }
}
