/** Resolving a whole document: what the gathered values guarantee, and the theorems about the tree
    they are written into. */
module KeyResolution {
  import opened Wrappers
  import opened Json
  import opened Resolution
  import opened Collisions
  import opened Documents

  /** A document: the entries of its root map. */
  ghost predicate IsDocument(schema: Schema, entries: seq<Entry>) {
    schema.Valid() && WellRead(schema, Section(entries), [])
  }

  lemma ValuesNamed(schema: Schema, entries: seq<Entry>)
    requires IsDocument(schema, entries)
    ensures forall v :: v in Values(entries, []) ==> v.path != [] && Rooted(schema, v.path)
    ensures forall v :: v in Values(entries, []) && schema.IsSection(schema.Canon(v.path)) ==> !v.value.Object?
  {
    forall v | v in Values(entries, []) ensures ValueBelow(schema, v, []) {
      ValueLies(schema, entries, [], v);
    }
    forall v | v in Values(entries, []) ensures Rooted(schema, v.path) {
      assert ValueBelow(schema, v, []);
    }
  }

  function Resolve(schema: Schema, entries: seq<Entry>): map<string, Value> {
    var values := Values(entries, []);
    Resolved(InPlace(schema, values), Moved(schema, values),
             Canonical(schema, Sections(entries, [])), Nulls(schema, values))
  }

  // ---------- coherence ----------

  /** A respelled value never lands where a section belongs. */
  lemma MovedIsNoSection(schema: Schema, w: Path)
    requires schema.Valid() && w != [] && Rooted(schema, w) && !schema.Stays(w)
    ensures schema.Target(w) != [] && !schema.IsSection(schema.Canon(schema.Target(w)))
    ensures forall u :: u != [] && u < schema.Target(w) ==> schema.IsSection(schema.Canon(u))
  {
    TargetKind(schema, w, []);
    forall u | u != [] && u < schema.Target(w) ensures schema.IsSection(schema.Canon(u)) {
      TargetKind(schema, w, u);
    }
  }

  ghost predicate Lands(schema: Schema, t: Path) {
    && t != [] && !schema.IsSection(schema.Canon(t)) && Rooted(schema, t)
  }

  lemma MovedLand(schema: Schema, entries: seq<Entry>, m: Placed)
    requires IsDocument(schema, entries)
    requires m in Moved(schema, Values(entries, []))
    ensures Lands(schema, m.path)
  {
    ValuesNamed(schema, entries);
    GatheredMembers(schema, Values(entries, []));
    var v :| v in Values(entries, []) && !schema.Stays(v.path) && m == Placed(schema.Target(v.path), v.value);
    MovedIsNoSection(schema, v.path);
  }

  lemma SectionsNamed(schema: Schema, entries: seq<Entry>, s: Path)
    requires IsDocument(schema, entries) && s in Sections(entries, [])
    ensures s != [] && schema.IsSection(schema.Canon(s))
    ensures forall u :: u != [] && u <= schema.Canon(s) ==> schema.Canon(u) == u && schema.IsSection(u)
  {
    SectionLies(schema, entries, [], s);
    forall u | u != [] && u <= schema.Canon(s) ensures schema.Canon(u) == u && schema.IsSection(u) {
      SectionFixed(schema, schema.Canon(s), u);
    }
  }

  lemma DocumentCoherent(schema: Schema, entries: seq<Entry>)
    requires IsDocument(schema, entries)
    ensures
      var values := Values(entries, []);
      Coherent(InPlace(schema, values), Moved(schema, values),
               Canonical(schema, Sections(entries, [])), Nulls(schema, values))
  {
    ValuesNamed(schema, entries);
    var values := Values(entries, []);
    var inPlace, moved, nulls := InPlace(schema, values), Moved(schema, values), Nulls(schema, values);
    var sections := Canonical(schema, Sections(entries, []));
    ValuesInOrderApart(schema, entries, []);
    InPlaceGathered(schema, values);
    NullsGathered(schema, values);
    GatheredMembers(schema, values);
    forall i | 0 <= i < |moved| ensures Lands(schema, moved[i].path) {
      MovedLand(schema, entries, moved[i]);
    }
    forall i | 0 <= i < |inPlace|
      ensures Rooted(schema, inPlace[i].path) && (schema.IsSection(schema.Canon(inPlace[i].path)) ==> !inPlace[i].value.Object?)
    { assert inPlace[i] in inPlace; }
    forall i | 0 <= i < |nulls| ensures Rooted(schema, nulls[i]) {
      assert nulls[i] in nulls;
      assert Placed(nulls[i], Null) in values;
    }
    forall i | 0 <= i < |sections|
      ensures forall u :: u != [] && u <= sections[i] ==> schema.IsSection(schema.Canon(u))
    { SectionsNamed(schema, entries, Sections(entries, [])[i]); }
  }

  // ---------- what the resolved tree holds ----------

  ghost function DocumentClaims(schema: Schema, entries: seq<Entry>): map<Path, Value> {
    var values := Values(entries, []);
    FinalClaims(InPlace(schema, values), Moved(schema, values),
                Canonical(schema, Sections(entries, [])), Nulls(schema, values))
  }

  ghost function DocumentSections(schema: Schema, entries: seq<Entry>): set<Path> {
    Elements(Canonical(schema, Sections(entries, [])))
  }

  /** The resolved tree, path by path. */
  lemma ResolveHolds(schema: Schema, entries: seq<Entry>)
    requires IsDocument(schema, entries)
    ensures Holds(Resolve(schema, entries), DocumentClaims(schema, entries), DocumentSections(schema, entries))
    ensures Antichain(DocumentClaims(schema, entries))
  {
    DocumentCoherent(schema, entries);
    var values := Values(entries, []);
    ResolvedHolds(InPlace(schema, values), Moved(schema, values),
                  Canonical(schema, Sections(entries, [])), Nulls(schema, values));
  }

  /** A value written at its canonical place is what the resolved tree holds there, whole, whatever
      respellings, empty sections and nulls the document also has. */
  lemma InPlaceReadsBack(schema: Schema, entries: seq<Entry>, v: Placed)
    requires IsDocument(schema, entries)
    requires v in Values(entries, []) && schema.Stays(v.path) && v.value != Null
    ensures At(Object(Resolve(schema, entries)), v.path) == Some(v.value)
  {
    var values := Values(entries, []);
    DocumentCoherent(schema, entries);
    GatheredMembers(schema, values);
    LastAtOnly(InPlace(schema, values), v);
    WinnerReadsBack(InPlace(schema, values), Moved(schema, values),
                    Canonical(schema, Sections(entries, [])), Nulls(schema, values), v.path);
  }

  /** Every place a respelling is meant for, settled: the value written there in place wins; else, below
      a value in place, nothing is there; else the respelling written last is there. */
  lemma RespellingSettled(schema: Schema, entries: seq<Entry>, t: Path)
    requires IsDocument(schema, entries)
    requires t in PathsOf(Moved(schema, Values(entries, [])))
    ensures
      var inPlace, moved := InPlace(schema, Values(entries, [])), Moved(schema, Values(entries, []));
      At(Object(Resolve(schema, entries)), t) ==
        if LastAt(inPlace, t).Some? then LastAt(inPlace, t)
        else if Shadowed(inPlace, t) then None
        else LastAt(moved, t)
  {
    var values := Values(entries, []);
    var inPlace, moved := InPlace(schema, values), Moved(schema, values);
    var sections, nulls := Canonical(schema, Sections(entries, [])), Nulls(schema, values);
    DocumentCoherent(schema, entries);
    LastAtFound(moved, t);
    if Claim(inPlace, moved, t).Some? {
      WinnerReadsBack(inPlace, moved, sections, nulls, t);
    } else {
      ShadowedIsAbsent(inPlace, moved, sections, nulls, t);
    }
  }

  /** Nothing is invented: every value in the resolved tree that is not an object lies in a document entry,
      at the place that entry resolves to. */
  lemma NothingInvented(schema: Schema, entries: seq<Entry>, p: Path)
    requires IsDocument(schema, entries)
    requires ShapeAt(Object(Resolve(schema, entries)), p).Scalar?
    ensures exists v :: v in Values(entries, []) && schema.Target(v.path) <= p &&
                        At(v.value, p[|schema.Target(v.path)|..]) == At(Object(Resolve(schema, entries)), p)
  {
    var root, claims, sections := Resolve(schema, entries), DocumentClaims(schema, entries), DocumentSections(schema, entries);
    ResolveHolds(schema, entries);
    assert ShapeAt(Object(root), p) == Shown(claims, sections, p);
    var a := Owner(claims, p);
    InsideClaim(root, claims, sections, a, p);
    var v := ClaimSource(schema, entries, a);
    assert schema.Target(v.path) <= p;
  }

  /** The document value a claim came from. */
  lemma ClaimSource(schema: Schema, entries: seq<Entry>, a: Path) returns (v: Placed)
    requires a in DocumentClaims(schema, entries)
    ensures v in Values(entries, []) && schema.Target(v.path) == a && v.value == DocumentClaims(schema, entries)[a]
  {
    var values := Values(entries, []);
    var inPlace, moved := InPlace(schema, values), Moved(schema, values);
    GatheredMembers(schema, values);
    if a in KeptNulls(Claims(inPlace, moved), DocumentSections(schema, entries), Elements(Nulls(schema, values))) {
      v := Placed(a, Null);
      assert a in Nulls(schema, values);
    } else {
      ClaimOrigin(inPlace, moved, a);
      if i :| 0 <= i < |inPlace| && inPlace[i].path == a && inPlace[i].value == Claims(inPlace, moved)[a] {
        v := inPlace[i];
        assert v in inPlace;
      } else {
        var i :| 0 <= i < |moved| && moved[i].path == a && moved[i].value == Claims(inPlace, moved)[a];
        assert moved[i] in moved;
        v :| v in values && !schema.Stays(v.path) && v.value != Null && moved[i] == Placed(schema.Target(v.path), v.value);
      }
    }
  }
}
